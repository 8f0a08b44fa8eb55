/** What every step of the rule-table machine keeps. */
module SeqlockInvariant {
  import opened RuleSlots
  import opened SeqlockMachine

  /** `p` and `q` agree on the first `k` fields of `order`. */
  ghost predicate Agree(p: Payload, q: Payload, order: seq<Field>, k: nat)
    requires k <= |order|
  {
    forall j :: 0 <= j < k ==> Get(p, order[j]) == Get(q, order[j])
  }

  /** Each store and load order covers the whole payload. */
  lemma FullAgreement(p: Payload, q: Payload, order: seq<Field>)
    requires order == PUBLISH_ORDER || order == CLEAR_ORDER
    requires Agree(p, q, order, FIELDS)
    ensures p == q
  {
    assert forall j :: 0 <= j < FIELDS ==> Get(p, order[j]) == Get(q, order[j]);
    assert Get(p, order[0]) == Get(q, order[0]) && Get(p, order[1]) == Get(q, order[1]);
    assert Get(p, order[2]) == Get(q, order[2]) && Get(p, order[3]) == Get(q, order[3]);
    assert Get(p, order[4]) == Get(q, order[4]) && Get(p, order[5]) == Get(q, order[5]);
    assert Get(p, order[6]) == Get(q, order[6]);
  }

  /** Storing or loading the next field extends the agreement by one. */
  lemma AgreeNext(p: Payload, q: Payload, order: seq<Field>, k: nat)
    requires order == PUBLISH_ORDER || order == CLEAR_ORDER
    requires k < FIELDS && Agree(p, q, order, k)
    ensures Agree(Put(p, order[k], Get(q, order[k])), q, order, k + 1)
  {
    var p' := Put(p, order[k], Get(q, order[k]));
    forall j | 0 <= j < k + 1
      ensures Get(p', order[j]) == Get(q, order[j])
    {
      PutGet(p, order[k], Get(q, order[k]), order[j]);
    }
  }

  lemma PutGet(p: Payload, f: Field, v: nat, g: Field)
    ensures Get(Put(p, f, v), g) == if f == g then v else Get(p, g)
  {
  }

  lemma WordParity(gen: nat)
    ensures Odd(Word(gen)) == Odd(gen)
  {
    assert gen == gen / U32_SIZE * U32_SIZE + Word(gen);
  }

  /** Within a short window equal words mean equal counters. */
  lemma WordInjective(before: nat, gen: nat)
    requires before <= gen < before + U32_SIZE
    ensures Word(before) == Word(gen) ==> before == gen
  {
    assert gen == gen / U32_SIZE * U32_SIZE + Word(gen);
    assert before == before / U32_SIZE * U32_SIZE + Word(before);
  }

  /** `r` is a completed publish of the rule `p` for `key` into slot `i`. */
  ghost predicate Recorded(r: Record, i: nat, key: nat, p: Payload) {
    && r.job.Publish? && r.job.key == key && key != 0
    && r.slot == i && InWindow(i, key)
    && Target(r.job) == p
  }

  /** A committed payload is empty or the work of one completed publish, placed in its own window. */
  ghost predicate Justified(log: set<Record>, i: nat, p: Payload) {
    p.hash == 0 || exists r :: r in log && Recorded(r, i, p.hash, p)
  }

  ghost predicate FoundOk(log: set<Record>, key: nat, now: nat, p: Payload) {
    Live(p, key, now) && exists r, i :: r in log && Recorded(r, i, key, p)
  }

  ghost predicate SlotOk(slot: Slot) {
    !Odd(slot.gen) ==> slot.cells == slot.committed
  }

  /** What a thread's program counter says about the slot in its focus. */
  ghost predicate ThreadOk(th: Thread, slot: Slot, clock: nat, log: set<Record>) {
    && WellFormed(th)
    && match th
       case FindKey(job, _) => job.now <= clock
       case FindFree(job, _) => job.now <= clock
       case FindExpired(job, _, _) => job.now <= clock
       case Writing(job, _, phase) =>
         && (job.Publish? ==> job.now <= clock)
         && (phase.CheckHash? || phase.CheckExpires? || phase.Abandon? ==> slot.cells == slot.committed)
         && (phase.CheckExpires? ==> phase.existing == slot.cells.hash)
         && (phase.Storing? ==>
               && Agree(slot.cells, Target(job), StoreOrder(job), phase.k)
               && (job.Publish? ==> Claimable(slot.committed, job.key, job.now)))
       case ReadCells(_, _, _, _, _, before, k, got) =>
         before <= slot.gen && (before == slot.gen ==> Agree(got, slot.cells, READ_ORDER, k))
       case ReadDone(key, now, Found(p)) => FoundOk(log, key, now, p)
       case _ => true
  }

  ghost function FocusSlot(s: State, th: Thread): (slot: Slot)
    requires |s.slots| == CAPACITY && WellFormed(th)
  {
    if Running(th) then s.slots[Focus(th)] else s.slots[0]
  }

  ghost predicate OneOwner(s: State) {
    forall t, t', i :: t in s.threads && t' in s.threads && Owns(s.threads[t], i) && Owns(s.threads[t'], i) ==> t == t'
  }

  ghost predicate HasOwner(s: State, i: nat) {
    exists t :: t in s.threads && Owns(s.threads[t], i)
  }

  ghost predicate Inv(s: State) {
    && |s.slots| == CAPACITY
    && (forall t :: t in s.threads ==> WellFormed(s.threads[t]) && ThreadOk(s.threads[t], FocusSlot(s, s.threads[t]), s.clock, s.log))
    && (forall i :: 0 <= i < CAPACITY ==> SlotOk(s.slots[i]) && Justified(s.log, i, s.slots[i].committed))
    && (forall i :: 0 <= i < CAPACITY ==> (Odd(s.slots[i].gen) <==> HasOwner(s, i)))
    && OneOwner(s)
  }

  ghost function NextLog(th: Thread, log: set<Record>): (log': set<Record>)
    ensures log <= log'
  {
    if Completes(th) then log + {Record(th.at, th.job)} else log
  }

  /** How one step may change ownership and the slot it touches. */
  ghost predicate Handover(th: Thread, th': Thread, i: nat, slot: Slot, slot': Slot) {
    && (forall j :: Owns(th', j) ==> j == i)
    && (Owns(th, i) ==> slot'.gen == (if Owns(th', i) then slot.gen else slot.gen + 1))
    && (!Owns(th, i) && Owns(th', i) ==> !Odd(slot.gen) && slot' == slot.(gen := slot.gen + 1))
    && (!Owns(th, i) && !Owns(th', i) ==> slot' == slot)
  }

  lemma JustifiedGrows(log: set<Record>, log': set<Record>, i: nat, p: Payload)
    requires Justified(log, i, p) && log <= log'
    ensures Justified(log', i, p)
  {
  }

  /** Time passing and further publishes completing disturb no thread. */
  lemma ThreadOkGrows(th: Thread, slot: Slot, clock: nat, clock': nat, log: set<Record>, log': set<Record>)
    requires ThreadOk(th, slot, clock, log) && clock <= clock' && log <= log'
    ensures ThreadOk(th, slot, clock', log')
  {
    if th.ReadDone? && th.result.Found? {
      assert FoundOk(log, th.key, th.now, th.result.snapshot);
    }
  }

  /** A writer's own step. */
  lemma WritingStepOk(th: Thread, slot: Slot, clock: nat, log: set<Record>)
    requires th.Writing? && ThreadOk(th, slot, clock, log) && SlotOk(slot)
    requires Owns(th, th.at) ==> Odd(slot.gen)
    requires Justified(log, th.at, slot.committed)
    ensures var (th', slot') := Act(th, slot);
            && Handover(th, th', th.at, slot, slot')
            && ThreadOk(th', slot', clock, NextLog(th, log))
            && SlotOk(slot')
            && Justified(NextLog(th, log), th.at, slot'.committed)
  {
    WordParity(slot.gen);
    if th.phase.Storing? {
      if th.phase.k < FIELDS {
        AgreeNext(slot.cells, Target(th.job), StoreOrder(th.job), th.phase.k);
      } else {
        FullAgreement(slot.cells, Target(th.job), StoreOrder(th.job));
        if th.job.Publish? {
          assert Recorded(Record(th.at, th.job), th.at, th.job.key, slot.cells);
        }
      }
    }
  }

  /** A reader's own step. */
  lemma ReadingStepOk(th: Thread, slot: Slot, clock: nat, log: set<Record>)
    requires (th.ReadSeq? || th.ReadCells?) && ThreadOk(th, slot, clock, log) && SlotOk(slot)
    requires Justified(log, Focus(th), slot.committed) && ShortWindow(th, slot)
    ensures var (th', slot') := Act(th, slot);
            && slot' == slot && WellFormed(th')
            && (th'.ReadCells? ==> ThreadOk(th', slot, clock, log))
            && (th'.ReadDone? && th'.result.Found? ==> th'.result.snapshot == slot.committed && FoundOk(log, th'.key, th'.now, slot.committed))
  {
    WordParity(slot.gen);
    if th.ReadCells? {
      if th.k < FIELDS {
        if th.before == slot.gen {
          AgreeNext(th.got, slot.cells, READ_ORDER, th.k);
        }
      } else {
        WordInjective(th.before, slot.gen);
        if th.before == slot.gen {
          FullAgreement(th.got, slot.cells, READ_ORDER);
        }
      }
    }
  }

  /** Any running thread's own step, whatever slot it focuses on next. */
  lemma OwnStepOk(th: Thread, slot: Slot, clock: nat, log: set<Record>, other: Slot)
    requires Running(th) && ThreadOk(th, slot, clock, log) && SlotOk(slot)
    requires Owns(th, Focus(th)) ==> Odd(slot.gen)
    requires Justified(log, Focus(th), slot.committed) && ShortWindow(th, slot)
    ensures var (th', slot') := Act(th, slot);
            && Handover(th, th', Focus(th), slot, slot')
            && WellFormed(th')
            && ThreadOk(th', if Running(th') && Focus(th') == Focus(th) then slot' else other, clock, NextLog(th, log))
            && SlotOk(slot')
            && Justified(NextLog(th, log), Focus(th), slot'.committed)
  {
    if th.Writing? {
      WritingStepOk(th, slot, clock, log);
    } else if th.ReadSeq? || th.ReadCells? {
      ReadingStepOk(th, slot, clock, log);
    }
  }

  /** A step on a slot leaves every other thread's claim about that slot standing. */
  lemma OtherThreadOk(th: Thread, slot: Slot, oth: Thread, clock: nat, log: set<Record>)
    requires Running(th) && WellFormed(th) && ThreadOk(oth, slot, clock, log)
    requires Running(oth) && Focus(oth) == Focus(th)
    requires Handover(th, Act(th, slot).0, Focus(th), slot, Act(th, slot).1)
    requires Owns(th, Focus(th)) ==> Odd(slot.gen)
    requires Owns(oth, Focus(th)) ==> Odd(slot.gen) && !Owns(th, Focus(th))
    ensures ThreadOk(oth, Act(th, slot).1, clock, NextLog(th, log))
  {
    ThreadOkGrows(oth, slot, clock, clock, log, NextLog(th, log));
  }
}
