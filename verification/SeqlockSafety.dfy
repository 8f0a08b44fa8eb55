/** Safety of the rule table over every run. */
module SeqlockSafety {
  import opened RuleSlots
  import opened SeqlockMachine
  import opened SeqlockInvariant

  lemma InitInv(s: State)
    requires Init(s)
    ensures Inv(s)
  {
  }

  lemma TickKeepsInv(s: State, s': State)
    requires Inv(s) && TickStep(s, s')
    ensures Inv(s')
  {
    forall t | t in s'.threads
      ensures ThreadOk(s'.threads[t], FocusSlot(s', s'.threads[t]), s'.clock, s'.log)
    {
      ThreadOkGrows(s.threads[t], FocusSlot(s, s.threads[t]), s.clock, s'.clock, s.log, s'.log);
    }
    forall i | 0 <= i < CAPACITY
      ensures HasOwner(s', i) == HasOwner(s, i)
    {
    }
  }

  lemma StartKeepsInv(s: State, s': State, t: nat)
    requires Inv(s) && StartStep(s, s', t)
    ensures Inv(s')
  {
    forall i | 0 <= i < CAPACITY
      ensures HasOwner(s', i) == HasOwner(s, i)
    {
      if HasOwner(s, i) {
        var u :| u in s.threads && Owns(s.threads[u], i);
        assert Owns(s'.threads[u], i);
      }
    }
  }

  /** The acting thread's part of the invariant. */
  lemma ActKeepsSelf(s: State, s': State, t: nat)
    requires Inv(s) && ActStep(s, s', t)
    ensures WellFormed(s'.threads[t]) && ThreadOk(s'.threads[t], FocusSlot(s', s'.threads[t]), s'.clock, s'.log)
  {
    ActFacts(s, s', t);
    OwnStepOk(s.threads[t], s.slots[Focus(s.threads[t])], s.clock, s.log, FocusSlot(s', s'.threads[t]));
  }

  /** Another thread's part of the invariant. */
  lemma ActKeepsOther(s: State, s': State, t: nat, u: nat)
    requires Inv(s) && ActStep(s, s', t) && u in s.threads && u != t
    ensures WellFormed(s'.threads[u]) && ThreadOk(s'.threads[u], FocusSlot(s', s'.threads[u]), s'.clock, s'.log)
  {
    ActFacts(s, s', t);
    var oth := s.threads[u];
    if Running(oth) && Focus(oth) == Focus(s.threads[t]) {
      OtherThreadOk(s.threads[t], s.slots[Focus(oth)], oth, s.clock, s.log);
    } else {
      ThreadOkGrows(oth, FocusSlot(s, oth), s.clock, s.clock, s.log, s'.log);
    }
  }

  /** What the invariant says about the acting thread and its slot. */
  lemma ActFacts(s: State, s': State, t: nat)
    requires Inv(s) && ActStep(s, s', t)
    ensures var th := s.threads[t];
            var i := Focus(th);
            && s'.log == NextLog(th, s.log)
            && WellFormed(s'.threads[t])
            && (Owns(th, i) ==> Odd(s.slots[i].gen))
            && (forall u :: u in s.threads && u != t && Owns(s.threads[u], i) ==> Odd(s.slots[i].gen) && !Owns(th, i))
            && Handover(th, s'.threads[t], i, s.slots[i], s'.slots[i])
            && SlotOk(s'.slots[i]) && Justified(s'.log, i, s'.slots[i].committed)
  {
    var th := s.threads[t];
    var i := Focus(th);
    assert Owns(th, i) ==> HasOwner(s, i);
    OwnStepOk(th, s.slots[i], s.clock, s.log, s.slots[i]);
  }

  ghost predicate ParityMarksOwner(s: State) {
    |s.slots| == CAPACITY && forall j :: 0 <= j < CAPACITY ==> (Odd(s.slots[j].gen) <==> HasOwner(s, j))
  }

  /** Only thread `t` and slot `i` may differ between the two states. */
  ghost predicate OneThreadOneSlot(s: State, s': State, t: nat, i: nat) {
    && |s.slots| == |s'.slots| == CAPACITY && i < CAPACITY
    && t in s.threads && s'.threads.Keys == s.threads.Keys
    && (forall u :: u in s.threads && u != t ==> s'.threads[u] == s.threads[u])
    && (forall j :: 0 <= j < CAPACITY && j != i ==> s'.slots[j] == s.slots[j])
    && (forall j :: Owns(s.threads[t], j) ==> j == i)
    && Handover(s.threads[t], s'.threads[t], i, s.slots[i], s'.slots[i])
  }

  lemma HandoverKeepsOneOwner(s: State, s': State, t: nat, i: nat)
    requires OneThreadOneSlot(s, s', t, i) && ParityMarksOwner(s) && OneOwner(s)
    ensures OneOwner(s')
  {
    forall u, u', j | u in s'.threads && u' in s'.threads && Owns(s'.threads[u], j) && Owns(s'.threads[u'], j)
      ensures u == u'
    {
      assert u != t ==> Owns(s.threads[u], j);
      assert u' != t ==> Owns(s.threads[u'], j);
      assert u != t || u' != t ==> HasOwner(s, j);
    }
  }

  lemma HandoverKeepsParity(s: State, s': State, t: nat, i: nat)
    requires OneThreadOneSlot(s, s', t, i) && ParityMarksOwner(s) && OneOwner(s)
    ensures ParityMarksOwner(s')
  {
    forall j | 0 <= j < CAPACITY
      ensures Odd(s'.slots[j].gen) <==> HasOwner(s', j)
    {
      if HasOwner(s, j) {
        var u :| u in s.threads && Owns(s.threads[u], j);
        assert u != t ==> Owns(s'.threads[u], j);
      }
      if HasOwner(s', j) {
        var u :| u in s'.threads && Owns(s'.threads[u], j);
        assert u != t ==> Owns(s.threads[u], j);
      }
      assert Owns(s'.threads[t], j) ==> HasOwner(s', j);
    }
  }

  lemma ActKeepsInv(s: State, s': State, t: nat)
    requires Inv(s) && ActStep(s, s', t)
    ensures Inv(s')
  {
    ActFacts(s, s', t);
    forall u | u in s'.threads
      ensures WellFormed(s'.threads[u]) && ThreadOk(s'.threads[u], FocusSlot(s', s'.threads[u]), s'.clock, s'.log)
    {
      if u == t {
        ActKeepsSelf(s, s', t);
      } else {
        ActKeepsOther(s, s', t, u);
      }
    }
    HandoverKeepsOneOwner(s, s', t, Focus(s.threads[t]));
    HandoverKeepsParity(s, s', t, Focus(s.threads[t]));
    forall j | 0 <= j < CAPACITY
      ensures SlotOk(s'.slots[j]) && Justified(s'.log, j, s'.slots[j].committed)
    {
      if j != Focus(s.threads[t]) {
        JustifiedGrows(s.log, s'.log, j, s.slots[j].committed);
      }
    }
  }

  lemma NextKeepsInv(s: State, s': State)
    requires Inv(s) && Next(s, s')
    ensures Inv(s')
  {
    if TickStep(s, s') {
      TickKeepsInv(s, s');
    } else if t :| StartStep(s, s', t) {
      StartKeepsInv(s, s', t);
    } else {
      var t :| ActStep(s, s', t);
      ActKeepsInv(s, s', t);
    }
  }

  /** The invariant holds in every state of every run. */
  lemma {:induction false} RunKeepsInv(run: seq<State>, k: nat)
    requires Run(run) && Init(run[0]) && k < |run|
    ensures Inv(run[k])
  {
    if k == 0 {
      InitInv(run[0]);
    } else {
      RunKeepsInv(run, k - 1);
      assert StepAt(run, k - 1);
      NextKeepsInv(run[k - 1], run[k]);
    }
  }

  /** The rule carries the publisher's own arguments. */
  ghost predicate Arrived(job: Job, p: Payload)
    requires job.Publish?
  {
    Carries(p, job.key, job.now, job.ttl, job.tier, job.rps, job.shared)
  }

  /** A lookup that reports a rule reports, field for field, the payload of one completed publish of
      the requested key in that key's window, still live at the reader's clock. */
  lemma FoundIsOnePublish(run: seq<State>, k: nat, t: nat)
    requires Run(run) && Init(run[0]) && k < |run|
    requires t in run[k].threads && run[k].threads[t].ReadDone? && run[k].threads[t].result.Found?
    ensures var th := run[k].threads[t];
            && th.result.snapshot.expires > th.now
            && exists r :: r in run[k].log && r.job.Publish? && r.job.key == th.key && InWindow(r.slot, th.key)
                           && Target(r.job) == th.result.snapshot && Arrived(r.job, th.result.snapshot)
  {
    RunKeepsInv(run, k);
    var th := run[k].threads[t];
    assert ThreadOk(th, FocusSlot(run[k], th), run[k].clock, run[k].log);
    assert FoundOk(run[k].log, th.key, th.now, th.result.snapshot);
    var r, i :| r in run[k].log && Recorded(r, i, th.key, th.result.snapshot);
    assert Arrived(r.job, th.result.snapshot);
  }

  /** A slot's sequence word is odd exactly while one writer, and no other, holds the slot; every
      stable nonzero key sits in its own probe window. */
  lemma SlotDiscipline(run: seq<State>, k: nat, i: nat)
    requires Run(run) && Init(run[0]) && k < |run| && i < CAPACITY
    ensures |run[k].slots| == CAPACITY
    ensures Odd(Word(run[k].slots[i].gen)) <==> exists t :: t in run[k].threads && Owns(run[k].threads[t], i)
    ensures forall t, u :: t in run[k].threads && u in run[k].threads && Owns(run[k].threads[t], i) && Owns(run[k].threads[u], i) ==> t == u
    ensures var cells := run[k].slots[i].cells;
            !Odd(Word(run[k].slots[i].gen)) && cells.hash != 0 ==> InWindow(i, cells.hash)
  {
    RunKeepsInv(run, k);
    var s := run[k];
    WordParity(s.slots[i].gen);
    assert HasOwner(s, i) <==> exists t :: t in s.threads && Owns(s.threads[t], i);
    assert SlotOk(s.slots[i]) && Justified(s.log, i, s.slots[i].committed);
    assert OneOwner(s);
  }

  /** In any step a slot's cells change only at the hands of the thread that holds the slot, and a
      committed rule that is still live at the clock gives way only to a clear or to a completed
      publish of the same key. */
  lemma ReplacementDiscipline(run: seq<State>, k: nat, i: nat)
    requires Run(run) && Init(run[0]) && k + 1 < |run| && i < CAPACITY
    ensures |run[k].slots| == |run[k + 1].slots| == CAPACITY
    ensures var slot, slot' := run[k].slots[i], run[k + 1].slots[i];
            && (slot'.cells != slot.cells ==>
                  Odd(slot.gen) && exists t :: ActStep(run[k], run[k + 1], t) && Owns(run[k].threads[t], i))
            && (slot'.committed != slot.committed && slot.committed.hash != 0 && slot.committed.expires > run[k].clock ==>
                  slot'.committed.hash == 0 || slot'.committed.hash == slot.committed.hash)
            && (slot'.committed != slot.committed && slot'.committed.hash != 0 ==>
                  exists r :: r in run[k + 1].log && Recorded(r, i, slot'.committed.hash, slot'.committed))
  {
    RunKeepsInv(run, k);
    RunKeepsInv(run, k + 1);
    var s, s' := run[k], run[k + 1];
    assert StepAt(run, k);
    assert Justified(s'.log, i, s'.slots[i].committed);
    if s.slots[i] != s'.slots[i] {
      var t :| ActStep(s, s', t);
      ActFacts(s, s', t);
      var th := s.threads[t];
      assert ThreadOk(th, FocusSlot(s, th), s.clock, s.log);
      if th.Writing? && th.phase == Storing(FIELDS) {
        FullAgreement(s.slots[i].cells, Target(th.job), StoreOrder(th.job));
      }
    }
  }
}
