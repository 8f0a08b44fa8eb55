/** What a publish or a clear may report, whatever other threads do meanwhile. */
module SeqlockWriters {
  import opened RuleSlots
  import opened SeqlockMachine
  import opened SeqlockInvariant
  import opened SeqlockSafety
  import opened SeqlockLookup

  predicate Begins(th: Thread, job: Job) {
    if job.Publish? then job.key != 0 && th == FindKey(job, 0) else th.Writing? && th.job == job && th.phase == LoadSeq(0)
  }

  /** The thread is in (or has just finished) that operation. */
  predicate Works(th: Thread, job: Job) {
    (th.FindKey? || th.FindFree? || th.FindExpired? || th.Writing? || th.WriteDone?) && th.job == job
  }

  /** Thread `t` begins the operation in state `a` and has been inside it up to state `b`. */
  ghost predicate WriteSpan(run: seq<State>, t: nat, a: nat, b: nat, job: Job) {
    && Run(run) && Init(run[0]) && a <= b < |run|
    && (forall m :: a <= m <= b ==> t in run[m].threads && |run[m].slots| == CAPACITY)
    && Begins(run[a].threads[t], job)
    && (forall m :: a <= m < b ==> Running(run[m].threads[t]))
  }

  lemma {:induction false} SpanWorks(run: seq<State>, t: nat, a: nat, b: nat, job: Job)
    requires WriteSpan(run, t, a, b, job)
    ensures Works(run[b].threads[t], job)
    decreases b
  {
    if a < b {
      SpanWorks(run, t, a, b - 1, job);
      assert StepAt(run, b - 1);
      MovesByActing(run[b - 1], run[b], t);
    }
  }

  /** A writer that moved in the last step of a span did so by its own step. */
  lemma LastMove(run: seq<State>, t: nat, a: nat, b: nat, job: Job)
    requires WriteSpan(run, t, a, b, job) && a < b && run[b].threads[t] != run[b - 1].threads[t]
    ensures WriteSpan(run, t, a, b - 1, job) && ActStep(run[b - 1], run[b], t) && Works(run[b - 1].threads[t], job)
  {
    SpanWorks(run, t, a, b - 1, job);
    assert StepAt(run, b - 1);
    MovesByActing(run[b - 1], run[b], t);
  }

  // ----- Success -----

  /** The step from state `m` is thread `t` releasing the slot it has written: for a publish its record enters the log and
      the slot holds the rule, for a clear the slot is empty. */
  ghost predicate ReleasedAt(run: seq<State>, t: nat, m: nat, job: Job) {
    && m + 1 < |run| && ActStep(run[m], run[m + 1], t) && |run[m + 1].slots| == CAPACITY
    && var th := run[m].threads[t];
       && th.Writing? && th.job == job && th.phase == Storing(7) && th.at < CAPACITY
       && var slot, slot' := run[m].slots[th.at], run[m + 1].slots[th.at];
          && Odd(slot.gen) && slot'.gen == slot.gen + 1 && slot'.cells == slot'.committed
          && if job.Publish? then
               Record(th.at, job) in run[m + 1].log && InWindow(th.at, job.key) && Arrived(job, slot'.committed)
             else slot'.committed.hash == 0
  }

  ghost predicate ReleasedWithin(run: seq<State>, t: nat, a: nat, b: nat, job: Job) {
    exists m: nat :: a <= m < b && ReleasedAt(run, t, m, job)
  }

  lemma ReleaseStep(run: seq<State>, t: nat, m: nat, job: Job)
    requires m + 1 < |run| && Inv(run[m]) && ActStep(run[m], run[m + 1], t) && Works(run[m].threads[t], job)
    ensures run[m + 1].threads[t] == WriteDone(job, true) ==> ReleasedAt(run, t, m, job)
  {
    var s := run[m];
    var th := s.threads[t];
    var slot := FocusSlot(s, th);
    assert ThreadOk(th, slot, s.clock, s.log);
    if run[m + 1].threads[t] == WriteDone(job, true) {
      assert HasOwner(s, th.at) by {
        assert Owns(th, th.at);
      }
      FullAgreement(slot.cells, Target(job), StoreOrder(job));
    }
  }

  lemma ReleaseSucceeds(run: seq<State>, t: nat, m: nat, job: Job)
    requires ReleasedAt(run, t, m, job)
    ensures run[m + 1].threads[t] == WriteDone(job, true)
  {
  }

  /** A release ends the operation. */
  lemma ReleaseIsLast(run: seq<State>, t: nat, a: nat, b: nat, m: nat, job: Job)
    requires WriteSpan(run, t, a, b, job) && a <= m < b && ReleasedAt(run, t, m, job)
    ensures run[b].threads[t] == WriteDone(job, true)
  {
    ReleaseSucceeds(run, t, m, job);
  }

  lemma DoneIsReleased(run: seq<State>, t: nat, a: nat, b: nat, job: Job)
    requires WriteSpan(run, t, a, b, job) && run[b].threads[t] == WriteDone(job, true)
    ensures ReleasedWithin(run, t, a, b, job)
  {
    LastMove(run, t, a, b, job);
    RunKeepsInv(run, b - 1);
    ReleaseStep(run, t, b - 1, job);
  }

  /** A publish or clear reports success if and only if it released a slot that it had written. */
  lemma SucceedsIff(run: seq<State>, t: nat, a: nat, b: nat, job: Job)
    requires WriteSpan(run, t, a, b, job) && run[b].threads[t].WriteDone?
    ensures run[b].threads[t].ok <==> ReleasedWithin(run, t, a, b, job)
  {
    SpanWorks(run, t, a, b, job);
    if run[b].threads[t].ok {
      DoneIsReleased(run, t, a, b, job);
    } else if ReleasedWithin(run, t, a, b, job) {
      var m: nat :| a <= m < b && ReleasedAt(run, t, m, job);
      ReleaseIsLast(run, t, a, b, m, job);
    }
  }

  // ----- Refusal: the slot stays held -----

  function SlotIn(s: State, i: nat): (slot: Slot)
    requires |s.slots| == CAPACITY && i < CAPACITY
  {
    s.slots[i]
  }

  /** The writer is on that attempt to lock the slot `at`. */
  predicate Spins(th: Thread, at: nat, spin: nat) {
    th.Writing? && th.at == at && (th.phase == LoadSeq(spin) || (th.phase.SwapSeq? && th.phase.spin == spin))
  }

  ghost predicate ActsAt(run: seq<State>, t: nat, m: nat) {
    m + 1 < |run| && |run[m].slots| == CAPACITY && ActStep(run[m], run[m + 1], t)
  }

  /** The attempt failed between its load at `m` and its swap at `n`: the slot was held at the load, or its sequence word
      had changed by the swap. A slot that is held at the load is not swapped. */
  ghost predicate SpinFailedBy(run: seq<State>, t: nat, m: nat, n: nat, at: nat, spin: nat) {
    && at < CAPACITY && ActsAt(run, t, m) && Spins(run[m].threads[t], at, spin) && run[m].threads[t].phase.LoadSeq?
    && (|| (m == n && Odd(SlotIn(run[m], at).gen))
        || (&& m < n && ActsAt(run, t, n) && Spins(run[n].threads[t], at, spin) && run[n].threads[t].phase.SwapSeq?
            && SlotIn(run[n], at).gen != SlotIn(run[m], at).gen))
  }

  ghost predicate SpinFailedWithin(run: seq<State>, t: nat, a: nat, b: nat, at: nat, spin: nat) {
    exists m: nat, n: nat :: a <= m <= n < b && SpinFailedBy(run, t, m, n, at, spin)
  }

  /** The step of thread `t` from `s` fails that attempt. */
  ghost predicate SpinFailing(s: State, t: nat, at: nat, spin: nat) {
    && |s.slots| == CAPACITY && at < CAPACITY && t in s.threads && Spins(s.threads[t], at, spin)
    && if s.threads[t].phase.LoadSeq? then Odd(s.slots[at].gen) else Word(s.slots[at].gen) != s.threads[t].phase.seen
  }

  lemma SwapStep(s: State, s': State, t: nat, job: Job)
    requires ActStep(s, s', t) && Works(s.threads[t], job) && s'.threads[t].Writing? && s'.threads[t].phase.SwapSeq?
    ensures var th, th' := s.threads[t], s'.threads[t];
            && Spins(th, th'.at, th'.phase.spin) && th.phase.LoadSeq? && th.at < CAPACITY
            && th'.phase.seen == Word(s.slots[th.at].gen)
  {
  }

  lemma SpinStep(s: State, s': State, t: nat, job: Job, at: nat, spin: nat)
    requires ActStep(s, s', t) && Works(s.threads[t], job) && Spins(s'.threads[t], at, spin) && spin > 0
    ensures Spins(s.threads[t], at, spin) || SpinFailing(s, t, at, spin - 1)
  {
    WordParity(s.slots[Focus(s.threads[t])].gen);
  }

  /** What the load of an attempt under way saw. */
  ghost predicate SpinLoadedAt(run: seq<State>, t: nat, m: nat, at: nat, spin: nat, seen: nat) {
    && at < CAPACITY && ActsAt(run, t, m) && Spins(run[m].threads[t], at, spin) && run[m].threads[t].phase.LoadSeq?
    && Word(SlotIn(run[m], at).gen) == seen
  }

  lemma {:induction false} WasSpinLoaded(run: seq<State>, t: nat, a: nat, b: nat, job: Job) returns (m: nat)
    requires WriteSpan(run, t, a, b, job) && run[b].threads[t].Writing? && run[b].threads[t].phase.SwapSeq?
    ensures var th := run[b].threads[t];
            a <= m < b && SpinLoadedAt(run, t, m, th.at, th.phase.spin, th.phase.seen)
    decreases b
  {
    if run[b - 1].threads[t] == run[b].threads[t] {
      m := WasSpinLoaded(run, t, a, b - 1, job);
    } else {
      LastMove(run, t, a, b, job);
      SwapStep(run[b - 1], run[b], t, job);
      m := b - 1;
    }
  }

  lemma SpinFailingFails(run: seq<State>, t: nat, a: nat, n: nat, job: Job, at: nat, spin: nat)
    requires WriteSpan(run, t, a, n, job) && ActsAt(run, t, n) && SpinFailing(run[n], t, at, spin)
    ensures SpinFailedWithin(run, t, a, n + 1, at, spin)
  {
    if run[n].threads[t].phase.LoadSeq? {
      assert SpinFailedBy(run, t, n, n, at, spin);
    } else {
      var m := WasSpinLoaded(run, t, a, n, job);
      assert SpinFailedBy(run, t, m, n, at, spin);
    }
  }

  lemma SpinFailedLonger(run: seq<State>, t: nat, a: nat, b: nat, b': nat, at: nat, spin: nat)
    requires SpinFailedWithin(run, t, a, b, at, spin) && b <= b'
    ensures SpinFailedWithin(run, t, a, b', at, spin)
  {
  }

  lemma NewSpin(run: seq<State>, t: nat, a: nat, b: nat, job: Job, at: nat, spin: nat)
    requires WriteSpan(run, t, a, b, job) && a < b && spin > 0
    requires Spins(run[b].threads[t], at, spin) && !Spins(run[b - 1].threads[t], at, spin)
    ensures WriteSpan(run, t, a, b - 1, job) && Spins(run[b - 1].threads[t], at, spin - 1)
    ensures SpinFailedWithin(run, t, a, b, at, spin - 1)
  {
    LastMove(run, t, a, b, job);
    SpinStep(run[b - 1], run[b], t, job, at, spin);
    SpinFailingFails(run, t, a, b - 1, job, at, spin - 1);
  }

  lemma {:induction false} EarlierSpinsFailed(run: seq<State>, t: nat, a: nat, b: nat, job: Job, at: nat, spin: nat, j: nat)
    requires WriteSpan(run, t, a, b, job) && Spins(run[b].threads[t], at, spin) && j < spin
    ensures SpinFailedWithin(run, t, a, b, at, j)
    decreases b
  {
    if Spins(run[b - 1].threads[t], at, spin) {
      EarlierSpinsFailed(run, t, a, b - 1, job, at, spin, j);
      SpinFailedLonger(run, t, a, b - 1, b, at, j);
    } else {
      NewSpin(run, t, a, b, job, at, spin);
      if j < spin - 1 {
        EarlierSpinsFailed(run, t, a, b - 1, job, at, spin - 1, j);
        SpinFailedLonger(run, t, a, b - 1, b, at, j);
      }
    }
  }

  /** Each of sixty-four attempts to lock the slot was disturbed. */
  ghost predicate HeldThroughout(run: seq<State>, t: nat, a: nat, b: nat, at: nat) {
    forall spin: nat :: spin < 64 ==> SpinFailedWithin(run, t, a, b, at, spin)
  }

  lemma LastSpinHeld(run: seq<State>, t: nat, a: nat, b: nat, job: Job, at: nat)
    requires 0 < b && WriteSpan(run, t, a, b - 1, job) && ActsAt(run, t, b - 1) && SpinFailing(run[b - 1], t, at, 63)
    ensures HeldThroughout(run, t, a, b, at)
  {
    SpinFailingFails(run, t, a, b - 1, job, at, 63);
    forall spin: nat | spin < 64 ensures SpinFailedWithin(run, t, a, b, at, spin) {
      if spin < 63 {
        EarlierSpinsFailed(run, t, a, b - 1, job, at, 63, spin);
        SpinFailedLonger(run, t, a, b - 1, b, at, spin);
      }
    }
  }

  // ----- Refusal: the window is full -----

  /** At the step from state `m` thread `t` saw that the slot of that probe does not store its key. */
  ghost predicate ForeignAt(run: seq<State>, t: nat, m: nat, job: Job, probe: nat) {
    && job.Publish? && ActsAt(run, t, m) && run[m].threads[t] == FindKey(job, probe)
    && SlotIn(run[m], SlotAt(job.key, probe)).cells.hash != job.key
  }

  /** At the step from `m` it saw that the slot is not empty, and at the one from `n` that what it holds has not
      expired. */
  ghost predicate TakenAt(run: seq<State>, t: nat, m: nat, n: nat, job: Job, probe: nat) {
    && job.Publish? && ActsAt(run, t, m) && run[m].threads[t] == FindFree(job, probe)
    && SlotIn(run[m], SlotAt(job.key, probe)).cells.hash != 0
    && ActsAt(run, t, n) && run[n].threads[t].FindExpired? && run[n].threads[t].job == job && run[n].threads[t].probe == probe
    && SlotIn(run[n], SlotAt(job.key, probe)).cells.expires > job.now
  }

  ghost predicate ForeignWithin(run: seq<State>, t: nat, a: nat, b: nat, job: Job, probe: nat) {
    exists m: nat :: a <= m < b && ForeignAt(run, t, m, job, probe)
  }

  ghost predicate TakenWithin(run: seq<State>, t: nat, a: nat, b: nat, job: Job, probe: nat) {
    exists m: nat, n: nat :: a <= m < n < b && TakenAt(run, t, m, n, job, probe)
  }

  predicate PastKey(th: Thread, probe: nat) {
    match th
    case FindKey(_, p) => probe < p
    case FindFree(_, _) => probe < PROBE_LIMIT
    case FindExpired(_, _, _) => probe < PROBE_LIMIT
    case _ => false
  }

  predicate PastFree(th: Thread, probe: nat) {
    (th.FindFree? || th.FindExpired?) && probe < th.probe
  }

  lemma {:induction false} PastKeyWasForeign(run: seq<State>, t: nat, a: nat, b: nat, job: Job, probe: nat)
    requires WriteSpan(run, t, a, b, job) && PastKey(run[b].threads[t], probe)
    ensures ForeignWithin(run, t, a, b, job, probe)
    decreases b
  {
    if PastKey(run[b - 1].threads[t], probe) {
      PastKeyWasForeign(run, t, a, b - 1, job, probe);
    } else {
      LastMove(run, t, a, b, job);
      assert ForeignAt(run, t, b - 1, job, probe);
    }
  }

  /** Where the key being weighed was loaded. */
  lemma {:induction false} WasWeighed(run: seq<State>, t: nat, a: nat, b: nat, job: Job) returns (m: nat)
    requires WriteSpan(run, t, a, b, job) && run[b].threads[t].FindExpired?
    ensures var th := run[b].threads[t];
            && job.Publish? && a <= m < b && ActsAt(run, t, m) && run[m].threads[t] == FindFree(job, th.probe)
            && SlotIn(run[m], SlotAt(job.key, th.probe)).cells.hash == th.existing
    decreases b
  {
    if run[b - 1].threads[t] == run[b].threads[t] {
      m := WasWeighed(run, t, a, b - 1, job);
    } else {
      LastMove(run, t, a, b, job);
      m := b - 1;
    }
  }

  /** The step from `n` finds a slot taken. */
  lemma WeighedIsTaken(run: seq<State>, t: nat, a: nat, n: nat, job: Job)
    requires WriteSpan(run, t, a, n, job) && ActsAt(run, t, n) && run[n].threads[t].FindExpired?
    requires var th := run[n].threads[t];
             job.Publish? && th.job == job && th.existing != 0 && SlotIn(run[n], SlotAt(job.key, th.probe)).cells.expires > job.now
    ensures TakenWithin(run, t, a, n + 1, job, run[n].threads[t].probe)
  {
    var m := WasWeighed(run, t, a, n, job);
    assert TakenAt(run, t, m, n, job, run[n].threads[t].probe);
  }

  lemma {:induction false} PastFreeWasTaken(run: seq<State>, t: nat, a: nat, b: nat, job: Job, probe: nat)
    requires WriteSpan(run, t, a, b, job) && PastFree(run[b].threads[t], probe)
    ensures TakenWithin(run, t, a, b, job, probe)
    decreases b
  {
    if PastFree(run[b - 1].threads[t], probe) {
      PastFreeWasTaken(run, t, a, b - 1, job, probe);
    } else {
      LastMove(run, t, a, b, job);
      WeighedIsTaken(run, t, a, b - 1, job);
    }
  }

  /** Every slot of the window was seen to store another key, and then to hold something that had not expired. */
  ghost predicate WindowFull(run: seq<State>, t: nat, a: nat, b: nat, job: Job) {
    forall probe: nat :: probe < 4 ==> ForeignWithin(run, t, a, b, job, probe) && TakenWithin(run, t, a, b, job, probe)
  }

  /** The writer's next step finds the last slot of its window taken. */
  ghost predicate FindsFull(s: State, t: nat, job: Job) {
    && |s.slots| == CAPACITY && t in s.threads && s.threads[t].FindExpired?
    && job.Publish? && s.threads[t].job == job && s.threads[t].probe == 3 && s.threads[t].existing != 0
    && SlotIn(s, SlotAt(job.key, 3)).cells.expires > job.now
  }

  lemma LastProbeFull(run: seq<State>, t: nat, a: nat, b: nat, job: Job)
    requires 0 < b && WriteSpan(run, t, a, b - 1, job) && ActsAt(run, t, b - 1) && FindsFull(run[b - 1], t, job)
    ensures WindowFull(run, t, a, b, job)
  {
    WeighedIsTaken(run, t, a, b - 1, job);
    forall probe: nat | probe < 4
      ensures ForeignWithin(run, t, a, b, job, probe) && TakenWithin(run, t, a, b, job, probe)
    {
      PastKeyWasForeign(run, t, a, b - 1, job, probe);
      if probe < 3 {
        PastFreeWasTaken(run, t, a, b - 1, job, probe);
      }
    }
  }

  // ----- Refusal -----

  /** The step from `m` gives up a slot that thread `t` holds: it stores another key's rule that has not expired. */
  ghost predicate LostAt(run: seq<State>, t: nat, m: nat, job: Job) {
    && job.Publish? && ActsAt(run, t, m) && run[m].threads[t].Writing? && run[m].threads[t].at < CAPACITY
    && Owns(run[m].threads[t], run[m].threads[t].at)
    && var rule := SlotIn(run[m], run[m].threads[t].at).committed;
       rule.hash != 0 && rule.hash != job.key && rule.expires > job.now
  }

  /** Why an operation may fail. */
  ghost predicate RefusalEarned(run: seq<State>, t: nat, a: nat, b: nat, job: Job) {
    || WindowFull(run, t, a, b, job)
    || (exists at: nat :: HeldThroughout(run, t, a, b, at))
    || (exists m: nat :: a <= m < b && LostAt(run, t, m, job))
  }

  /** What the last step of a failing operation is. */
  lemma RefusingStep(s: State, s': State, t: nat, job: Job)
    requires ActStep(s, s', t) && Works(s.threads[t], job) && s'.threads[t] == WriteDone(job, false)
    ensures var th := s.threads[t];
            || FindsFull(s, t, job)
            || (th.Writing? && th.at < CAPACITY && SpinFailing(s, t, th.at, 63))
            || (job.Publish? && th.Writing? && th.phase == Abandon)
  {
    WordParity(s.slots[Focus(s.threads[t])].gen);
  }

  /** A publisher abandons only a slot that it found taken under its lock. */
  lemma AbandonStep(s: State, s': State, t: nat, job: Job)
    requires Inv(s) && ActStep(s, s', t) && Works(s.threads[t], job)
    requires s'.threads[t].Writing? && s'.threads[t].phase == Abandon
    ensures var th := s.threads[t];
            && th.Writing? && th.at == s'.threads[t].at && th.phase.CheckExpires? && th.at < CAPACITY && job.Publish?
            && !Claimable(SlotIn(s, th.at).committed, job.key, job.now)
  {
    assert ThreadOk(s.threads[t], FocusSlot(s, s.threads[t]), s.clock, s.log);
  }

  /** Where a publisher that is about to abandon its slot found it taken. */
  lemma {:induction false} WasLost(run: seq<State>, t: nat, a: nat, b: nat, job: Job) returns (m: nat)
    requires WriteSpan(run, t, a, b, job) && run[b].threads[t].Writing? && run[b].threads[t].phase == Abandon
    ensures a <= m < b && LostAt(run, t, m, job)
    decreases b
  {
    if run[b - 1].threads[t] == run[b].threads[t] {
      m := WasLost(run, t, a, b - 1, job);
    } else {
      LastMove(run, t, a, b, job);
      RunKeepsInv(run, b - 1);
      AbandonStep(run[b - 1], run[b], t, job);
      m := b - 1;
    }
  }

  /** A publish or clear that reports failure has a reason: its window was full, its slot stayed held through 64 attempts,
      or under the lock the slot turned out to be taken. */
  lemma RefusalIsEarned(run: seq<State>, t: nat, a: nat, b: nat, job: Job)
    requires WriteSpan(run, t, a, b, job) && run[b].threads[t] == WriteDone(job, false)
    ensures RefusalEarned(run, t, a, b, job)
  {
    LastMove(run, t, a, b, job);
    RefusingStep(run[b - 1], run[b], t, job);
    var th := run[b - 1].threads[t];
    if FindsFull(run[b - 1], t, job) {
      LastProbeFull(run, t, a, b, job);
    } else if th.phase == Abandon {
      var m := WasLost(run, t, a, b - 1, job);
    } else {
      LastSpinHeld(run, t, a, b, job, th.at);
    }
  }
}
