/** When a lookup may give up: CONTENDED is earned, and a lookup that nobody disturbs is decided. */
module SeqlockContention {
  import opened RuleSlots
  import opened SeqlockMachine
  import opened SeqlockInvariant
  import opened SeqlockSafety
  import opened SeqlockLookup

  /** The thread is on that attempt at that probe. */
  predicate On(th: Thread, probe: nat, attempt: nat) {
    (th.ReadSeq? || th.ReadCells?) && th.probe == probe && th.attempt == attempt
  }

  /** The lookup has given up on a probe. */
  predicate Marked(th: Thread) {
    match th
    case ReadSeq(_, _, _, _, contended) => contended
    case ReadCells(_, _, _, _, contended, _, _, _) => contended
    case ReadDone(_, _, result) => result == Contended
    case _ => false
  }

  function GenAt(s: State, key: nat, probe: nat): (gen: nat)
    requires |s.slots| == CAPACITY
  {
    s.slots[SlotAt(key, probe)].gen
  }

  /** The first load of that attempt is the step from state `m` of the run. */
  ghost predicate FirstLoad(run: seq<State>, t: nat, m: nat, key: nat, probe: nat, attempt: nat) {
    && m + 1 < |run| && |run[m].slots| == CAPACITY && ActStep(run[m], run[m + 1], t)
    && run[m].threads[t].ReadSeq? && run[m].threads[t].key == key && On(run[m].threads[t], probe, attempt)
  }

  /** The second load of that attempt is the step from state `m`. */
  ghost predicate SecondLoad(run: seq<State>, t: nat, m: nat, key: nat, probe: nat, attempt: nat) {
    && m + 1 < |run| && |run[m].slots| == CAPACITY && ActStep(run[m], run[m + 1], t)
    && run[m].threads[t].ReadCells? && run[m].threads[t].key == key && On(run[m].threads[t], probe, attempt)
    && run[m].threads[t].k == FIELDS
  }

  /** The attempt failed between the loads at `m` and `n`: the slot was held by a writer at one of them, or its sequence
      moved in between. A slot that is held at the first load is not loaded again. */
  ghost predicate FailedBy(run: seq<State>, t: nat, m: nat, n: nat, key: nat, probe: nat, attempt: nat) {
    && FirstLoad(run, t, m, key, probe, attempt)
    && (|| (m == n && Odd(GenAt(run[m], key, probe)))
        || (&& m < n && SecondLoad(run, t, n, key, probe, attempt)
            && (Odd(GenAt(run[n], key, probe)) || GenAt(run[n], key, probe) != GenAt(run[m], key, probe))))
  }

  ghost predicate FailedWithin(run: seq<State>, t: nat, a: nat, b: nat, key: nat, probe: nat, attempt: nat) {
    exists m: nat, n: nat :: a <= m <= n < b && FailedBy(run, t, m, n, key, probe, attempt)
  }

  // ----- Single steps -----

  /** The step of thread `t` from `s` fails that attempt. */
  ghost predicate Failing(s: State, t: nat, key: nat, probe: nat, attempt: nat) {
    && |s.slots| == CAPACITY && t in s.threads
    && var th, gen := s.threads[t], GenAt(s, key, probe);
       && On(th, probe, attempt) && th.key == key
       && if th.ReadSeq? then Odd(gen) else th.k == FIELDS && (Odd(gen) || gen != th.before)
  }

  /** Where the cells being read come from. */
  lemma CellsStep(s: State, s': State, t: nat, key: nat, now: nat)
    requires ActStep(s, s', t) && Reads(s.threads[t], key, now) && s'.threads[t].ReadCells?
    ensures var th, th' := s.threads[t], s'.threads[t];
            && On(th, th'.probe, th'.attempt)
            && th'.before == if th.ReadCells? then th.before else GenAt(s, key, th'.probe)
  {
  }

  /** A new attempt begins with a new probe or because the one before failed. */
  lemma AttemptStep(s: State, s': State, t: nat, key: nat, now: nat, probe: nat, attempt: nat)
    requires ActStep(s, s', t) && Reads(s.threads[t], key, now) && On(s'.threads[t], probe, attempt) && attempt > 0
    ensures On(s.threads[t], probe, attempt) || Failing(s, t, key, probe, attempt - 1)
  {
    WordParity(s.slots[Focus(s.threads[t])].gen);
  }

  /** A probe is given up because its last attempt failed. */
  lemma MarkStep(s: State, s': State, t: nat, key: nat, now: nat)
    requires ActStep(s, s', t) && Reads(s.threads[t], key, now) && Marked(s'.threads[t]) && !Marked(s.threads[t])
    ensures s.threads[t].ReadSeq? || s.threads[t].ReadCells?
    ensures s.threads[t].probe < PROBE_LIMIT && Failing(s, t, key, s.threads[t].probe, RETRY_LIMIT - 1)
  {
    WordParity(s.slots[Focus(s.threads[t])].gen);
  }

  // ----- Whole lookups -----

  /** A lookup that moved in the last step of a span did so by its own step. */
  lemma LastMove(run: seq<State>, t: nat, a: nat, b: nat, key: nat, now: nat)
    requires LookupSpan(run, t, a, b, key, now) && a < b && run[b].threads[t] != run[b - 1].threads[t]
    ensures LookupSpan(run, t, a, b - 1, key, now)
    ensures ActStep(run[b - 1], run[b], t) && Reads(run[b - 1].threads[t], key, now)
  {
    LastStep(run, t, a, b, key, now);
    SpanReads(run, t, a, b - 1, key, now);
  }

  /** What the first load of an attempt under way saw. */
  ghost predicate LoadedAt(run: seq<State>, t: nat, m: nat, key: nat, probe: nat, attempt: nat, before: nat) {
    FirstLoad(run, t, m, key, probe, attempt) && GenAt(run[m], key, probe) == before
  }

  lemma LastLoad(run: seq<State>, t: nat, a: nat, b: nat, key: nat, now: nat)
    requires LookupSpan(run, t, a, b, key, now) && a < b && run[b].threads[t].ReadCells? && !run[b - 1].threads[t].ReadCells?
    ensures var th := run[b].threads[t]; LoadedAt(run, t, b - 1, key, th.probe, th.attempt, th.before)
  {
    LastMove(run, t, a, b, key, now);
    CellsStep(run[b - 1], run[b], t, key, now);
  }

  lemma StillLoaded(run: seq<State>, t: nat, a: nat, b: nat, key: nat, now: nat)
    requires LookupSpan(run, t, a, b, key, now) && a < b && run[b].threads[t].ReadCells? && run[b - 1].threads[t].ReadCells?
    ensures var th, th' := run[b - 1].threads[t], run[b].threads[t];
            On(th, th'.probe, th'.attempt) && th'.before == th.before
  {
    if run[b].threads[t] != run[b - 1].threads[t] {
      LastMove(run, t, a, b, key, now);
      CellsStep(run[b - 1], run[b], t, key, now);
    }
  }

  lemma {:induction false} WasLoaded(run: seq<State>, t: nat, a: nat, b: nat, key: nat, now: nat) returns (m: nat)
    requires LookupSpan(run, t, a, b, key, now) && run[b].threads[t].ReadCells?
    ensures var th := run[b].threads[t];
            a <= m < b && LoadedAt(run, t, m, key, th.probe, th.attempt, th.before)
    decreases b
  {
    if run[b - 1].threads[t].ReadCells? {
      StillLoaded(run, t, a, b, key, now);
      m := WasLoaded(run, t, a, b - 1, key, now);
    } else {
      LastLoad(run, t, a, b, key, now);
      m := b - 1;
    }
  }

  /** A failing step fails its attempt between its two loads. */
  lemma FailingFails(run: seq<State>, t: nat, a: nat, n: nat, key: nat, now: nat, probe: nat, attempt: nat)
    requires LookupSpan(run, t, a, n, key, now) && n + 1 < |run| && ActStep(run[n], run[n + 1], t)
    requires Failing(run[n], t, key, probe, attempt)
    ensures FailedWithin(run, t, a, n + 1, key, probe, attempt)
  {
    if run[n].threads[t].ReadSeq? {
      assert FailedBy(run, t, n, n, key, probe, attempt);
    } else {
      var m := WasLoaded(run, t, a, n, key, now);
      assert FailedBy(run, t, m, n, key, probe, attempt);
    }
  }

  lemma FailedLonger(run: seq<State>, t: nat, a: nat, b: nat, b': nat, key: nat, probe: nat, attempt: nat)
    requires FailedWithin(run, t, a, b, key, probe, attempt) && b <= b'
    ensures FailedWithin(run, t, a, b', key, probe, attempt)
  {
  }

  lemma NewAttempt(run: seq<State>, t: nat, a: nat, b: nat, key: nat, now: nat, probe: nat, attempt: nat)
    requires LookupSpan(run, t, a, b, key, now) && a < b && attempt > 0
    requires On(run[b].threads[t], probe, attempt) && !On(run[b - 1].threads[t], probe, attempt)
    ensures On(run[b - 1].threads[t], probe, attempt - 1) && FailedWithin(run, t, a, b, key, probe, attempt - 1)
  {
    LastMove(run, t, a, b, key, now);
    AttemptStep(run[b - 1], run[b], t, key, now, probe, attempt);
    FailingFails(run, t, a, b - 1, key, now, probe, attempt - 1);
  }

  /** All attempts before the one the lookup is on have failed. */
  lemma {:induction false} EarlierFailed(run: seq<State>, t: nat, a: nat, b: nat, key: nat, now: nat, probe: nat, attempt: nat, j: nat)
    requires LookupSpan(run, t, a, b, key, now) && On(run[b].threads[t], probe, attempt) && j < attempt
    ensures FailedWithin(run, t, a, b, key, probe, j)
    decreases b
  {
    if On(run[b - 1].threads[t], probe, attempt) {
      EarlierFailed(run, t, a, b - 1, key, now, probe, attempt, j);
      FailedLonger(run, t, a, b - 1, b, key, probe, j);
    } else {
      NewAttempt(run, t, a, b, key, now, probe, attempt);
      if j < attempt - 1 {
        EarlierFailed(run, t, a, b - 1, key, now, probe, attempt - 1, j);
        FailedLonger(run, t, a, b - 1, b, key, probe, j);
      }
    }
  }

  /** Sixty-four attempts at one probe, each of them disturbed. */
  ghost predicate Exhausted(run: seq<State>, t: nat, a: nat, b: nat, key: nat, probe: nat) {
    forall attempt: nat :: attempt < 64 ==> FailedWithin(run, t, a, b, key, probe, attempt)
  }

  /** The step that gives a probe up fails its last attempt. */
  lemma LastAttempt(run: seq<State>, t: nat, a: nat, b: nat, key: nat, now: nat) returns (probe: nat)
    requires LookupSpan(run, t, a, b, key, now) && a < b && Marked(run[b].threads[t]) && !Marked(run[b - 1].threads[t])
    ensures LookupSpan(run, t, a, b - 1, key, now) && probe < 4 && On(run[b - 1].threads[t], probe, 63)
    ensures FailedWithin(run, t, a, b, key, probe, 63)
  {
    LastMove(run, t, a, b, key, now);
    MarkStep(run[b - 1], run[b], t, key, now);
    probe := run[b - 1].threads[t].probe;
    FailingFails(run, t, a, b - 1, key, now, probe, 63);
  }

  lemma MarkingExhausts(run: seq<State>, t: nat, a: nat, b: nat, key: nat, now: nat) returns (probe: nat)
    requires LookupSpan(run, t, a, b, key, now) && a < b && Marked(run[b].threads[t]) && !Marked(run[b - 1].threads[t])
    ensures probe < 4 && Exhausted(run, t, a, b, key, probe)
  {
    probe := LastAttempt(run, t, a, b, key, now);
    forall attempt: nat | attempt < 64 ensures FailedWithin(run, t, a, b, key, probe, attempt) {
      if attempt < 63 {
        EarlierFailed(run, t, a, b - 1, key, now, probe, 63, attempt);
        FailedLonger(run, t, a, b - 1, b, key, probe, attempt);
      }
    }
  }

  lemma {:induction false} MarkedIsExhausted(run: seq<State>, t: nat, a: nat, b: nat, key: nat, now: nat) returns (probe: nat)
    requires LookupSpan(run, t, a, b, key, now) && Marked(run[b].threads[t])
    ensures probe < 4 && Exhausted(run, t, a, b, key, probe)
    decreases b
  {
    if Marked(run[b - 1].threads[t]) {
      probe := MarkedIsExhausted(run, t, a, b - 1, key, now);
      forall attempt: nat | attempt < 64 ensures FailedWithin(run, t, a, b, key, probe, attempt) {
        FailedLonger(run, t, a, b - 1, b, key, probe, attempt);
      }
    } else {
      probe := MarkingExhausts(run, t, a, b, key, now);
    }
  }

  /** CONTENDED is earned: one of the four slots was held by a writer, or moved on, during each of 64 attempts to read it. */
  lemma ContendedIsEarned(run: seq<State>, t: nat, a: nat, b: nat, key: nat, now: nat) returns (probe: nat)
    requires LookupSpan(run, t, a, b, key, now) && run[b].threads[t] == ReadDone(key, now, Contended)
    ensures probe < 4 && Exhausted(run, t, a, b, key, probe)
  {
    probe := MarkedIsExhausted(run, t, a, b, key, now);
  }

  /** None of the four slots is held or changed. */
  ghost predicate Undisturbed(run: seq<State>, a: nat, b: nat, key: nat)
    requires a <= b < |run| && forall m :: a <= m <= b ==> |run[m].slots| == CAPACITY
  {
    forall m, probe: nat :: a <= m <= b && probe < 4 ==> SameSlot(run, a, m, key, probe)
  }

  ghost predicate SameSlot(run: seq<State>, a: nat, m: nat, key: nat, probe: nat)
    requires a < |run| && m < |run| && |run[a].slots| == |run[m].slots| == CAPACITY
  {
    run[m].slots[SlotAt(key, probe)] == run[a].slots[SlotAt(key, probe)] && !Odd(run[a].slots[SlotAt(key, probe)].gen)
  }

  /** One of the four slots holds a live rule for the key. */
  ghost predicate Holds(s: State, key: nat, now: nat)
    requires |s.slots| == CAPACITY
  {
    exists probe: nat :: probe < 4 && Live(s.slots[SlotAt(key, probe)].cells, key, now)
  }

  /** A failed attempt was disturbed. */
  lemma FailureDisturbs(run: seq<State>, t: nat, a: nat, m: nat, n: nat, key: nat, probe: nat, attempt: nat)
    requires a <= m <= n < |run| && |run[a].slots| == |run[m].slots| == |run[n].slots| == CAPACITY
    requires FailedBy(run, t, m, n, key, probe, attempt)
    ensures !SameSlot(run, a, m, key, probe) || !SameSlot(run, a, n, key, probe)
  {
  }

  lemma UndisturbedIsNotContended(run: seq<State>, t: nat, a: nat, b: nat, key: nat, now: nat)
    requires LookupSpan(run, t, a, b, key, now) && Undisturbed(run, a, b, key)
    ensures run[b].threads[t] != ReadDone(key, now, Contended)
  {
    if run[b].threads[t] == ReadDone(key, now, Contended) {
      var probe := ContendedIsEarned(run, t, a, b, key, now);
      assert FailedWithin(run, t, a, b, key, probe, 0);
      var m: nat, n: nat :| a <= m <= n < b && FailedBy(run, t, m, n, key, probe, 0);
      FailureDisturbs(run, t, a, m, n, key, probe, 0);
    }
  }

  lemma MissHoldsNone(run: seq<State>, t: nat, a: nat, b: nat, key: nat, now: nat)
    requires LookupSpan(run, t, a, b, key, now) && Undisturbed(run, a, b, key) && run[b].threads[t] == ReadDone(key, now, Miss)
    ensures !Holds(run[a], key, now)
  {
    MissIsJustified(run, t, a, b, key, now);
    forall probe: nat | probe < 4 ensures !Live(run[a].slots[SlotAt(key, probe)].cells, key, now) {
      assert AbsentWithin(run, t, a, b, key, now, probe);
      var m: nat :| a <= m < b && AbsentAt(run, t, m, key, now, probe);
      assert SameSlot(run, a, m, key, probe);
    }
  }

  lemma FoundHoldsIt(run: seq<State>, t: nat, a: nat, b: nat, key: nat, now: nat)
    requires LookupSpan(run, t, a, b, key, now) && Undisturbed(run, a, b, key)
    requires run[b].threads[t].ReadDone? && run[b].threads[t].result.Found?
    ensures Holds(run[a], key, now)
  {
    var m, probe := FoundWasCommitted(run, t, a, b, key, now);
    SpanReads(run, t, a, b, key, now);
    RunKeepsInv(run, b);
    assert ThreadOk(run[b].threads[t], FocusSlot(run[b], run[b].threads[t]), run[b].clock, run[b].log);
    assert SameSlot(run, a, m, key, probe);
  }

  /** A lookup whose four slots nobody holds or changes is decided: FOUND if one of them holds a live rule for the key, else
      MISS. */
  lemma UndisturbedIsDecided(run: seq<State>, t: nat, a: nat, b: nat, key: nat, now: nat)
    requires LookupSpan(run, t, a, b, key, now) && Undisturbed(run, a, b, key) && run[b].threads[t].ReadDone?
    ensures run[b].threads[t].result.Found? <==> Holds(run[a], key, now)
    ensures run[b].threads[t].result == Miss <==> !Holds(run[a], key, now)
  {
    SpanReads(run, t, a, b, key, now);
    NotInvalid(run, t, a, b, key, now);
    UndisturbedIsNotContended(run, t, a, b, key, now);
    if run[b].threads[t].result == Miss {
      MissHoldsNone(run, t, a, b, key, now);
    } else {
      FoundHoldsIt(run, t, a, b, key, now);
    }
  }
}
