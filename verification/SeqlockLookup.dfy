/** What a whole lookup may report, whatever publishers and clearers do meanwhile. */
module SeqlockLookup {
  import opened RuleSlots
  import opened SeqlockMachine
  import opened SeqlockInvariant
  import opened SeqlockSafety

  /** Thread `t` begins a lookup in state `a` and has been inside it up to state `b`. */
  ghost predicate LookupSpan(run: seq<State>, t: nat, a: nat, b: nat, key: nat, now: nat) {
    && Run(run) && Init(run[0]) && a <= b < |run|
    && (forall m :: a <= m <= b ==> t in run[m].threads && |run[m].slots| == CAPACITY)
    && key != 0 && run[a].threads[t] == ReadSeq(key, now, 0, 0, false)
    && (forall m :: a <= m < b ==> Running(run[m].threads[t]))
  }

  /** The thread is in (or has just finished) a lookup of `key` at clock `now`. */
  predicate Reads(th: Thread, key: nat, now: nat) {
    (th.ReadSeq? || th.ReadCells? || th.ReadDone?) && th.key == key && th.now == now
  }

  /** Probes already left behind without contention. */
  predicate Passed(th: Thread, probe: nat) {
    match th
    case ReadSeq(_, _, p, _, contended) => probe < p && !contended
    case ReadCells(_, _, p, _, contended, _, _, _) => probe < p && !contended
    case ReadDone(_, _, Miss) => probe < PROBE_LIMIT
    case _ => false
  }

  /** A running thread moves only by its own step. */
  lemma MovesByActing(s: State, s': State, t: nat)
    requires Next(s, s') && t in s.threads && Running(s.threads[t])
    ensures t in s'.threads && (s'.threads[t] == s.threads[t] || ActStep(s, s', t))
  {
  }

  /** A read that validates found the slot stable throughout: it holds the slot's cells of that moment, which are
      also what was last committed. */
  lemma ValidatedRead(th: Thread, slot: Slot, clock: nat, log: set<Record>)
    requires th.ReadCells? && th.k == FIELDS && ThreadOk(th, slot, clock, log) && SlotOk(slot) && ShortWindow(th, slot)
    requires Word(th.before) == Word(slot.gen) && !Odd(Word(slot.gen))
    ensures !Odd(slot.gen) && th.before == slot.gen && th.got == slot.cells == slot.committed
  {
    WordParity(slot.gen);
    WordInjective(th.before, slot.gen);
    FullAgreement(th.got, slot.cells, READ_ORDER);
  }

  /** Thread `t` is about to validate its read of probe number `probe`, and the read is coherent: the slot is
      stable and has been since the first load, and every field was loaded as it stands. */
  ghost predicate CoherentRead(s: State, t: nat, key: nat, now: nat, probe: nat) {
    && |s.slots| == CAPACITY && t in s.threads && probe < PROBE_LIMIT
    && var th, slot := s.threads[t], s.slots[SlotAt(key, probe)];
       && th.ReadCells? && th.key == key && th.now == now && th.probe == probe && th.k == FIELDS
       && !Odd(slot.gen) && th.before == slot.gen && th.got == slot.cells
  }

  /** The slot of that probe is stable and holds no live rule for the key. */
  ghost predicate StablyAbsent(s: State, key: nat, now: nat, probe: nat) {
    && |s.slots| == CAPACITY
    && var slot := s.slots[SlotAt(key, probe)];
       !Odd(slot.gen) && !Live(slot.cells, key, now)
  }

  /** A step of a lookup that leaves a probe behind without contention validates a coherent read of a slot without
      a live rule for the key. */
  lemma PassingStep(s: State, s': State, t: nat, key: nat, now: nat, probe: nat)
    requires Inv(s) && ActStep(s, s', t) && Reads(s.threads[t], key, now)
    ensures Reads(s'.threads[t], key, now)
    ensures Passed(s'.threads[t], probe) && !Passed(s.threads[t], probe) ==>
              CoherentRead(s, t, key, now, probe) && StablyAbsent(s, key, now, probe)
  {
    var th := s.threads[t];
    assert ThreadOk(th, FocusSlot(s, th), s.clock, s.log) && SlotOk(s.slots[Focus(th)]);
    if th.ReadCells? && th.k == FIELDS && Word(th.before) == Word(FocusSlot(s, th).gen) && !Odd(Word(FocusSlot(s, th).gen)) {
      ValidatedRead(th, FocusSlot(s, th), s.clock, s.log);
    }
  }

  /** The last step of a span is idle for `t` or an own step of `t`, taken in an invariant state. */
  lemma LastStep(run: seq<State>, t: nat, a: nat, b: nat, key: nat, now: nat)
    requires LookupSpan(run, t, a, b, key, now) && a < b
    ensures LookupSpan(run, t, a, b - 1, key, now)
    ensures Inv(run[b - 1])
    ensures run[b].threads[t] == run[b - 1].threads[t] || ActStep(run[b - 1], run[b], t)
  {
    RunKeepsInv(run, b - 1);
    assert StepAt(run, b - 1);
    MovesByActing(run[b - 1], run[b], t);
  }

  lemma ReadsOn(s: State, s': State, t: nat, key: nat, now: nat)
    requires Next(s, s') && t in s.threads && Running(s.threads[t]) && Reads(s.threads[t], key, now)
    ensures t in s'.threads && Reads(s'.threads[t], key, now)
  {
    MovesByActing(s, s', t);
  }

  lemma {:induction false} SpanReads(run: seq<State>, t: nat, a: nat, b: nat, key: nat, now: nat)
    requires LookupSpan(run, t, a, b, key, now)
    ensures Reads(run[b].threads[t], key, now)
    decreases b
  {
    if a < b {
      SpanReads(run, t, a, b - 1, key, now);
      assert StepAt(run, b - 1);
      ReadsOn(run[b - 1], run[b], t, key, now);
    }
  }

  /** The `m`-th step of the run is thread `t` validating a coherent read of that probe's slot, and the slot is
      stable and holds no live rule for the key. */
  ghost predicate AbsentAt(run: seq<State>, t: nat, m: nat, key: nat, now: nat, probe: nat) {
    && m + 1 < |run| && ActStep(run[m], run[m + 1], t)
    && CoherentRead(run[m], t, key, now, probe) && StablyAbsent(run[m], key, now, probe)
  }

  ghost predicate AbsentWithin(run: seq<State>, t: nat, a: nat, b: nat, key: nat, now: nat, probe: nat) {
    exists m: nat :: a <= m < b && AbsentAt(run, t, m, key, now, probe)
  }

  lemma LastPassing(run: seq<State>, t: nat, a: nat, b: nat, key: nat, now: nat, probe: nat)
    requires LookupSpan(run, t, a, b, key, now) && a < b
    requires Passed(run[b].threads[t], probe) && !Passed(run[b - 1].threads[t], probe)
    ensures AbsentAt(run, t, b - 1, key, now, probe)
  {
    LastStep(run, t, a, b, key, now);
    SpanReads(run, t, a, b - 1, key, now);
    PassingStep(run[b - 1], run[b], t, key, now, probe);
  }

  /** Every probe left behind without contention was read coherently at a step of the lookup at which its slot was
      stable and held no live rule for the key. */
  lemma {:induction false} PassedWasAbsent(run: seq<State>, t: nat, a: nat, b: nat, key: nat, now: nat, probe: nat)
      returns (m: nat)
    requires LookupSpan(run, t, a, b, key, now) && Passed(run[b].threads[t], probe)
    ensures a <= m < b && AbsentAt(run, t, m, key, now, probe)
    decreases b
  {
    assert a < b;
    if Passed(run[b - 1].threads[t], probe) {
      m := PassedWasAbsent(run, t, a, b - 1, key, now, probe);
    } else {
      LastPassing(run, t, a, b, key, now, probe);
      m := b - 1;
    }
  }

  /** MISS is evidence: each of the four slots was read coherently at a step of the lookup at which it was stable
      and held no live rule for the key. */
  lemma MissIsJustified(run: seq<State>, t: nat, a: nat, b: nat, key: nat, now: nat)
    requires LookupSpan(run, t, a, b, key, now) && run[b].threads[t] == ReadDone(key, now, Miss)
    ensures forall probe: nat :: probe < PROBE_LIMIT ==> AbsentWithin(run, t, a, b, key, now, probe)
  {
    forall probe: nat | probe < PROBE_LIMIT
      ensures AbsentWithin(run, t, a, b, key, now, probe)
    {
      var m := PassedWasAbsent(run, t, a, b, key, now, probe);
    }
  }

  /** A key whose slot holds a live rule for it at every stable point of the lookup is FOUND or CONTENDED, also if a
      writer holds the slot when the lookup starts. */
  lemma LiveRuleIsNeverMissed(run: seq<State>, t: nat, a: nat, b: nat, key: nat, now: nat, probe: nat)
    requires LookupSpan(run, t, a, b, key, now) && run[b].threads[t].ReadDone? && probe < PROBE_LIMIT
    requires forall m :: a <= m < b && !Odd(run[m].slots[SlotAt(key, probe)].gen) ==>
               Live(run[m].slots[SlotAt(key, probe)].cells, key, now)
    ensures run[b].threads[t].result.Found? || run[b].threads[t].result == Contended
  {
    SpanReads(run, t, a, b, key, now);
    if run[b].threads[t].result == Miss {
      var m := PassedWasAbsent(run, t, a, b, key, now, probe);
    }
    NotInvalid(run, t, a, b, key, now);
  }

  /** A lookup of a nonzero key is never rejected as invalid. */
  lemma NotInvalid(run: seq<State>, t: nat, a: nat, b: nat, key: nat, now: nat)
    requires LookupSpan(run, t, a, b, key, now) && run[b].threads[t].ReadDone?
    ensures run[b].threads[t].result != Invalid
  {
    assert a < b;
    SpanReads(run, t, a, b - 1, key, now);
    LastStep(run, t, a, b, key, now);
  }

  /** A step that ends a lookup with a rule validates a coherent read of a slot that holds it. */
  lemma FindingStep(s: State, s': State, t: nat, key: nat, now: nat)
    requires Inv(s) && ActStep(s, s', t) && Reads(s.threads[t], key, now)
    requires s'.threads[t].ReadDone? && s'.threads[t].result.Found?
    ensures s.threads[t].ReadCells? && CoherentRead(s, t, key, now, s.threads[t].probe)
    ensures s.slots[SlotAt(key, s.threads[t].probe)].cells == s'.threads[t].result.snapshot
  {
    var th := s.threads[t];
    assert ThreadOk(th, FocusSlot(s, th), s.clock, s.log) && SlotOk(s.slots[Focus(th)]);
    ValidatedRead(th, FocusSlot(s, th), s.clock, s.log);
  }

  /** FOUND takes effect at one step of the lookup: the reported rule is what one stable slot of the window, read
      coherently, holds then. */
  lemma FoundWasCommitted(run: seq<State>, t: nat, a: nat, b: nat, key: nat, now: nat)
      returns (m: nat, probe: nat)
    requires LookupSpan(run, t, a, b, key, now) && run[b].threads[t].ReadDone? && run[b].threads[t].result.Found?
    ensures a <= m < b && CoherentRead(run[m], t, key, now, probe)
    ensures run[m].slots[SlotAt(key, probe)].cells == run[b].threads[t].result.snapshot
  {
    assert a < b;
    SpanReads(run, t, a, b - 1, key, now);
    LastStep(run, t, a, b, key, now);
    FindingStep(run[b - 1], run[b], t, key, now);
    m, probe := b - 1, run[b - 1].threads[t].probe;
  }

  /** The lookup stands before, or on its first attempt at, a probe whose slot nobody touches. */
  predicate Heading(th: Thread, probe: nat, gen: nat) {
    match th
    case ReadSeq(_, _, p, attempt, _) => p < probe || (p == probe && attempt == 0)
    case ReadCells(_, _, p, attempt, _, before, _, _) => p < probe || (p == probe && attempt == 0 && before == gen)
    case ReadDone(_, _, result) => result.Found?
    case _ => false
  }

  lemma HeadingStep(s: State, s': State, t: nat, key: nat, now: nat, probe: nat)
    requires Inv(s) && ActStep(s, s', t) && Reads(s.threads[t], key, now) && probe < PROBE_LIMIT
    requires var slot := s.slots[SlotAt(key, probe)];
             !Odd(slot.gen) && Live(slot.cells, key, now) && Heading(s.threads[t], probe, slot.gen)
    ensures Heading(s'.threads[t], probe, s.slots[SlotAt(key, probe)].gen)
  {
    var th := s.threads[t];
    var slot := FocusSlot(s, th);
    assert ThreadOk(th, slot, s.clock, s.log) && SlotOk(slot);
    WordParity(slot.gen);
    if th.ReadCells? && th.k == FIELDS && th.probe == probe {
      ValidatedRead(th, slot, s.clock, s.log);
    }
  }

  lemma HeadingOn(s: State, s': State, t: nat, key: nat, now: nat, probe: nat)
    requires Inv(s) && Next(s, s') && t in s.threads && Running(s.threads[t])
    requires Reads(s.threads[t], key, now) && probe < PROBE_LIMIT
    requires var slot := s.slots[SlotAt(key, probe)];
             !Odd(slot.gen) && Live(slot.cells, key, now) && Heading(s.threads[t], probe, slot.gen)
    ensures t in s'.threads && Heading(s'.threads[t], probe, s.slots[SlotAt(key, probe)].gen)
  {
    MovesByActing(s, s', t);
    if s'.threads[t] != s.threads[t] {
      HeadingStep(s, s', t, key, now, probe);
    }
  }

  ghost predicate Untouched(run: seq<State>, a: nat, b: nat, key: nat, now: nat, probe: nat)
    requires b < |run| && forall m :: a <= m <= b ==> |run[m].slots| == CAPACITY
  {
    forall m :: a <= m <= b ==>
      var slot := run[m].slots[SlotAt(key, probe)];
      !Odd(slot.gen) && Live(slot.cells, key, now) && slot == run[a].slots[SlotAt(key, probe)]
  }

  lemma {:induction false} SpanHeading(run: seq<State>, t: nat, a: nat, b: nat, key: nat, now: nat, probe: nat)
    requires LookupSpan(run, t, a, b, key, now) && probe < PROBE_LIMIT
    requires Untouched(run, a, b, key, now, probe)
    ensures Heading(run[b].threads[t], probe, run[b].slots[SlotAt(key, probe)].gen)
    decreases b
  {
    if a < b {
      SpanHeading(run, t, a, b - 1, key, now, probe);
      SpanReads(run, t, a, b - 1, key, now);
      RunKeepsInv(run, b - 1);
      assert StepAt(run, b - 1);
      HeadingOn(run[b - 1], run[b], t, key, now, probe);
    }
  }

  /** A live rule in a slot that no writer touches during the lookup makes the lookup FOUND. */
  lemma UntouchedRuleIsFound(run: seq<State>, t: nat, a: nat, b: nat, key: nat, now: nat, probe: nat)
    requires LookupSpan(run, t, a, b, key, now) && run[b].threads[t].ReadDone? && probe < PROBE_LIMIT
    requires Untouched(run, a, b, key, now, probe)
    ensures run[b].threads[t].result.Found?
  {
    SpanHeading(run, t, a, b, key, now, probe);
  }
}
