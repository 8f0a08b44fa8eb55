/** Publishers, clearers and readers of the rule table as a small-step transition system.
    Every step is one atomic load, store, compare-and-swap or fetch-add, and any number of
    threads interleave them in any order. */
module SeqlockMachine {
  import opened RuleSlots

  /** `gen` is the number of sequence increments so far; memory holds its low 32 bits.
      `committed` is auxiliary: the cells as they stood when `gen` was last made even by a writer. */
  datatype Slot = Slot(gen: nat, cells: Payload, committed: Payload)

  function Word(gen: nat): (w: nat) {
    gen % U32_SIZE
  }

  datatype Field = Hash | Expires | Rps | Tier | Flags | SeedLo | SeedHi

  const FIELDS: nat := 7

  function Get(p: Payload, f: Field): (v: nat) {
    match f
    case Hash => p.hash
    case Expires => p.expires
    case Rps => p.rps
    case Tier => p.tier
    case Flags => p.flags
    case SeedLo => p.seedLo
    case SeedHi => p.seedHi
  }

  function Put(p: Payload, f: Field, v: nat): (r: Payload) {
    match f
    case Hash => p.(hash := v)
    case Expires => p.(expires := v)
    case Rps => p.(rps := v)
    case Tier => p.(tier := v)
    case Flags => p.(flags := v)
    case SeedLo => p.(seedLo := v)
    case SeedHi => p.(seedHi := v)
  }

  /** One writer operation; a publisher's `now` is the clock it read on entry. */
  datatype Job =
    | Publish(key: nat, now: nat, ttl: nat, tier: nat, rps: nat, shared: bool)
    | Clear(now: nat)

  function Target(job: Job): (p: Payload) {
    match job
    case Publish(key, now, ttl, tier, rps, shared) => PublishedPayload(key, now, ttl, tier, rps, shared)
    case Clear(now) => ClearedPayload(now)
  }

  const PUBLISH_ORDER: seq<Field> := [SeedLo, SeedHi, Hash, Tier, Rps, Flags, Expires]
  const CLEAR_ORDER: seq<Field> := [Hash, Expires, Rps, Tier, Flags, SeedLo, SeedHi]
  const READ_ORDER: seq<Field> := [Hash, Expires, Rps, Tier, Flags, SeedLo, SeedHi]

  function StoreOrder(job: Job): (fs: seq<Field>)
    ensures |fs| == FIELDS
  {
    if job.Publish? then PUBLISH_ORDER else CLEAR_ORDER
  }

  /** Where a writer stands once it has selected a slot. `Storing(k)` has stored `k` of the seven
      fields; `Storing(7)` is about to make `gen` even. */
  datatype Phase =
    | LoadSeq(spin: nat)
    | SwapSeq(spin: nat, seen: nat)
    | CheckHash
    | CheckExpires(existing: nat)
    | Abandon
    | Storing(k: nat)

  datatype Thread =
    | Idle
    | FindKey(job: Job, probe: nat)
    | FindFree(job: Job, probe: nat)
    | FindExpired(job: Job, probe: nat, existing: nat)
    | Writing(job: Job, at: nat, phase: Phase)
    | WriteDone(job: Job, ok: bool)
    | ReadSeq(key: nat, now: nat, probe: nat, attempt: nat, contended: bool)
    | ReadCells(key: nat, now: nat, probe: nat, attempt: nat, contended: bool, before: nat, k: nat, got: Payload)
    | ReadDone(key: nat, now: nat, result: Lookup)

  predicate Running(th: Thread) {
    !th.Idle? && !th.WriteDone? && !th.ReadDone?
  }

  /** Program-counter values that can occur. */
  ghost predicate WellFormed(th: Thread) {
    match th
    case Idle => true
    case FindKey(job, probe) => job.Publish? && job.key != 0 && probe < PROBE_LIMIT
    case FindFree(job, probe) => job.Publish? && job.key != 0 && probe < PROBE_LIMIT
    case FindExpired(job, probe, _) => job.Publish? && job.key != 0 && probe < PROBE_LIMIT
    case Writing(job, at, phase) =>
      && at < CAPACITY
      && (job.Publish? ==> job.key != 0 && InWindow(at, job.key))
      && (phase.Storing? ==> phase.k <= FIELDS)
      && (phase.LoadSeq? || phase.SwapSeq? ==> phase.spin < RETRY_LIMIT)
      && (phase.SwapSeq? ==> !Odd(phase.seen))
      && (phase.CheckHash? || phase.CheckExpires? || phase.Abandon? ==> job.Publish?)
    case WriteDone(_, _) => true
    case ReadSeq(key, _, probe, attempt, _) => key != 0 && probe < PROBE_LIMIT && attempt < RETRY_LIMIT
    case ReadCells(key, _, probe, attempt, _, before, k, _) =>
      key != 0 && probe < PROBE_LIMIT && attempt < RETRY_LIMIT && k <= FIELDS && !Odd(before)
    case ReadDone(_, _, _) => true
  }

  /** The slot a running thread's next step touches. */
  function Focus(th: Thread): (i: nat)
    requires Running(th) && WellFormed(th)
    ensures i < CAPACITY
  {
    match th
    case FindKey(job, probe) => SlotAt(job.key, probe)
    case FindFree(job, probe) => SlotAt(job.key, probe)
    case FindExpired(job, probe, _) => SlotAt(job.key, probe)
    case Writing(_, at, _) => at
    case ReadSeq(key, _, probe, _, _) => SlotAt(key, probe)
    case ReadCells(key, _, probe, _, _, _, _, _) => SlotAt(key, probe)
  }

  /** The thread holds slot `i` between its successful compare-and-swap and its release. */
  predicate Owns(th: Thread, i: nat) {
    th.Writing? && th.at == i && !th.phase.LoadSeq? && !th.phase.SwapSeq?
  }

  /** The step about to be taken is the release of a completed publish. */
  predicate Completes(th: Thread) {
    th.Writing? && th.job.Publish? && th.phase == Storing(FIELDS)
  }

  function Respin(job: Job, at: nat, spin: nat): (th: Thread) {
    if spin + 1 < RETRY_LIMIT then Writing(job, at, LoadSeq(spin + 1)) else WriteDone(job, false)
  }

  function NextProbe(key: nat, now: nat, probe: nat, contended: bool): (th: Thread) {
    if probe + 1 < PROBE_LIMIT then ReadSeq(key, now, probe + 1, 0, contended)
    else ReadDone(key, now, if contended then Contended else Miss)
  }

  function Reread(key: nat, now: nat, probe: nat, attempt: nat, contended: bool): (th: Thread) {
    if attempt + 1 < RETRY_LIMIT then ReadSeq(key, now, probe, attempt + 1, contended)
    else NextProbe(key, now, probe, true)
  }

  /** One atomic step of a writer that has selected its slot. */
  function ActWriting(job: Job, at: nat, phase: Phase, slot: Slot): (r: (Thread, Slot))
    requires WellFormed(Writing(job, at, phase))
  {
    match phase
    case LoadSeq(spin) =>
      (if Odd(Word(slot.gen)) then Respin(job, at, spin) else Writing(job, at, SwapSeq(spin, Word(slot.gen))), slot)
    case SwapSeq(spin, seen) =>
      if Word(slot.gen) == seen then
        (Writing(job, at, if job.Publish? then CheckHash else Storing(0)), slot.(gen := slot.gen + 1))
      else
        (Respin(job, at, spin), slot)
    case CheckHash =>
      (Writing(job, at, CheckExpires(slot.cells.hash)), slot)
    case CheckExpires(existing) =>
      var claimable := existing == 0 || existing == job.key || slot.cells.expires <= job.now;
      (Writing(job, at, if claimable then Storing(0) else Abandon), slot)
    case Abandon =>
      (WriteDone(job, false), slot.(gen := slot.gen + 1))
    case Storing(k) =>
      if k < FIELDS then
        var f := StoreOrder(job)[k];
        (Writing(job, at, Storing(k + 1)), slot.(cells := Put(slot.cells, f, Get(Target(job), f))))
      else
        (WriteDone(job, true), slot.(gen := slot.gen + 1, committed := slot.cells))
  }

  /** One atomic step of a running thread on the slot in its focus. */
  function Act(th: Thread, slot: Slot): (r: (Thread, Slot))
    requires Running(th) && WellFormed(th)
  {
    match th
    case FindKey(job, probe) =>
      (if slot.cells.hash == job.key then Writing(job, SlotAt(job.key, probe), LoadSeq(0))
       else if probe + 1 < PROBE_LIMIT then FindKey(job, probe + 1)
       else FindFree(job, 0), slot)
    case FindFree(job, probe) =>
      (FindExpired(job, probe, slot.cells.hash), slot)
    case FindExpired(job, probe, existing) =>
      (if existing == 0 || slot.cells.expires <= job.now then Writing(job, SlotAt(job.key, probe), LoadSeq(0))
       else if probe + 1 < PROBE_LIMIT then FindFree(job, probe + 1)
       else WriteDone(job, false), slot)
    case Writing(job, at, phase) =>
      ActWriting(job, at, phase, slot)
    case ReadSeq(key, now, probe, attempt, contended) =>
      (if Odd(Word(slot.gen)) then Reread(key, now, probe, attempt, contended)
       else ReadCells(key, now, probe, attempt, contended, slot.gen, 0, EMPTY), slot)
    case ReadCells(key, now, probe, attempt, contended, before, k, got) =>
      if k < FIELDS then
        (th.(k := k + 1, got := Put(got, READ_ORDER[k], Get(slot.cells, READ_ORDER[k]))), slot)
      else if Word(before) != Word(slot.gen) || Odd(Word(slot.gen)) then
        (Reread(key, now, probe, attempt, contended), slot)
      else if Live(got, key, now) then
        (ReadDone(key, now, Found(got)), slot)
      else
        (NextProbe(key, now, probe, contended), slot)
  }

  /** A completed publish. */
  datatype Record = Record(slot: nat, job: Job)

  datatype State = State(slots: seq<Slot>, threads: map<nat, Thread>, clock: nat, log: set<Record>)

  ghost predicate Init(s: State) {
    && |s.slots| == CAPACITY
    && (forall i :: 0 <= i < CAPACITY ==> s.slots[i] == Slot(0, EMPTY, EMPTY))
    && (forall t :: t in s.threads ==> s.threads[t] == Idle)
    && s.log == {}
  }

  /** Entry points: `publish_rule`, `ramshield_shm_clear_slot` (which the flush loop calls for each
      slot in turn) and `ramshield_shm_read_ex`. */
  ghost predicate Starts(th: Thread, clock: nat) {
    || (th.FindKey? && th.job.Publish? && th.job.key != 0 && th.job.now == clock && th.probe == 0)
    || (th.WriteDone? && th.job.Publish? && th.job.key == 0 && th.job.now == clock && !th.ok)
    || (th.Writing? && th.job.Clear? && th.at < CAPACITY && th.phase == LoadSeq(0))
    || (th.ReadSeq? && th.key != 0 && th.probe == 0 && th.attempt == 0 && !th.contended)
    || (th.ReadDone? && th.key == 0 && th.result == Invalid)
  }

  ghost predicate StartStep(s: State, s': State, t: nat) {
    && t in s.threads && !Running(s.threads[t])
    && t in s'.threads && Starts(s'.threads[t], s.clock)
    && s' == s.(threads := s.threads[t := s'.threads[t]])
  }

  ghost predicate TickStep(s: State, s': State) {
    s.clock <= s'.clock && s' == s.(clock := s'.clock)
  }

  /** A read window is short: fewer than 2^32 sequence increments pass between its two loads. */
  ghost predicate ShortWindow(th: Thread, slot: Slot) {
    th.ReadCells? ==> slot.gen < th.before + U32_SIZE
  }

  ghost predicate ActStep(s: State, s': State, t: nat) {
    && |s.slots| == CAPACITY
    && t in s.threads && Running(s.threads[t]) && WellFormed(s.threads[t])
    && var th := s.threads[t];
       var i := Focus(th);
       var (th', slot') := Act(th, s.slots[i]);
       && ShortWindow(th, s.slots[i])
       && s' == State(s.slots[i := slot'], s.threads[t := th'], s.clock,
                      if Completes(th) then s.log + {Record(th.at, th.job)} else s.log)
  }

  ghost predicate Next(s: State, s': State) {
    || TickStep(s, s')
    || (exists t :: StartStep(s, s', t))
    || (exists t :: ActStep(s, s', t))
  }

  ghost predicate StepAt(run: seq<State>, k: nat)
    requires k + 1 < |run|
  {
    Next(run[k], run[k + 1])
  }

  /** Consecutive states of a run are related by `Next`. */
  ghost predicate Run(run: seq<State>) {
    && |run| > 0
    && forall k :: 0 <= k < |run| - 1 ==> StepAt(run, k)
  }
}
