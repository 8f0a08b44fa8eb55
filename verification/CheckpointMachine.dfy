/** The running service as a state machine: logging, applying, checkpointing, pruning, crashing and recovering. */
module CheckpointMachine {
  import opened BlockLog
  import opened Checkpoint
  import opened Values

  /** The checkpoint loop between two rounds, with an image captured, or with it on disk. */
  datatype Phase = Idle | Captured(image: Blocks, lsn: nat) | Written(image: Blocks, lsn: nat)

  /** On disk: the log, the snapshot files, the manifest and the oldest record retained. In memory: the store, its index
      of blocked addresses, the seconds after the restart at `born` at which it drops restored records by itself, the
      scheduler's deadlines, the mirror of them that checkpoints read, a mutation logged but not yet applied, and the checkpoint loop.
      `drift` bounds how far scheduled deadlines and starts may be off the logged ones, which are read from
      the clock at other moments and rounded to whole seconds. */
  datatype State = State(log: seq<Entry>, files: map<nat, Blocks>, manifest: nat, oldest: nat,
                         store: Records, listed: set<Key>, born: nat, ttls: Schedule, ring: Schedule, mirror: Schedule,
                         pending: Option<Entry>, phase: Phase, clock: nat, drift: nat)

  datatype Act =
    | Append(e: Entry)
    | Apply(b: Block, mirrored: Option<nat>)
    | Refresh(mirror: Schedule)
    | Capture
    | Write
    | Finish(oldest: nat)
    | Abandon
    | Tick(now: nat)
    | Recover(clocks: Clocks, ring: Schedule, mirror: Schedule)

  ghost predicate Within(a: nat, b: nat, d: nat) {
    a <= b + d && b <= a + d
  }

  ghost predicate CloseDeadlines(x: Option<nat>, y: Option<nat>, d: nat) {
    x.Some? == y.Some? && (x.Some? ==> Within(x.value, y.value, d))
  }

  ghost predicate CloseTo(x: Block, y: Block, d: nat) {
    x.reason == y.reason && Within(x.since, y.since, d) && CloseDeadlines(x.deadline, y.deadline, d)
  }

  /** Every deadline of one schedule is in the other, off by at most `jitter`. */
  ghost predicate CloseSchedules(x: Schedule, y: Schedule, jitter: nat) {
    forall k: Key :: CloseDeadlines(Scheduled(x, k), Scheduled(y, k), jitter)
  }

  /** The log without a mutation that the store does not reflect yet. */
  ghost function Reflected(s: State): (r: seq<Entry>) {
    if s.pending.Some? && s.log != [] then s.log[..|s.log| - 1] else s.log
  }

  ghost function FullFold(log: seq<Entry>): (m: Blocks) {
    Fold(map[], log)
  }

  /** When the store gives the record up by itself. */
  ghost function TtlEnd(s: State, k: Key): (t: Option<nat>) {
    if k in s.ttls then Some(s.born + s.ttls[k] * NS_PER_SEC) else None
  }

  ghost predicate Over(end: Option<nat>, clock: nat) {
    end.Some? && end.value < clock
  }

  /** It has given it up. */
  ghost predicate Gone(s: State, k: Key) {
    Over(TtlEnd(s, k), s.clock)
  }

  /** The records that the store still gives out. */
  ghost function Present(s: State): (r: Records) {
    s.store - (set k | k in s.ttls && Gone(s, k))
  }

  /** What a checkpoint finds in the store: prefixes, and indexed addresses whose record is still there. */
  ghost function Visible(s: State): (r: Records) {
    Shown(Present(s), s.listed)
  }

  /** What recovery starts from: the snapshot the manifest names, less what has expired. */
  ghost function BaseAt(s: State, now: nat): (m: Blocks) {
    LiveAt(Counting(s), now)
  }

  /** The snapshot that counts. */
  ghost function Counting(s: State): (m: Blocks) {
    if s.manifest > 0 && s.manifest in s.files then s.files[s.manifest] else map[]
  }

  /** The log up to the position of the snapshot that counts, and from there on. */
  ghost function HeadOf(s: State): (r: seq<Entry>) {
    if s.manifest <= |s.log| then s.log[..s.manifest] else s.log
  }

  ghost function TailOf(s: State): (r: seq<Entry>) {
    if s.manifest <= |s.log| then s.log[s.manifest..] else []
  }

  ghost function Replayed(s: State, c: Clocks): (m: Blocks) {
    Fold(BaseAt(s, c.restore), TailOf(s))
  }

  ghost predicate Ordered(s: State, c: Clocks) {
    s.clock <= c.restore <= c.ips <= c.nets <= c.rearmIps <= c.rearmNets
  }

  ghost function Timed(schedule: Schedule, k: Key, deadline: Option<nat>): (r: Schedule) {
    if deadline.Some? then schedule[k := deadline.value] else schedule - {k}
  }

  /** A block decision changes the record alone; only a record that the store has given up is made anew, without its
      time to live and its place in the index. */
  ghost function WithBlock(s: State, k: Key, b: Block, mirrored: Option<nat>): (s': State) {
    s.(store := s.store[k := StoredOf(b)],
       listed := if Gone(s, k) then s.listed - {k} else s.listed,
       ttls := if Gone(s, k) then s.ttls - {k} else s.ttls,
       ring := Timed(s.ring, k, b.deadline),
       mirror := Timed(s.mirror, k, mirrored))
  }

  ghost function WithoutBlock(s: State, k: Key): (s': State) {
    s.(store := s.store - {k}, listed := s.listed - {k}, ttls := s.ttls - {k}, ring := s.ring - {k},
       mirror := s.mirror - {k})
  }

  ghost function AfterApply(s: State, e: Entry, b: Block, mirrored: Option<nat>): (s': State) {
    (match e
     case Blocked(k, _, _, _) => WithBlock(s, k, b, mirrored)
     case Unblocked(k) => WithoutBlock(s, k)
     case Traffic => s).(pending := None)
  }

  ghost function AfterRecover(jitter: nat, s: State, c: Clocks, ring: Schedule, mirror: Schedule): (s': State) {
    var seed, m := BaseAt(s, c.restore), Replayed(s, c);
    var store := RecoveredStore(seed, m, c);
    State(s.log, s.files, s.manifest, s.oldest, store, Addresses(store), c.restore, RecoveredTtls(seed, m, c),
          ring, mirror, None, Idle, c.rearmNets, s.drift + 2 * jitter)
  }

  /** One step. The barrier keeps `Capture` out between the append of a mutation and its application; writing
      the image and finishing the checkpoint happen outside it. The mirror is set with every decision and rebuilt from
      the scheduler's deadlines now and then. A crash may strike before any step. */
  ghost predicate Next(jitter: nat, a: Act, s: State, s': State) {
    match a
    case Append(e) => s.pending.None? && s' == s.(log := s.log + [e], pending := Some(e))
    case Apply(b, mirrored) =>
      && s.pending.Some?
      && (s.pending.value.Blocked? ==>
            && CloseTo(b, Logged(s.pending.value), s.drift)
            && CloseDeadlines(mirrored, Logged(s.pending.value).deadline, s.drift + jitter))
      && s' == AfterApply(s, s.pending.value, b, mirrored)
    case Refresh(mirror) => s.pending.None? && CloseSchedules(mirror, s.ring, jitter) && s' == s.(mirror := mirror)
    case Capture =>
      s.pending.None? && s.phase.Idle? && s' == s.(phase := Captured(Joined(Visible(s), s.mirror), |s.log|))
    case Write =>
      && s.phase.Captured?
      && s' == s.(phase := Written(s.phase.image, s.phase.lsn), files := s.files[s.phase.lsn := s.phase.image])
    case Finish(oldest) =>
      && s.phase.Written? && s.oldest <= oldest <= s.phase.lsn
      && s' == s.(phase := Idle, manifest := s.phase.lsn, oldest := oldest)
    case Abandon => s' == s.(phase := Idle)
    case Tick(now) => s.clock <= now && s' == s.(clock := now)
    case Recover(c, ring, mirror) =>
      && Ordered(s, c)
      && CloseSchedules(ring, Handed(BaseAt(s, c.restore), Replayed(s, c), c), jitter)
      && CloseSchedules(mirror, Mirrored(BaseAt(s, c.restore), Replayed(s, c), c), jitter)
      && s' == AfterRecover(jitter, s, c, ring, mirror)
  }

  ghost predicate Init(s: State) {
    && s.log == [] && s.files == map[] && s.manifest == 0 && s.oldest == 0
    && s.store == map[] && s.listed == {} && s.ttls == map[] && s.ring == map[] && s.mirror == map[]
    && s.pending.None? && s.phase.Idle?
  }

  // ----- What holds whatever the blocks are -----

  /** The snapshot that the manifest names exists, and no record behind it has been pruned. */
  ghost predicate Recoverable(s: State) {
    && s.manifest <= |s.log| && s.oldest <= s.manifest
    && (s.manifest > 0 ==> s.manifest in s.files)
  }

  ghost predicate Sound(s: State) {
    && Recoverable(s)
    && (s.pending.Some? ==> s.log != [] && s.log[|s.log| - 1] == s.pending.value)
    && (!s.phase.Idle? ==> s.phase.lsn <= |s.log|)
    && (s.phase.Written? ==> s.phase.lsn in s.files && s.files[s.phase.lsn] == s.phase.image)
  }

  lemma NextKeepsSound(jitter: nat, a: Act, s: State, s': State)
    requires Sound(s) && Next(jitter, a, s, s')
    ensures Sound(s')
  {
    match a
    case Append(e) =>
    case Apply(b, mirrored) => ApplyKeepsDisk(s, s.pending.value, b, mirrored);
    case Refresh(_) =>
    case Capture =>
    case Write =>
    case Finish(_) =>
    case Abandon =>
    case Tick(_) =>
    case Recover(_, _, _) =>
  }

  lemma ApplyKeepsDisk(s: State, e: Entry, b: Block, mirrored: Option<nat>)
    ensures var s' := AfterApply(s, e, b, mirrored);
            && s'.log == s.log && s'.files == s.files && s'.manifest == s.manifest && s'.oldest == s.oldest
            && s'.phase == s.phase && s'.pending.None? && s'.clock == s.clock && s'.drift == s.drift
  {
  }

  // ----- Runs -----

  ghost predicate StepAt(jitter: nat, run: seq<State>, acts: seq<Act>, i: nat)
    requires i < |acts| && |run| == |acts| + 1
  {
    Next(jitter, acts[i], run[i], run[i + 1])
  }

  ghost predicate Run(jitter: nat, run: seq<State>, acts: seq<Act>) {
    && |run| == |acts| + 1 && Init(run[0])
    && forall i :: 0 <= i < |acts| ==> StepAt(jitter, run, acts, i)
  }

  /** In every state of every run the snapshot that the manifest names exists and the tail behind it is retained. */
  lemma {:induction false} AlwaysRecoverable(jitter: nat, run: seq<State>, acts: seq<Act>, n: nat)
    requires Run(jitter, run, acts) && n < |run|
    ensures Sound(run[n])
  {
    if n > 0 {
      AlwaysRecoverable(jitter, run, acts, n - 1);
      assert StepAt(jitter, run, acts, n - 1);
      NextKeepsSound(jitter, acts[n - 1], run[n - 1], run[n]);
    }
  }

  /** The log only grows, the clock only advances and drift only adds up. */
  lemma NextGrows(jitter: nat, a: Act, s: State, s': State)
    requires Next(jitter, a, s, s')
    ensures s.log <= s'.log && s.clock <= s'.clock && s'.drift <= s.drift + 2 * jitter && s.drift <= s'.drift
  {
    if a.Apply? {
      ApplyKeepsDisk(s, s.pending.value, a.b, a.mirrored);
    }
  }

  lemma {:induction false} RunGrows(jitter: nat, run: seq<State>, acts: seq<Act>, i: nat, n: nat)
    requires Run(jitter, run, acts) && i <= n < |run|
    ensures run[i].log <= run[n].log && run[i].clock <= run[n].clock && run[i].drift <= run[n].drift
  {
    if i < n {
      RunGrows(jitter, run, acts, i, n - 1);
      assert StepAt(jitter, run, acts, n - 1);
      NextGrows(jitter, acts[n - 1], run[n - 1], run[n]);
    }
  }

  /** The store gives up records of addresses only. */
  lemma {:induction false} PrefixHasNoTtl(jitter: nat, run: seq<State>, acts: seq<Act>, n: nat, k: Key)
    requires Run(jitter, run, acts) && n < |run| && k.Net?
    ensures k !in run[n].ttls
  {
    if n > 0 {
      PrefixHasNoTtl(jitter, run, acts, n - 1, k);
      assert StepAt(jitter, run, acts, n - 1);
      if acts[n - 1].Apply? {
        ApplyKeepsNoTtl(run[n - 1], run[n - 1].pending.value, acts[n - 1].b, acts[n - 1].mirrored, k);
      }
    }
  }

  lemma ApplyKeepsNoTtl(s: State, e: Entry, b: Block, mirrored: Option<nat>, k: Key)
    requires k !in s.ttls
    ensures k !in AfterApply(s, e, b, mirrored).ttls
  {
  }

  // ----- The last step about a key -----

  /** The step applies a decision about `k`, or recovers. */
  ghost predicate Concerns(a: Act, s: State, k: Key) {
    a.Recover? || (a.Apply? && s.pending.Some? && Names(s.pending.value, k))
  }

  /** The number of steps up to and including the last among the first `n` that concerns `k`. */
  ghost function Since(run: seq<State>, acts: seq<Act>, n: nat, k: Key): (i: nat)
    requires n <= |acts| && |run| == |acts| + 1
    ensures i <= n && (i > 0 ==> Concerns(acts[i - 1], run[i - 1], k))
  {
    if n == 0 then 0 else if Concerns(acts[n - 1], run[n - 1], k) then n else Since(run, acts, n - 1, k)
  }

  /** Step `i` of the run captured `image` at log position `lsn`. */
  ghost predicate CapturedAt(run: seq<State>, acts: seq<Act>, i: nat, image: Blocks, lsn: nat)
    requires |run| == |acts| + 1
  {
    && i < |acts| && acts[i].Capture? && run[i].pending.None?
    && |run[i].log| == lsn && image == Joined(Visible(run[i]), run[i].mirror)
  }

  ghost predicate CapturedBefore(run: seq<State>, acts: seq<Act>, n: nat, image: Blocks, lsn: nat)
    requires |run| == |acts| + 1
  {
    exists i: nat :: i < n && CapturedAt(run, acts, i, image, lsn)
  }

  /** A step leaves the snapshot that counts and the one in the making alone, passes the latter on, or captures. */
  lemma SnapshotsAfter(jitter: nat, a: Act, s: State, s': State)
    requires Sound(s) && Next(jitter, a, s, s')
    ensures || (Counting(s') == Counting(s) && s'.manifest == s.manifest)
            || (!s.phase.Idle? && s'.manifest == s.phase.lsn && (s'.manifest > 0 ==> Counting(s') == s.phase.image))
    ensures || s'.phase.Idle?
            || (!s.phase.Idle? && s'.phase.image == s.phase.image && s'.phase.lsn == s.phase.lsn)
            || (a.Capture? && s.pending.None? && s'.phase == Captured(Joined(Visible(s), s.mirror), |s.log|))
  {
    if a.Apply? {
      ApplyKeepsDisk(s, s.pending.value, a.b, a.mirrored);
    }
  }

  /** Where snapshots come from: the one that counts and the one in the making were captured by a step of the run, at
      the log position they are named after. */
  lemma {:induction false} CaptureOfCounting(jitter: nat, run: seq<State>, acts: seq<Act>, n: nat)
    requires Run(jitter, run, acts) && n < |run|
    ensures run[n].manifest > 0 ==> CapturedBefore(run, acts, n, Counting(run[n]), run[n].manifest)
    ensures !run[n].phase.Idle? ==> CapturedBefore(run, acts, n, run[n].phase.image, run[n].phase.lsn)
  {
    if n > 0 {
      CaptureOfCounting(jitter, run, acts, n - 1);
      AlwaysRecoverable(jitter, run, acts, n - 1);
      assert StepAt(jitter, run, acts, n - 1);
      SnapshotsAfter(jitter, acts[n - 1], run[n - 1], run[n]);
      if acts[n - 1].Capture? {
        assert CapturedAt(run, acts, n - 1, run[n].phase.image, run[n].phase.lsn);
      }
    }
  }
}
