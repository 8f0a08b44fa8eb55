/** Checkpoints, retention and crashes over whole runs: what recovery rebuilds is what the log says. */
module CrashRecovery {
  import opened BlockLog
  import opened Checkpoint
  import opened RecoveryExact
  import opened CheckpointMachine
  import opened Values

  // ----- Following the log, key by key -----

  /** `x` is the log's block `m` within `drift`, or there is none and the log's is over or about to be. */
  ghost predicate Follows(x: Option<Block>, m: Option<Block>, clock: nat, drift: nat) {
    && (x.Some? ==> m.Some? && CloseTo(x.value, m.value, drift))
    && (Standing(m, clock + drift) ==> x.Some?)
  }

  lemma FollowsLater(x: Option<Block>, m: Option<Block>, clock: nat, drift: nat, clock': nat, drift': nat)
    requires Follows(x, m, clock, drift) && clock <= clock' && drift <= drift'
    ensures Follows(x, m, clock', drift')
  {
  }

  /** Replaying the tail over the blocks in force of an image that follows the log's beginning follows the whole log. */
  lemma ReplayFollows(image: Blocks, head: seq<Entry>, tail: seq<Entry>, clock: nat, drift: nat, now: nat, k: Key)
    requires Follows(At(image, k), At(FullFold(head), k), clock, drift) && clock <= now
    ensures Follows(At(Fold(LiveAt(image, now), tail), k), At(FullFold(head + tail), k), now, drift)
  {
    FoldSplit(map[], head, tail);
    FoldView(LiveAt(image, now), tail, k);
    FoldView(FullFold(head), tail, k);
  }

  /** What the running service has about `k`, with the deadlines of `schedule`. */
  ghost function Seen(s: State, schedule: Schedule, k: Key): (r: Option<Block>) {
    if k in s.store && (k.Net? || k in s.listed) && !Gone(s, k) then
      Some(s.store[k].(deadline := Scheduled(schedule, k)))
    else None
  }

  /** It is what a checkpoint would capture. */
  lemma SeenIsCaptured(s: State, schedule: Schedule, k: Key)
    ensures At(Joined(Visible(s), schedule), k) == Seen(s, schedule, k)
  {
  }

  ghost function LoggedAt(s: State, k: Key): (r: Option<Block>) {
    At(FullFold(Reflected(s)), k)
  }

  /** What a checkpoint would capture about `k` follows the log. */
  ghost predicate MirrorFollows(jitter: nat, s: State, k: Key) {
    Follows(Seen(s, s.mirror, k), LoggedAt(s, k), s.clock, s.drift + jitter)
  }

  /** The store, the mirror and the scheduler follow the log, and the store will not give the record up by itself. */
  ghost predicate InStep(jitter: nat, s: State, k: Key) {
    && MirrorFollows(jitter, s, k)
    && Follows(Seen(s, s.ring, k), LoggedAt(s, k), s.clock, s.drift)
    && k !in s.ttls
  }

  ghost predicate ImageFollows(jitter: nat, s: State, image: Blocks, lsn: nat, k: Key) {
    lsn <= |s.log| && Follows(At(image, k), At(FullFold(s.log[..lsn]), k), s.clock, s.drift + jitter)
  }

  /** The snapshot that counts and the one in the making follow the log. */
  ghost predicate DiskFollows(jitter: nat, s: State, k: Key) {
    && ImageFollows(jitter, s, Counting(s), s.manifest, k)
    && (!s.phase.Idle? ==> ImageFollows(jitter, s, s.phase.image, s.phase.lsn, k))
  }

  // ----- Snapshots keep following -----

  lemma ImageFollowsLater(jitter: nat, s: State, s': State, image: Blocks, lsn: nat, k: Key)
    requires ImageFollows(jitter, s, image, lsn, k) && s.log <= s'.log && s.clock <= s'.clock && s.drift <= s'.drift
    ensures ImageFollows(jitter, s', image, lsn, k)
  {
    assert s'.log[..lsn] == s.log[..lsn];
    FollowsLater(At(image, k), At(FullFold(s.log[..lsn]), k), s.clock, s.drift + jitter, s'.clock, s'.drift + jitter);
  }

  lemma CaptureFollows(jitter: nat, s: State, k: Key)
    requires MirrorFollows(jitter, s, k) && s.pending.None?
    ensures ImageFollows(jitter, s, Joined(Visible(s), s.mirror), |s.log|, k)
  {
    assert s.log[..|s.log|] == s.log;
    SeenIsCaptured(s, s.mirror, k);
  }

  /** Snapshots follow the log through every step, provided that what is captured does. */
  lemma NextKeepsDisk(jitter: nat, a: Act, s: State, s': State, k: Key)
    requires Sound(s) && DiskFollows(jitter, s, k) && Next(jitter, a, s, s')
    requires a.Capture? ==> MirrorFollows(jitter, s, k)
    ensures DiskFollows(jitter, s', k)
  {
    NextGrows(jitter, a, s, s');
    SnapshotsAfter(jitter, a, s, s');
    ImageFollowsLater(jitter, s, s', Counting(s), s.manifest, k);
    if !s.phase.Idle? {
      ImageFollowsLater(jitter, s, s', s.phase.image, s.phase.lsn, k);
    }
    if a.Capture? {
      CaptureFollows(jitter, s, k);
    }
    if s'.manifest == 0 {
      assert Counting(s') == map[] && FullFold(s'.log[..0]) == map[];
    }
  }

  /** Why the barrier: an image captured between the append of a new permanent block and its application would
      name a log position that it does not reflect. */
  lemma BarrierIsNeeded(jitter: nat, s: State, k: Key)
    requires Sound(s) && s.pending.Some? && k !in s.store
    requires s.pending.value.Blocked? && s.pending.value.key == k && s.pending.value.ttl.None?
    ensures !ImageFollows(jitter, s, Joined(Visible(s), s.mirror), |s.log|, k)
  {
    assert s.log[..|s.log|] == s.log;
    SeenIsCaptured(s, s.mirror, k);
    assert FullFold(s.log) == Step(FullFold(Reflected(s)), s.pending.value);
  }

  // ----- The running service stays in step -----

  /** A step that keeps the service in step about `k`: it is not the block of an address that the index lacks or whose
      record the store will give up, and not a recovery that leaves a phantom or a stale timer. */
  ghost predicate Steady(a: Act, s: State, k: Key) {
    match a
    case Apply(_, _) =>
      s.pending.Some? && s.pending.value.Blocked? && s.pending.value.key == k && k.Ip? ==> k in s.listed && k !in s.ttls
    case Recover(c, _, _) =>
      && !Phantom(BaseAt(s, c.restore), TailOf(s), c, k)
      && !StaleTimer(BaseAt(s, c.restore), TailOf(s), c, k)
    case _ => true
  }

  lemma SeenAfterBlock(s: State, k: Key, b: Block, mirrored: Option<nat>)
    requires k !in s.ttls && (k.Net? || k in s.listed)
    ensures var s' := WithBlock(s, k, b, mirrored);
            && k !in s'.ttls && Seen(s', s'.ring, k) == Some(b) && Seen(s', s'.mirror, k) == Some(b.(deadline := mirrored))
  {
  }

  lemma SeenAfterOther(s: State, e: Entry, b: Block, mirrored: Option<nat>, k: Key)
    requires !Names(e, k)
    ensures var s' := AfterApply(s, e, b, mirrored);
            && (k in s'.ttls <==> k in s.ttls)
            && Seen(s', s'.ring, k) == Seen(s, s.ring, k) && Seen(s', s'.mirror, k) == Seen(s, s.mirror, k)
  {
  }

  /** What an applied decision makes visible. */
  lemma SeenAfterApply(s: State, e: Entry, b: Block, mirrored: Option<nat>, k: Key)
    requires k !in s.ttls && (Names(e, k) && e.Blocked? ==> k.Net? || k in s.listed)
    ensures var s' := AfterApply(s, e, b, mirrored);
            && k !in s'.ttls
            && Seen(s', s'.ring, k) == (if !Names(e, k) then Seen(s, s.ring, k) else if e.Blocked? then Some(b) else None)
            && Seen(s', s'.mirror, k) ==
               if !Names(e, k) then Seen(s, s.mirror, k)
               else if e.Blocked? then Some(b.(deadline := mirrored)) else None
  {
    if !Names(e, k) {
      SeenAfterOther(s, e, b, mirrored, k);
    } else if e.Blocked? {
      SeenAfterBlock(s.(pending := None), k, b, mirrored);
      assert AfterApply(s, e, b, mirrored) == WithBlock(s.(pending := None), k, b, mirrored);
    }
  }

  lemma LoggedAfterApply(s: State, e: Entry, b: Block, mirrored: Option<nat>, k: Key)
    requires Sound(s) && s.pending == Some(e)
    ensures LoggedAt(AfterApply(s, e, b, mirrored), k) ==
            if !Names(e, k) then LoggedAt(s, k) else if e.Blocked? then Some(Logged(e)) else None
  {
    ApplyKeepsDisk(s, e, b, mirrored);
    assert FullFold(s.log) == Step(FullFold(Reflected(s)), e);
  }

  /** Applying a decision keeps the service in step, and brings it in step if the decision is about `k`. */
  lemma ApplyKeepsInStep(jitter: nat, s: State, e: Entry, b: Block, mirrored: Option<nat>, k: Key)
    requires Sound(s) && s.pending == Some(e) && (Names(e, k) && e.Blocked? ==> k.Net? || k in s.listed)
    requires e.Blocked? ==> CloseTo(b, Logged(e), s.drift) && CloseDeadlines(mirrored, Logged(e).deadline, s.drift + jitter)
    requires InStep(jitter, s, k) || (Names(e, k) && k !in s.ttls)
    ensures InStep(jitter, AfterApply(s, e, b, mirrored), k)
  {
    ApplyKeepsDisk(s, e, b, mirrored);
    SeenAfterApply(s, e, b, mirrored, k);
    LoggedAfterApply(s, e, b, mirrored, k);
  }

  /** A release brings the service in step, whatever it was before. */
  lemma ReleaseBringsInStep(jitter: nat, s: State, b: Block, mirrored: Option<nat>, k: Key)
    requires Sound(s) && s.pending == Some(Unblocked(k))
    ensures InStep(jitter, AfterApply(s, Unblocked(k), b, mirrored), k)
  {
    LoggedAfterApply(s, Unblocked(k), b, mirrored, k);
  }

  lemma CloseAddsUp(x: Block, y: Block, z: Block, d: nat, d': nat)
    requires CloseTo(x, y, d) && CloseTo(y, z, d')
    ensures CloseTo(x, z, d + d')
  {
  }

  /** A block with another deadline close to its own. */
  lemma FollowsRescheduled(x: Option<Block>, y: Option<Block>, m: Option<Block>, clock: nat, d: nat, jitter: nat)
    requires x.Some? == y.Some? && (x.Some? ==> CloseTo(x.value, y.value, jitter)) && Follows(y, m, clock, d)
    ensures Follows(x, m, clock, d + jitter)
  {
    if x.Some? {
      CloseAddsUp(x.value, y.value, m.value, jitter, d);
    }
  }

  // ----- Crashes -----

  /** What recovery folds follows the whole log if the snapshot that counts does. */
  lemma ReplayedFollows(jitter: nat, s: State, c: Clocks, k: Key)
    requires Sound(s) && ImageFollows(jitter, s, Counting(s), s.manifest, k) && Ordered(s, c)
    ensures Follows(At(Replayed(s, c), k), At(FullFold(s.log), k), c.restore, s.drift + jitter)
  {
    var head, tail := s.log[..s.manifest], TailOf(s);
    assert head + tail == s.log;
    ReplayFollows(Counting(s), head, tail, s.clock, s.drift + jitter, c.restore, k);
  }

  /** What is in force of a replay that follows the log follows it at the later clock. */
  lemma InForceFollows(m: Option<Block>, f: Option<Block>, restore: nat, now: nat, later: nat, d: nat)
    requires Follows(m, f, restore, d) && restore <= now <= later
    ensures Follows(if Standing(m, now) then m else None, f, later, d)
  {
  }

  /** One schedule of the resumed service. */
  lemma ResumedFollows(seed: Blocks, tail: seq<Entry>, c: Clocks, f: Option<Block>, handed: Schedule, schedule: Schedule,
                       d: nat, jitter: nat, k: Key, mirror: bool)
    requires !Phantom(seed, tail, c, k) && !StaleTimer(seed, tail, c, k)
    requires c.restore <= c.ips <= c.nets <= c.rearmIps <= c.rearmNets
    requires Follows(At(Fold(seed, tail), k), f, c.restore, d)
    requires handed == if mirror then Mirrored(seed, Fold(seed, tail), c) else Handed(seed, Fold(seed, tail), c)
    requires CloseSchedules(schedule, handed, jitter)
    ensures Follows(At(Joined(RecoveredStore(seed, Fold(seed, tail), c), schedule), k), f, c.rearmNets, d + jitter)
  {
    var m := Fold(seed, tail);
    ResumedIs(seed, m, c, k);
    ResumedIsReplayed(seed, tail, c, k, mirror);
    InForceFollows(At(m, k), f, c.restore, ClockFor(c, k), c.rearmNets, d);
    assert CloseDeadlines(Scheduled(schedule, k), Scheduled(handed, k), jitter);
    FollowsRescheduled(At(Joined(RecoveredStore(seed, m, c), schedule), k), At(Joined(RecoveredStore(seed, m, c), handed), k),
                       f, c.rearmNets, d, jitter);
  }

  /** The same from a state whose snapshot follows the log: the scheduler. */
  lemma RingFromDisk(jitter: nat, s: State, c: Clocks, ring: Schedule, k: Key)
    requires Sound(s) && ImageFollows(jitter, s, Counting(s), s.manifest, k) && Ordered(s, c)
    requires !Phantom(BaseAt(s, c.restore), TailOf(s), c, k) && !StaleTimer(BaseAt(s, c.restore), TailOf(s), c, k)
    requires CloseSchedules(ring, Handed(BaseAt(s, c.restore), Replayed(s, c), c), jitter)
    ensures Follows(At(Joined(RecoveredStore(BaseAt(s, c.restore), Replayed(s, c), c), ring), k),
                    At(FullFold(s.log), k), c.rearmNets, s.drift + jitter + jitter)
  {
    var seed := BaseAt(s, c.restore);
    ReplayedFollows(jitter, s, c, k);
    ResumedFollows(seed, TailOf(s), c, At(FullFold(s.log), k), Handed(seed, Replayed(s, c), c), ring, s.drift + jitter,
                   jitter, k, false);
  }

  /** And the mirror. */
  lemma MirrorFromDisk(jitter: nat, s: State, c: Clocks, mirror: Schedule, k: Key)
    requires Sound(s) && ImageFollows(jitter, s, Counting(s), s.manifest, k) && Ordered(s, c)
    requires !Phantom(BaseAt(s, c.restore), TailOf(s), c, k) && !StaleTimer(BaseAt(s, c.restore), TailOf(s), c, k)
    requires CloseSchedules(mirror, Mirrored(BaseAt(s, c.restore), Replayed(s, c), c), jitter)
    ensures Follows(At(Joined(RecoveredStore(BaseAt(s, c.restore), Replayed(s, c), c), mirror), k),
                    At(FullFold(s.log), k), c.rearmNets, s.drift + jitter + jitter)
  {
    var seed := BaseAt(s, c.restore);
    ReplayedFollows(jitter, s, c, k);
    ResumedFollows(seed, TailOf(s), c, At(FullFold(s.log), k), Mirrored(seed, Replayed(s, c), c), mirror, s.drift + jitter,
                   jitter, k, true);
  }

  /** A service with this store, index and log, and no record about to vanish, is in step if its two views follow. */
  lemma InStepFrom(jitter: nat, s: State, store: Records, f: Option<Block>, k: Key)
    requires k !in s.ttls && s.pending.None? && s.store == store && s.listed == Addresses(store) && f == At(FullFold(s.log), k)
    requires Follows(At(Joined(store, s.ring), k), f, s.clock, s.drift)
    requires Follows(At(Joined(store, s.mirror), k), f, s.clock, s.drift)
    ensures InStep(jitter, s, k)
  {
    assert Seen(s, s.ring, k) == At(Joined(store, s.ring), k) && Seen(s, s.mirror, k) == At(Joined(store, s.mirror), k);
    FollowsLater(Seen(s, s.mirror, k), f, s.clock, s.drift, s.clock, s.drift + jitter);
  }

  lemma TtlIsPhantoms(seed: Blocks, tail: seq<Entry>, c: Clocks, k: Key)
    requires k in RecoveredTtls(seed, Fold(seed, tail), c)
    ensures Phantom(seed, tail, c, k)
  {
    PhantomIs(seed, tail, c, k);
  }

  lemma NoTtlAfterRecover(jitter: nat, s: State, c: Clocks, ring: Schedule, mirror: Schedule, k: Key)
    requires !Phantom(BaseAt(s, c.restore), TailOf(s), c, k)
    ensures k !in AfterRecover(jitter, s, c, ring, mirror).ttls
  {
    if k in AfterRecover(jitter, s, c, ring, mirror).ttls {
      TtlIsPhantoms(BaseAt(s, c.restore), TailOf(s), c, k);
    }
  }

  lemma RecoveredViews(jitter: nat, s: State, c: Clocks, ring: Schedule, mirror: Schedule, k: Key)
    requires Sound(s) && ImageFollows(jitter, s, Counting(s), s.manifest, k) && Ordered(s, c)
    requires !Phantom(BaseAt(s, c.restore), TailOf(s), c, k) && !StaleTimer(BaseAt(s, c.restore), TailOf(s), c, k)
    requires CloseSchedules(ring, Handed(BaseAt(s, c.restore), Replayed(s, c), c), jitter)
    requires CloseSchedules(mirror, Mirrored(BaseAt(s, c.restore), Replayed(s, c), c), jitter)
    ensures var s' := AfterRecover(jitter, s, c, ring, mirror);
            && Follows(At(Joined(s'.store, s'.ring), k), At(FullFold(s'.log), k), s'.clock, s'.drift)
            && Follows(At(Joined(s'.store, s'.mirror), k), At(FullFold(s'.log), k), s'.clock, s'.drift)
  {
    RingFromDisk(jitter, s, c, ring, k);
    MirrorFromDisk(jitter, s, c, mirror, k);
  }

  /** Without a phantom or a stale timer the service resumes in step, whatever it was before the crash. */
  lemma RecoverBringsInStep(jitter: nat, s: State, c: Clocks, ring: Schedule, mirror: Schedule, k: Key)
    requires Sound(s) && ImageFollows(jitter, s, Counting(s), s.manifest, k) && Ordered(s, c)
    requires !Phantom(BaseAt(s, c.restore), TailOf(s), c, k) && !StaleTimer(BaseAt(s, c.restore), TailOf(s), c, k)
    requires CloseSchedules(ring, Handed(BaseAt(s, c.restore), Replayed(s, c), c), jitter)
    requires CloseSchedules(mirror, Mirrored(BaseAt(s, c.restore), Replayed(s, c), c), jitter)
    ensures InStep(jitter, AfterRecover(jitter, s, c, ring, mirror), k)
  {
    var s' := AfterRecover(jitter, s, c, ring, mirror);
    RecoveredViews(jitter, s, c, ring, mirror, k);
    NoTtlAfterRecover(jitter, s, c, ring, mirror, k);
    InStepFrom(jitter, s', s'.store, At(FullFold(s'.log), k), k);
  }

  lemma AppendKeepsInStep(jitter: nat, s: State, e: Entry, k: Key)
    requires s.pending.None? && InStep(jitter, s, k)
    ensures InStep(jitter, s.(log := s.log + [e], pending := Some(e)), k)
  {
    var s' := s.(log := s.log + [e], pending := Some(e));
    assert Reflected(s') == s.log;
  }

  lemma RefreshKeepsInStep(jitter: nat, s: State, mirror: Schedule, k: Key)
    requires InStep(jitter, s, k) && CloseSchedules(mirror, s.ring, jitter)
    ensures InStep(jitter, s.(mirror := mirror), k)
  {
    assert CloseDeadlines(Scheduled(mirror, k), Scheduled(s.ring, k), jitter);
    FollowsRescheduled(Seen(s, mirror, k), Seen(s, s.ring, k), LoggedAt(s, k), s.clock, s.drift, jitter);
  }

  lemma TickKeepsInStep(jitter: nat, s: State, now: nat, k: Key)
    requires InStep(jitter, s, k) && s.clock <= now
    ensures InStep(jitter, s.(clock := now), k)
  {
    FollowsLater(Seen(s, s.mirror, k), LoggedAt(s, k), s.clock, s.drift + jitter, now, s.drift + jitter);
    FollowsLater(Seen(s, s.ring, k), LoggedAt(s, k), s.clock, s.drift, now, s.drift);
  }

  /** Checkpointing leaves the running service alone. */
  lemma CheckpointKeepsInStep(jitter: nat, s: State, s': State, k: Key)
    requires InStep(jitter, s, k)
    requires s' == s.(phase := s'.phase, files := s'.files, manifest := s'.manifest, oldest := s'.oldest)
    ensures InStep(jitter, s', k)
  {
  }

  /** Every steady step keeps the service in step about `k`. */
  lemma NextKeepsInStep(jitter: nat, a: Act, s: State, s': State, k: Key)
    requires Sound(s) && DiskFollows(jitter, s, k) && InStep(jitter, s, k)
    requires Next(jitter, a, s, s') && Steady(a, s, k)
    ensures InStep(jitter, s', k)
  {
    match a
    case Append(e) => AppendKeepsInStep(jitter, s, e, k);
    case Apply(b, mirrored) => ApplyKeepsInStep(jitter, s, s.pending.value, b, mirrored, k);
    case Refresh(mirror) => RefreshKeepsInStep(jitter, s, mirror, k);
    case Tick(now) => TickKeepsInStep(jitter, s, now, k);
    case Recover(c, ring, mirror) => RecoverBringsInStep(jitter, s, c, ring, mirror, k);
    case _ => CheckpointKeepsInStep(jitter, s, s', k);
  }

  // ----- Whole runs -----

  /** Whatever was captured in the first `n` steps followed the log about `k`. */
  ghost predicate CapturesFollow(jitter: nat, run: seq<State>, acts: seq<Act>, n: nat, k: Key)
    requires n <= |acts| && |run| == |acts| + 1
  {
    forall i :: 0 <= i < n && acts[i].Capture? ==> MirrorFollows(jitter, run[i], k)
  }

  /** The last of the first `n` steps that concerns `k`, if there is one, was a steady one. */
  ghost predicate Settled(run: seq<State>, acts: seq<Act>, n: nat, k: Key)
    requires n <= |acts| && |run| == |acts| + 1
  {
    var i := Since(run, acts, n, k);
    i > 0 ==> Steady(acts[i - 1], run[i - 1], k)
  }

  /** Whenever something was captured in the first `n` steps, the last step about `k` before it had been steady. */
  ghost predicate CapturesSettled(run: seq<State>, acts: seq<Act>, n: nat, k: Key)
    requires n <= |acts| && |run| == |acts| + 1
  {
    forall i :: 0 <= i < n && acts[i].Capture? ==> Settled(run, acts, i, k)
  }

  lemma {:induction false} RunKeepsDisk(jitter: nat, run: seq<State>, acts: seq<Act>, n: nat, k: Key)
    requires Run(jitter, run, acts) && n < |run| && CapturesFollow(jitter, run, acts, n, k)
    ensures Sound(run[n]) && DiskFollows(jitter, run[n], k)
  {
    AlwaysRecoverable(jitter, run, acts, n);
    if n > 0 {
      RunKeepsDisk(jitter, run, acts, n - 1, k);
      assert StepAt(jitter, run, acts, n - 1);
      NextKeepsDisk(jitter, acts[n - 1], run[n - 1], run[n], k);
    }
  }

  lemma OneMoreCapture(jitter: nat, run: seq<State>, acts: seq<Act>, n: nat, k: Key)
    requires 0 < n <= |acts| && |run| == |acts| + 1 && CapturesFollow(jitter, run, acts, n - 1, k)
    requires acts[n - 1].Capture? ==> MirrorFollows(jitter, run[n - 1], k)
    ensures CapturesFollow(jitter, run, acts, n, k)
  {
  }

  lemma OneLessSettled(run: seq<State>, acts: seq<Act>, n: nat, k: Key)
    requires 0 < n <= |acts| && |run| == |acts| + 1 && CapturesSettled(run, acts, n, k)
    ensures CapturesSettled(run, acts, n - 1, k) && (acts[n - 1].Capture? ==> Settled(run, acts, n - 1, k))
  {
  }

  /** A steady step that concerns `k` brings the service in step, whatever it was before. */
  lemma SteadyBringsInStep(jitter: nat, a: Act, s: State, s': State, k: Key)
    requires Sound(s) && DiskFollows(jitter, s, k) && Next(jitter, a, s, s')
    requires Concerns(a, s, k) && Steady(a, s, k) && (k.Net? ==> k !in s.ttls)
    ensures InStep(jitter, s', k)
  {
    match a
    case Recover(c, ring, mirror) => RecoverBringsInStep(jitter, s, c, ring, mirror, k);
    case Apply(b, mirrored) =>
      if s.pending.value.Blocked? {
        ApplyKeepsInStep(jitter, s, s.pending.value, b, mirrored, k);
      } else {
        ReleaseBringsInStep(jitter, s, b, mirrored, k);
      }
  }

  /** A step that does not concern `k` keeps the service in step. */
  lemma OtherKeepsInStep(jitter: nat, a: Act, s: State, s': State, k: Key)
    requires Sound(s) && DiskFollows(jitter, s, k) && InStep(jitter, s, k) && Next(jitter, a, s, s') && !Concerns(a, s, k)
    ensures InStep(jitter, s', k)
  {
    NextKeepsInStep(jitter, a, s, s', k);
  }

  lemma InitIsInStep(jitter: nat, s: State, k: Key)
    requires Init(s)
    ensures InStep(jitter, s, k)
  {
  }

  /** What holds of the last step about `k` holds after a step that is not about `k`. */
  lemma StillSettled(run: seq<State>, acts: seq<Act>, n: nat, k: Key)
    requires 0 < n <= |acts| && |run| == |acts| + 1 && Settled(run, acts, n, k)
    ensures if Concerns(acts[n - 1], run[n - 1], k) then Steady(acts[n - 1], run[n - 1], k) else Settled(run, acts, n - 1, k)
  {
  }

  lemma FewerCaptures(jitter: nat, run: seq<State>, acts: seq<Act>, n: nat, k: Key)
    requires 0 < n <= |acts| && |run| == |acts| + 1 && CapturesFollow(jitter, run, acts, n, k)
    ensures CapturesFollow(jitter, run, acts, n - 1, k)
  {
  }

  /** The step after which a steady last step about `k` has left the service in step. */
  lemma NextSettles(jitter: nat, a: Act, s: State, s': State, k: Key)
    requires Sound(s) && DiskFollows(jitter, s, k) && Next(jitter, a, s, s') && (k.Net? ==> k !in s.ttls)
    requires if Concerns(a, s, k) then Steady(a, s, k) else InStep(jitter, s, k)
    ensures InStep(jitter, s', k)
  {
    if Concerns(a, s, k) {
      SteadyBringsInStep(jitter, a, s, s', k);
    } else {
      OtherKeepsInStep(jitter, a, s, s', k);
    }
  }

  lemma RunSettles(jitter: nat, run: seq<State>, acts: seq<Act>, n: nat, k: Key)
    requires Run(jitter, run, acts) && n < |acts| && CapturesFollow(jitter, run, acts, n, k)
    requires if Concerns(acts[n], run[n], k) then Steady(acts[n], run[n], k) else InStep(jitter, run[n], k)
    ensures InStep(jitter, run[n + 1], k)
  {
    RunKeepsDisk(jitter, run, acts, n, k);
    if k.Net? {
      PrefixHasNoTtl(jitter, run, acts, n, k);
    }
    assert StepAt(jitter, run, acts, n);
    NextSettles(jitter, acts[n], run[n], run[n + 1], k);
  }

  /** If snapshots followed the log so far, the service is in step after a steady last step about `k`. */
  lemma {:induction false} SettledIsInStep(jitter: nat, run: seq<State>, acts: seq<Act>, n: nat, k: Key)
    requires Run(jitter, run, acts) && n < |run| && CapturesFollow(jitter, run, acts, n, k) && Settled(run, acts, n, k)
    ensures InStep(jitter, run[n], k)
  {
    if n == 0 {
      InitIsInStep(jitter, run[0], k);
    } else {
      FewerCaptures(jitter, run, acts, n, k);
      StillSettled(run, acts, n, k);
      if !Concerns(acts[n - 1], run[n - 1], k) {
        SettledIsInStep(jitter, run, acts, n - 1, k);
      }
      RunSettles(jitter, run, acts, n - 1, k);
    }
  }

  /** So snapshots follow the log in every run in which the last step about `k` before a capture was always steady. */
  lemma {:induction false} SettledCapturesFollow(jitter: nat, run: seq<State>, acts: seq<Act>, n: nat, k: Key)
    requires Run(jitter, run, acts) && n < |run| && CapturesSettled(run, acts, n, k)
    ensures CapturesFollow(jitter, run, acts, n, k)
  {
    if n > 0 {
      OneLessSettled(run, acts, n, k);
      SettledCapturesFollow(jitter, run, acts, n - 1, k);
      if acts[n - 1].Capture? {
        SettledIsInStep(jitter, run, acts, n - 1, k);
      }
      OneMoreCapture(jitter, run, acts, n, k);
    }
  }

  /** A crash after any step of any run: as far as `k` goes, what recovery puts in force is what the whole log puts
      in force, up to the drift of its deadline and exactly so without drift. Earlier recoveries and decisions of the
      run matter only if a snapshot preserved what they left behind. */
  lemma CrashAnywhere(jitter: nat, run: seq<State>, acts: seq<Act>, n: nat, c: Clocks, k: Key)
    requires Run(jitter, run, acts) && n < |run| && Ordered(run[n], c)
    requires CapturesFollow(jitter, run, acts, n, k)
    ensures var got, f, d := InForce(Replayed(run[n], c), c), FullFold(run[n].log), run[n].drift + jitter;
            && (k in got ==> k in f && CloseTo(got[k], f[k], d))
            && (k in f && Ahead(f[k].deadline, ClockFor(c, k) + d) ==> k in got)
            && (d == 0 ==> SameAt(got, InForce(f, c), k))
  {
    RunKeepsDisk(jitter, run, acts, n, k);
    ReplayedFollows(jitter, run[n], c, k);
  }

  /** The same told from the steps of the run. */
  lemma CrashAfterSettled(jitter: nat, run: seq<State>, acts: seq<Act>, n: nat, c: Clocks, k: Key)
    requires Run(jitter, run, acts) && n < |run| && Ordered(run[n], c)
    requires CapturesSettled(run, acts, n, k)
    ensures var got, f, d := InForce(Replayed(run[n], c), c), FullFold(run[n].log), run[n].drift + jitter;
            && (k in got ==> k in f && CloseTo(got[k], f[k], d))
            && (k in f && Ahead(f[k].deadline, ClockFor(c, k) + d) ==> k in got)
            && (d == 0 ==> SameAt(got, InForce(f, c), k))
  {
    SettledCapturesFollow(jitter, run, acts, n, k);
    CrashAnywhere(jitter, run, acts, n, c, k);
  }
}
