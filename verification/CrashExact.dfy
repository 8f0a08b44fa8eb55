/** Without drift: how far the service and its snapshots can be off the log, and what single steps do to that. */
module CrashExact {
  import opened BlockLog
  import opened Checkpoint
  import opened RecoveryExact
  import opened CheckpointMachine
  import opened CrashRecovery
  import opened Values

  // ----- How far off an image can be -----

  /** A permanent block with a deadline put on it. */
  ghost predicate Limited(x: Block, m: Block) {
    m.deadline.None? && x.deadline.Some? && x.(deadline := None) == m
  }

  /** There is no block, or the log's own, or one left over after the log's is over, or the log's with a deadline put
      on it. */
  ghost predicate Known(x: Option<Block>, m: Option<Block>, now: nat) {
    x.Some? ==> m.Some? && (x == m || !Standing(m, now) || Limited(x.value, m.value))
  }

  /** Recovery from an image of a known kind resumes with one. */
  lemma ResumedKnown(x: Option<Block>, m: Option<Block>, last: Option<Entry>, clock: nat, c: Clocks, k: Key, mirror: bool)
    requires Known(x, m, clock) && clock <= c.restore <= c.ips <= c.nets <= c.rearmIps <= c.rearmNets
    ensures var seeded := if Standing(x, c.restore) then x else None;
            Known(Resumed(seeded, ReplayAt(seeded, last), c, k, mirror), ReplayAt(m, last), c.rearmNets)
  {
  }

  /** What is in force at `now` of an image is what is in force of the log if and only if the image follows the log or
      neither is in force. */
  lemma SameIffFollows(x: Option<Block>, m: Option<Block>, clock: nat, now: nat)
    requires clock <= now
    ensures (Standing(x, now) == Standing(m, now) && (Standing(x, now) ==> x == m))
            <==> Follows(x, m, clock, 0) || (!Standing(x, now) && !Standing(m, now))
  {
  }

  // ----- Every state of every run is of a known kind -----

  ghost predicate ServiceKnown(s: State, k: Key) {
    && Known(Seen(s, s.mirror, k), LoggedAt(s, k), s.clock)
    && Known(Seen(s, s.ring, k), LoggedAt(s, k), s.clock)
  }

  ghost predicate ImageKnown(s: State, image: Blocks, lsn: nat, k: Key) {
    lsn <= |s.log| && Known(At(image, k), At(FullFold(s.log[..lsn]), k), s.clock)
  }

  ghost predicate DiskKnown(s: State, k: Key) {
    && ImageKnown(s, Counting(s), s.manifest, k)
    && (!s.phase.Idle? ==> ImageKnown(s, s.phase.image, s.phase.lsn, k))
  }

  lemma ImageKnownLater(s: State, s': State, image: Blocks, lsn: nat, k: Key)
    requires ImageKnown(s, image, lsn, k) && s.log <= s'.log && s.clock <= s'.clock
    ensures ImageKnown(s', image, lsn, k)
  {
    assert s'.log[..lsn] == s.log[..lsn];
  }

  lemma NextKeepsDiskKnown(a: Act, s: State, s': State, k: Key)
    requires Sound(s) && DiskKnown(s, k) && ServiceKnown(s, k) && Next(0, a, s, s')
    ensures DiskKnown(s', k)
  {
    NextGrows(0, a, s, s');
    SnapshotsAfter(0, a, s, s');
    ImageKnownLater(s, s', Counting(s), s.manifest, k);
    if !s.phase.Idle? {
      ImageKnownLater(s, s', s.phase.image, s.phase.lsn, k);
    }
    if a.Capture? {
      assert s.log[..|s.log|] == s.log;
    }
    if s'.manifest == 0 {
      assert Counting(s') == map[];
    }
  }

  /** A block decision about `k` is seen as applied, or not at all. */
  lemma SeenAfterDecision(s: State, e: Entry, b: Block, k: Key)
    requires Names(e, k)
    ensures var s' := AfterApply(s, e, b, b.deadline);
            && Seen(s', s'.ring, k) in {None, if e.Blocked? then Some(b) else None}
            && Seen(s', s'.mirror, k) in {None, if e.Blocked? then Some(b) else None}
  {
  }

  lemma ApplyKeepsKnown(s: State, e: Entry, b: Block, mirrored: Option<nat>, k: Key)
    requires Sound(s) && s.pending == Some(e) && ServiceKnown(s, k)
    requires e.Blocked? ==> b == Logged(e) && mirrored == b.deadline
    ensures ServiceKnown(AfterApply(s, e, b, mirrored), k)
  {
    ApplyKeepsDisk(s, e, b, mirrored);
    LoggedAfterApply(s, e, b, mirrored, k);
    if Names(e, k) {
      SeenAfterDecision(s, e, b, k);
    } else {
      SeenAfterOther(s, e, b, mirrored, k);
    }
  }

  lemma SeenAfterTick(s: State, now: nat, schedule: Schedule, k: Key)
    requires s.clock <= now
    ensures Seen(s.(clock := now), schedule, k) in {None, Seen(s, schedule, k)}
  {
  }

  lemma TickKeepsKnown(s: State, now: nat, k: Key)
    requires ServiceKnown(s, k) && s.clock <= now
    ensures ServiceKnown(s.(clock := now), k)
  {
    SeenAfterTick(s, now, s.ring, k);
    SeenAfterTick(s, now, s.mirror, k);
    assert LoggedAt(s.(clock := now), k) == LoggedAt(s, k);
  }

  lemma SameSchedule(x: Schedule, y: Schedule)
    requires CloseSchedules(x, y, 0)
    ensures x == y
  {
    assert forall k :: k in x ==> CloseDeadlines(Scheduled(x, k), Scheduled(y, k), 0);
    assert forall k :: k in y ==> CloseDeadlines(Scheduled(x, k), Scheduled(y, k), 0);
  }

  lemma RefreshKeepsKnown(s: State, k: Key)
    requires ServiceKnown(s, k)
    ensures ServiceKnown(s.(mirror := s.ring), k)
  {
    var s' := s.(mirror := s.ring);
    assert LoggedAt(s', k) == LoggedAt(s, k);
  }

  lemma UnchangedKeepsKnown(s: State, s': State, k: Key)
    requires ServiceKnown(s, k) && Reflected(s') == Reflected(s)
    requires s'.store == s.store && s'.listed == s.listed && s'.born == s.born && s'.ttls == s.ttls && s'.clock == s.clock
    requires s'.ring == s.ring && s'.mirror == s.mirror
    ensures ServiceKnown(s', k)
  {
  }

  /** The service as a recovery without drift leaves it. */
  ghost function Restarted(s: State, c: Clocks): (s': State) {
    var seed, m := BaseAt(s, c.restore), Replayed(s, c);
    AfterRecover(0, s, c, Handed(seed, m, c), Mirrored(seed, m, c))
  }

  /** What the service resumes with about `k`, unless the store has given the record up. */
  lemma SeenAfterRecover(s: State, c: Clocks, k: Key)
    ensures var seed, m, s' := BaseAt(s, c.restore), Replayed(s, c), Restarted(s, c);
            && Seen(s', s'.ring, k) == (if Gone(s', k) then None else Resumed(At(seed, k), At(m, k), c, k, false))
            && Seen(s', s'.mirror, k) == (if Gone(s', k) then None else Resumed(At(seed, k), At(m, k), c, k, true))
  {
    ResumedIs(BaseAt(s, c.restore), Replayed(s, c), c, k);
  }

  /** The log's block of `k` and the replay's, from the position of the snapshot on. */
  lemma ViewsOfLog(s: State, c: Clocks, k: Key)
    requires Sound(s)
    ensures At(FullFold(s.log), k) == ReplayAt(At(FullFold(HeadOf(s)), k), LastOf(TailOf(s), k))
    ensures At(Replayed(s, c), k) == ReplayAt(At(BaseAt(s, c.restore), k), LastOf(TailOf(s), k))
    ensures At(BaseAt(s, c.restore), k) == if Standing(At(Counting(s), k), c.restore) then At(Counting(s), k) else None
  {
    assert HeadOf(s) + TailOf(s) == s.log;
    FoldSplit(map[], HeadOf(s), TailOf(s));
    FoldView(FullFold(HeadOf(s)), TailOf(s), k);
    FoldView(BaseAt(s, c.restore), TailOf(s), k);
  }

  lemma RecoverKeepsKnown(s: State, c: Clocks, k: Key)
    requires Sound(s) && DiskKnown(s, k) && Ordered(s, c)
    ensures ServiceKnown(Restarted(s, c), k)
  {
    var x, m, last := At(Counting(s), k), At(FullFold(HeadOf(s)), k), LastOf(TailOf(s), k);
    ViewsOfLog(s, c, k);
    SeenAfterRecover(s, c, k);
    ResumedKnown(x, m, last, s.clock, c, k, false);
    ResumedKnown(x, m, last, s.clock, c, k, true);
  }

  lemma NextKeepsKnown(a: Act, s: State, s': State, k: Key)
    requires Sound(s) && DiskKnown(s, k) && ServiceKnown(s, k) && Next(0, a, s, s') && s.drift == 0
    ensures ServiceKnown(s', k)
  {
    match a
    case Apply(b, mirrored) => ApplyKeepsKnown(s, s.pending.value, b, mirrored, k);
    case Refresh(mirror) =>
      SameSchedule(mirror, s.ring);
      RefreshKeepsKnown(s, k);
    case Tick(now) => TickKeepsKnown(s, now, k);
    case Recover(c, ring, mirror) =>
      SameSchedule(ring, Handed(BaseAt(s, c.restore), Replayed(s, c), c));
      SameSchedule(mirror, Mirrored(BaseAt(s, c.restore), Replayed(s, c), c));
      RecoverKeepsKnown(s, c, k);
    case _ =>
      assert Reflected(s') == Reflected(s);
      UnchangedKeepsKnown(s, s', k);
  }

  lemma {:induction false} RunKeepsKnown(run: seq<State>, acts: seq<Act>, n: nat, k: Key)
    requires Run(0, run, acts) && run[0].drift == 0 && n < |run|
    ensures Sound(run[n]) && run[n].drift == 0 && DiskKnown(run[n], k) && ServiceKnown(run[n], k)
  {
    AlwaysRecoverable(0, run, acts, n);
    if n > 0 {
      RunKeepsKnown(run, acts, n - 1, k);
      assert StepAt(0, run, acts, n - 1);
      NextGrows(0, acts[n - 1], run[n - 1], run[n]);
      NextKeepsKnown(acts[n - 1], run[n - 1], run[n], k);
      NextKeepsDiskKnown(acts[n - 1], run[n - 1], run[n], k);
    }
  }

  // ----- One recovery against the whole log -----

  /** The tail decides about `k`, or the snapshot that counts follows the log up to its position, or the blocks of both
      are over. */
  ghost predicate PutsRight(s: State, c: Clocks, k: Key) {
    var x, m, t := At(Counting(s), k), At(FullFold(HeadOf(s)), k), ClockFor(c, k);
    LastOf(TailOf(s), k).Some? || Follows(x, m, s.clock, 0) || (!Standing(x, t) && !Standing(m, t))
  }

  /** Recovery from sound files puts in force what the whole log does about `k` if and only if they put it right. */
  lemma RecoverExactIff(s: State, c: Clocks, k: Key)
    requires Sound(s) && Ordered(s, c)
    ensures SameAt(InForce(Replayed(s, c), c), InForce(FullFold(s.log), c), k) <==> PutsRight(s, c, k)
  {
    ViewsOfLog(s, c, k);
    SameIffFollows(At(Counting(s), k), At(FullFold(HeadOf(s)), k), s.clock, ClockFor(c, k));
  }

  // ----- The steps that put a checkpoint out of step -----

  /** After a block decision of the running service a checkpoint finds what the log says if and only if the key is a
      prefix, or an address that the index has and whose record is there, or the block is over at once. */
  lemma ApplyInStepIff(s: State, e: Entry, k: Key)
    requires Sound(s) && s.pending == Some(e) && e.Blocked? && e.key == k && s.drift == 0
    ensures MirrorFollows(0, AfterApply(s, e, Logged(e), Logged(e).deadline), k) <==>
            k.Net? || (k in s.listed && !Gone(s, k)) || !Ahead(Logged(e).deadline, s.clock)
  {
    var s' := AfterApply(s, e, Logged(e), Logged(e).deadline);
    ApplyKeepsDisk(s, e, Logged(e), Logged(e).deadline);
    LoggedAfterApply(s, e, Logged(e), Logged(e).deadline, k);
    SeenAfterListing(s, e, k);
  }

  lemma SeenAfterListing(s: State, e: Entry, k: Key)
    requires e.Blocked? && e.key == k
    ensures var s' := AfterApply(s, e, Logged(e), Logged(e).deadline);
            Seen(s', s'.mirror, k) == if k.Net? || (k in s.listed && !Gone(s, k)) then Some(Logged(e)) else None
  {
  }

  /** Time passing leaves a checkpoint in step unless it is then that the store gives up the record of a block that is
      not over. */
  lemma TickInStepIff(s: State, now: nat, k: Key)
    requires s.drift == 0 && s.clock <= now && MirrorFollows(0, s, k)
    ensures MirrorFollows(0, s.(clock := now), k) <==>
            !(Over(TtlEnd(s, k), now) && Standing(LoggedAt(s, k), now))
  {
    assert LoggedAt(s.(clock := now), k) == LoggedAt(s, k);
  }

  /** A refresh leaves a checkpoint in step unless the scheduler has another deadline for the block than the mirror. */
  lemma RefreshInStepIff(s: State, k: Key)
    requires s.drift == 0 && MirrorFollows(0, s, k)
    ensures MirrorFollows(0, s.(mirror := s.ring), k) <==>
            (Seen(s, s.mirror, k).Some? ==> Scheduled(s.ring, k) == Scheduled(s.mirror, k))
  {
    assert LoggedAt(s.(mirror := s.ring), k) == LoggedAt(s, k);
  }

  /** Resumed from an image that follows the log, by the view of one key. */
  lemma ResumedFollowsIff(x: Option<Block>, m: Option<Block>, tail: seq<Entry>, clock: nat, c: Clocks, seed: Blocks, k: Key,
                          mirror: bool)
    requires Follows(x, m, clock, 0) && clock <= c.restore <= c.ips <= c.nets <= c.rearmIps <= c.rearmNets
    requires At(seed, k) == if Standing(x, c.restore) then x else None
    ensures var last := LastOf(tail, k);
            Follows(Resumed(At(seed, k), ReplayAt(At(seed, k), last), c, k, mirror), ReplayAt(m, last), c.rearmNets, 0)
            <==> !Phantom(seed, tail, c, k) && (!StaleTimer(seed, tail, c, k) || (mirror && k.Net?))
  {
  }

  /** After a recovery from a snapshot that follows the log, a checkpoint finds what the log says if and only if there is
      neither a phantom that the store still holds nor a stale timer of an address. */
  lemma RecoverFollowingIff(s: State, c: Clocks, k: Key)
    requires Sound(s) && s.drift == 0 && Ordered(s, c) && ImageFollows(0, s, Counting(s), s.manifest, k)
    ensures var seed, tail, s' := BaseAt(s, c.restore), TailOf(s), Restarted(s, c);
            MirrorFollows(0, s', k) <==>
            (Phantom(seed, tail, c, k) ==> Gone(s', k)) && (StaleTimer(seed, tail, c, k) ==> k.Net?)
  {
    var seed, tail, s' := BaseAt(s, c.restore), TailOf(s), Restarted(s, c);
    ViewsOfLog(s, c, k);
    SeenAfterRecover(s, c, k);
    ResumedFollowsIff(At(Counting(s), k), At(FullFold(HeadOf(s)), k), tail, s.clock, c, seed, k, true);
    PhantomIs(seed, tail, c, k);
    if Gone(s', k) {
      TtlIsPhantoms(seed, tail, c, k);
    }
  }
}
