/** Runs after which recovery does not put in force what the log does. There is one for every address. */
module CrashExamples {
  import opened BlockLog
  import opened Checkpoint
  import opened RecoveryExact
  import opened CheckpointMachine
  import opened CrashRecovery
  import opened CrashExact
  import opened Values

  // ----- Stretches of a run -----

  /** A run without drift of these steps ends in `s`. */
  ghost predicate ReachedBy(acts: seq<Act>, s: State) {
    exists run: seq<State> :: Run(0, run, acts) && run[0].drift == 0 && run[|acts|] == s
  }

  lemma Extend(acts: seq<Act>, a: Act, s: State, s': State)
    requires ReachedBy(acts, s) && Next(0, a, s, s')
    ensures ReachedBy(acts + [a], s')
  {
    var run: seq<State> :| Run(0, run, acts) && run[0].drift == 0 && run[|acts|] == s;
    forall i | 0 <= i < |acts| + 1 ensures StepAt(0, run + [s'], acts + [a], i) {
      if i < |acts| {
        assert StepAt(0, run, acts, i);
      }
    }
    assert Run(0, run + [s'], acts + [a]);
  }

  ghost function Start(): (s: State) {
    State([], map[], 0, 0, map[], {}, 0, map[], map[], map[], None, Idle, 0, 0)
  }

  lemma StartIsReached()
    ensures ReachedBy([], Start())
  {
    assert Run(0, [Start()], []);
  }

  ghost function Logging(s: State, e: Entry): (s': State) {
    s.(log := s.log + [e], pending := Some(e))
  }

  lemma AppendStep(acts: seq<Act>, s: State, e: Entry)
    requires ReachedBy(acts, s) && s.pending.None?
    ensures ReachedBy(acts + [Append(e)], Logging(s, e))
  {
    Extend(acts, Append(e), s, Logging(s, e));
  }

  /** The service with a block decision logged and applied. */
  ghost function Decided(s: State, e: Entry): (s': State)
    requires e.Blocked?
  {
    AfterApply(Logging(s, e), e, Logged(e), Logged(e).deadline)
  }

  lemma DecideSteps(acts: seq<Act>, s: State, e: Entry)
    requires ReachedBy(acts, s) && s.pending.None? && e.Blocked?
    ensures ReachedBy(acts + [Append(e)] + [Apply(Logged(e), Logged(e).deadline)], Decided(s, e))
  {
    AppendStep(acts, s, e);
    Extend(acts + [Append(e)], Apply(Logged(e), Logged(e).deadline), Logging(s, e), Decided(s, e));
  }

  /** The service with a checkpoint taken. */
  ghost function Finished(s: State): (s': State) {
    s.(files := s.files[|s.log| := Joined(Visible(s), s.mirror)], manifest := |s.log|)
  }

  lemma CheckpointSteps(acts: seq<Act>, s: State)
    requires ReachedBy(acts, s) && s.pending.None? && s.phase.Idle? && s.oldest == 0
    ensures ReachedBy(acts + [Capture] + [Write] + [Finish(0)], Finished(s))
  {
    var image, lsn := Joined(Visible(s), s.mirror), |s.log|;
    var captured := s.(phase := Captured(image, lsn));
    var written := s.(phase := Written(image, lsn), files := s.files[lsn := image]);
    Extend(acts, Capture, s, captured);
    Extend(acts + [Capture], Write, captured, written);
    Extend(acts + [Capture] + [Write], Finish(0), written, Finished(s));
  }

  ghost function RestartAct(s: State, now: nat): (a: Act) {
    var seed, m, c := BaseAt(s, now), Replayed(s, AllAt(now)), AllAt(now);
    Recover(c, Handed(seed, m, c), Mirrored(seed, m, c))
  }

  lemma RestartStep(acts: seq<Act>, s: State, now: nat)
    requires ReachedBy(acts, s) && s.clock <= now
    ensures ReachedBy(acts + [RestartAct(s, now)], Restarted(s, AllAt(now)))
  {
    Extend(acts, RestartAct(s, now), s, Restarted(s, AllAt(now)));
  }

  /** Calm: nothing logged that is not applied, no checkpoint under way. */
  ghost predicate Calm(s: State, log: seq<Entry>, clock: nat) {
    s.log == log && s.pending.None? && s.phase.Idle? && s.oldest == 0 && s.clock == clock && s.drift == 0
  }

  // ----- A block that no snapshot holds -----

  /** An address blocked for good and then checkpointed is not in force after a restart: its block does not enter the
      index that snapshots are built from. */
  lemma LostExample(k: Key, c: Clocks) returns (acts: seq<Act>, s: State)
    requires k.Ip?
    ensures var e := Blocked(k, ManualBlock, None, 0);
            ReachedBy(acts, s) && acts == [Append(e), Apply(Logged(e), None), Capture, Write, Finish(0)]
    ensures k in InForce(FullFold(s.log), c) && k !in InForce(Replayed(s, c), c)
  {
    var e := Blocked(k, ManualBlock, None, 0);
    StartIsReached();
    DecideSteps([], Start(), e);
    CheckpointSteps([] + [Append(e)] + [Apply(Logged(e), None)], Decided(Start(), e));
    acts := [] + [Append(e)] + [Apply(Logged(e), None)] + [Capture] + [Write] + [Finish(0)];
    s := Finished(Decided(Start(), e));
    FoldOne(map[], e);
    assert TailOf(s) == [] && k !in Counting(s);
  }

  // ----- A block that outlives its deadline -----

  ghost function Again(k: Key): (e: Entry) {
    Blocked(k, HighRps, Some(1), 0)
  }

  lemma RestartedIsCalm(s: State, now: nat)
    requires s.oldest == 0 && s.drift == 0
    ensures Calm(Restarted(s, AllAt(now)), s.log, now)
  {
  }

  /** A restart brings a block that the tail alone holds into the index. */
  lemma IndexedResumes(s: State, k: Key, e: Entry)
    requires k.Ip? && s.manifest == 0 && s.log == [e] && e.Blocked? && e.key == k && Ahead(Logged(e).deadline, 0)
    ensures Seen(Restarted(s, AllAt(0)), Restarted(s, AllAt(0)).mirror, k) == Some(Logged(e))
  {
    assert TailOf(s) == [e] && Counting(s) == map[];
    FoldView(BaseAt(s, 0), [e], k);
    SeenAfterRecover(s, AllAt(0), k);
  }

  /** Blocked, and restarted at once, which puts the address in the index. */
  lemma IndexedRun(k: Key, e: Entry) returns (acts: seq<Act>, s: State)
    requires k.Ip? && e.Blocked? && e.key == k && Ahead(Logged(e).deadline, 0)
    ensures ReachedBy(acts, s) && |acts| == 3 && Calm(s, [e], 0) && Seen(s, s.mirror, k) == Some(Logged(e))
  {
    var s0 := Decided(Start(), e);
    StartIsReached();
    DecideSteps([], Start(), e);
    acts := [] + [Append(e)] + [Apply(Logged(e), Logged(e).deadline)];
    ApplyKeepsDisk(Logging(Start(), e), e, Logged(e), Logged(e).deadline);
    RestartStep(acts, s0, 0);
    RestartedIsCalm(s0, 0);
    IndexedResumes(s0, k, e);
    acts, s := acts + [RestartAct(s0, 0)], Restarted(s0, AllAt(0));
  }

  /** A block in the snapshot outlives one of one second in the tail. */
  lemma OvertakenResumes(s: State, k: Key, b: Block, now: nat)
    requires k.Ip? && TailOf(s) == [Again(k)] && At(Counting(s), k) == Some(b) && Ahead(b.deadline, now) && NS_PER_SEC <= now
    ensures var s' := Restarted(s, AllAt(now));
            Seen(s', s'.mirror, k) == if Gone(s', k) then None else Some(b)
  {
    FoldView(BaseAt(s, now), [Again(k)], k);
    SeenAfterRecover(s, AllAt(now), k);
  }

  /** Its record is in the index, and has a time to live if the block has a deadline. */
  lemma OvertakenLives(s: State, k: Key, b: Block, now: nat)
    requires k.Ip? && TailOf(s) == [Again(k)] && At(Counting(s), k) == Some(b) && Ahead(b.deadline, now) && NS_PER_SEC <= now
    ensures var s' := Restarted(s, AllAt(now));
            && k in s'.listed && !Gone(s', k)
            && (b.deadline.Some? ==> k in s'.ttls && TtlEnd(s', k).value < b.deadline.value + NS_PER_SEC)
  {
    FoldView(BaseAt(s, now), [Again(k)], k);
    if b.deadline.Some? {
      RoundedTtl(b.deadline.value, now);
    }
  }

  /** Then checkpointed, blocked again for one second, and restarted later. */
  lemma OvertakenRun(k: Key, e: Entry, now: nat) returns (acts: seq<Act>, s: State)
    requires k.Ip? && e.Blocked? && e.key == k && Ahead(Logged(e).deadline, now) && NS_PER_SEC <= now
    ensures ReachedBy(acts, s) && |acts| == 8 && Calm(s, [e, Again(k)], now)
    ensures Seen(s, s.mirror, k) == Some(Logged(e)) && k in s.listed
    ensures Logged(e).deadline.Some? ==> k in s.ttls && TtlEnd(s, k).value < Logged(e).deadline.value + NS_PER_SEC
  {
    acts, s := IndexedRun(k, e);
    CheckpointSteps(acts, s);
    acts := acts + [Capture] + [Write] + [Finish(0)];
    AppendStep(acts, Finished(s), Again(k));
    acts := acts + [Append(Again(k))];
    OvertakenFrom(s, k, e);
    s := Logging(Finished(s), Again(k));
    RestartStep(acts, s, now);
    RestartedIsCalm(s, now);
    OvertakenResumes(s, k, Logged(e), now);
    OvertakenLives(s, k, Logged(e), now);
    acts, s := acts + [RestartAct(s, now)], Restarted(s, AllAt(now));
  }

  lemma OvertakenFrom(s: State, k: Key, e: Entry)
    requires s.log == [e] && e.Blocked? && Seen(s, s.mirror, k) == Some(Logged(e))
    ensures var s' := Logging(Finished(s), Again(k));
            s'.log == [e, Again(k)] && TailOf(s') == [Again(k)] && At(Counting(s'), k) == Some(Logged(e))
  {
  }

  lemma LeftoverEnds(s: State, k: Key, c: Clocks)
    requires s.log == [Blocked(k, ManualBlock, None, 0), Again(k)] && k.Ip? && c.ips >= c.restore >= 5 * NS_PER_SEC
    requires Seen(s, s.mirror, k) == Some(Block(ManualBlock, 0, None))
    ensures k in InForce(Replayed(Finished(s), c), c) && k !in InForce(FullFold(Finished(s).log), c)
  {
    assert TailOf(Finished(s)) == [];
    FoldView(map[], s.log, k);
  }

  /** An address blocked for good, in a snapshot, then blocked for one second and recovered five seconds later: the next
      snapshot has it blocked for good, and a restart from that one blocks it, though the log has its block expired. */
  lemma LeftoverExample(k: Key, c: Clocks) returns (acts: seq<Act>, s: State)
    requires k.Ip? && c.ips >= c.restore >= 5 * NS_PER_SEC
    ensures ReachedBy(acts, s) && |acts| == 11
    ensures k in InForce(Replayed(s, c), c) && k !in InForce(FullFold(s.log), c)
  {
    acts, s := OvertakenRun(k, Blocked(k, ManualBlock, None, 0), 5 * NS_PER_SEC);
    LeftoverEnds(s, k, c);
    CheckpointSteps(acts, s);
    acts, s := acts + [Capture] + [Write] + [Finish(0)], Finished(s);
  }

  // ----- A block that the store forgets -----

  /** A block decision leaves the record its time to live; when that is over the record is gone. */
  lemma ForgottenEnds(s: State, k: Key, c: Clocks)
    requires k.Ip? && s.pending.None? && k in s.ttls && TtlEnd(s, k).value < 11 * NS_PER_SEC && s.clock == 5 * NS_PER_SEC
    ensures var e := Blocked(k, ManualBlock, None, 5 * NS_PER_SEC);
            var s' := Finished(Decided(s, e).(clock := 11 * NS_PER_SEC));
            k in InForce(FullFold(s'.log), c) && k !in InForce(Replayed(s', c), c)
  {
    var e := Blocked(k, ManualBlock, None, 5 * NS_PER_SEC);
    var s' := Finished(Decided(s, e).(clock := 11 * NS_PER_SEC));
    assert s'.log == s.log + [e] && TailOf(s') == [];
    FoldView(map[], s'.log, k);
  }

  /** An address blocked for ten seconds, in a snapshot, then blocked for one second, recovered five seconds later and
      blocked for good: the store gives its record up after the ten seconds, and the next snapshot lacks it. */
  lemma ForgottenExample(k: Key, c: Clocks) returns (acts: seq<Act>, s: State)
    requires k.Ip?
    ensures ReachedBy(acts, s) && |acts| == 14
    ensures k in InForce(FullFold(s.log), c) && k !in InForce(Replayed(s, c), c)
  {
    var e, d := Blocked(k, ManualBlock, None, 5 * NS_PER_SEC), Blocked(k, ManualBlock, Some(10), 0);
    assert Logged(d).deadline == Some(10 * NS_PER_SEC);
    acts, s := OvertakenRun(k, d, 5 * NS_PER_SEC);
    ForgottenEnds(s, k, c);
    DecideSteps(acts, s, e);
    acts, s := acts + [Append(e)] + [Apply(Logged(e), None)], Decided(s, e);
    Extend(acts, Tick(11 * NS_PER_SEC), s, s.(clock := 11 * NS_PER_SEC));
    acts, s := acts + [Tick(11 * NS_PER_SEC)], s.(clock := 11 * NS_PER_SEC);
    CheckpointSteps(acts, s);
    acts, s := acts + [Capture] + [Write] + [Finish(0)], Finished(s);
  }

  // ----- A permanent block of a prefix that gets a deadline -----

  /** Blocked for ten seconds, then for good. */
  ghost function Briefly(k: Key): (e: Entry) {
    Blocked(k, ManualBlock, Some(10), 0)
  }

  ghost function ForGood(k: Key): (e: Entry) {
    Blocked(k, ManualBlock, None, 0)
  }

  lemma BrieflySeen(s: State, k: Key)
    requires k.Net? && k !in s.ttls
    ensures Seen(Decided(s, Briefly(k)), Decided(s, Briefly(k)).mirror, k) == Some(Block(ManualBlock, 0, Some(10 * NS_PER_SEC)))
  {
  }

  /** The scheduler of a restarted service has the snapshot's deadline for a block that the tail made permanent. */
  lemma LimitedResumes(s: State, k: Key)
    requires k.Net? && TailOf(s) == [ForGood(k)] && At(Counting(s), k) == Some(Block(ManualBlock, 0, Some(10 * NS_PER_SEC)))
    ensures var s' := Restarted(s, AllAt(6 * NS_PER_SEC));
            Seen(s', s'.ring, k) == Some(Block(ManualBlock, 0, Some(10 * NS_PER_SEC)))
  {
    FoldView(BaseAt(s, 6 * NS_PER_SEC), [ForGood(k)], k);
    SeenAfterRecover(s, AllAt(6 * NS_PER_SEC), k);
  }

  lemma LimitedEnds(s: State, k: Key, c: Clocks)
    requires s.log == [Briefly(k), ForGood(k)] && k.Net? && c.restore >= 10 * NS_PER_SEC
    requires Seen(s, s.mirror, k) == Some(Block(ManualBlock, 0, Some(10 * NS_PER_SEC)))
    ensures k in InForce(FullFold(Finished(s).log), c) && k !in InForce(Replayed(Finished(s), c), c)
  {
    assert TailOf(Finished(s)) == [];
    SeenIsCaptured(s, s.mirror, k);
    FoldView(map[], s.log, k);
  }

  /** The decisions, a checkpoint between them, and a restart at six seconds. */
  lemma LimitedRun(k: Key) returns (acts: seq<Act>, s: State)
    requires k.Net?
    ensures ReachedBy(acts, s) && |acts| == 8 && Calm(s, [Briefly(k), ForGood(k)], 6 * NS_PER_SEC)
    ensures Seen(s, s.ring, k) == Some(Block(ManualBlock, 0, Some(10 * NS_PER_SEC)))
  {
    StartIsReached();
    DecideSteps([], Start(), Briefly(k));
    acts, s := [] + [Append(Briefly(k))] + [Apply(Logged(Briefly(k)), Logged(Briefly(k)).deadline)], Decided(Start(), Briefly(k));
    ApplyKeepsDisk(Logging(Start(), Briefly(k)), Briefly(k), Logged(Briefly(k)), Logged(Briefly(k)).deadline);
    BrieflySeen(Start(), k);
    CheckpointSteps(acts, s);
    LimitedFrom(s, k);
    acts, s := acts + [Capture] + [Write] + [Finish(0)], Finished(s);
    DecideSteps(acts, s, ForGood(k));
    acts, s := acts + [Append(ForGood(k))] + [Apply(Logged(ForGood(k)), None)], Decided(s, ForGood(k));
    RestartStep(acts, s, 6 * NS_PER_SEC);
    LimitedResumes(s, k);
    RestartedIsCalm(s, 6 * NS_PER_SEC);
    acts, s := acts + [RestartAct(s, 6 * NS_PER_SEC)], Restarted(s, AllAt(6 * NS_PER_SEC));
  }

  lemma LimitedFrom(s: State, k: Key)
    requires Calm(s, [Briefly(k)], 0) && Seen(s, s.mirror, k) == Some(Block(ManualBlock, 0, Some(10 * NS_PER_SEC)))
    ensures var s' := Decided(Finished(s), ForGood(k));
            && s'.log == [Briefly(k), ForGood(k)] && TailOf(s') == [ForGood(k)] && s'.clock == 0 && s'.oldest == 0 && s'.drift == 0
            && At(Counting(s'), k) == Some(Block(ManualBlock, 0, Some(10 * NS_PER_SEC)))
  {
    SeenIsCaptured(s, s.mirror, k);
    ApplyKeepsDisk(Logging(Finished(s), ForGood(k)), ForGood(k), Logged(ForGood(k)), None);
  }

  /** A prefix blocked for ten seconds, in a snapshot, then for good, and recovered at six seconds: the mirror is right
      until the next refresh, the snapshot after that has the ten seconds, and a restart after them does not block it. */
  lemma LimitedExample(k: Key, c: Clocks) returns (acts: seq<Act>, s: State)
    requires k.Net? && c.restore >= 10 * NS_PER_SEC
    ensures ReachedBy(acts, s) && |acts| == 12 && acts[8].Refresh?
    ensures k in InForce(FullFold(s.log), c) && k !in InForce(Replayed(s, c), c)
  {
    acts, s := LimitedRun(k);
    Extend(acts, Refresh(s.ring), s, s.(mirror := s.ring));
    acts, s := acts + [Refresh(s.ring)], s.(mirror := s.ring);
    LimitedEnds(s, k, c);
    CheckpointSteps(acts, s);
    acts, s := acts + [Capture] + [Write] + [Finish(0)], Finished(s);
  }
}
