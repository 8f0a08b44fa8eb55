/** Without drift: when exactly a crash loses nothing, told from what the steps of the run did. */
module CrashHistory {
  import opened BlockLog
  import opened Checkpoint
  import opened RecoveryExact
  import opened CheckpointMachine
  import opened CrashRecovery
  import opened CrashExact
  import opened Values

  // ----- Between two steps about a key -----

  /** All that the service and the log have about one key, but for the mirror. */
  datatype Holding = Holding(stored: Option<Stored>, listed: bool, ttl: Option<nat>, armed: Option<nat>, logged: Option<Block>)

  ghost function HoldingAt(s: State, k: Key): (h: Holding) {
    Holding(if k in s.store then Some(s.store[k]) else None, k in s.listed, TtlEnd(s, k), Scheduled(s.ring, k),
            LoggedAt(s, k))
  }

  /** What a checkpoint finds, given the deadline in the mirror. */
  ghost function SeenIn(h: Holding, deadline: Option<nat>, clock: nat, k: Key): (r: Option<Block>) {
    if h.stored.Some? && (k.Net? || h.listed) && !Over(h.ttl, clock) then
      Some(h.stored.value.(deadline := deadline))
    else None
  }

  lemma SeenIsHeld(s: State, schedule: Schedule, k: Key)
    ensures Seen(s, schedule, k) == SeenIn(HoldingAt(s, k), Scheduled(schedule, k), s.clock, k)
    ensures Gone(s, k) <==> Over(HoldingAt(s, k).ttl, s.clock)
  {
  }

  lemma AppendHolds(s: State, e: Entry, k: Key)
    requires s.pending.None?
    ensures HoldingAt(s.(log := s.log + [e], pending := Some(e)), k) == HoldingAt(s, k)
  {
    assert Reflected(s.(log := s.log + [e], pending := Some(e))) == s.log;
  }

  lemma ApplyHolds(s: State, e: Entry, b: Block, mirrored: Option<nat>, k: Key)
    requires Sound(s) && s.pending == Some(e) && !Names(e, k)
    ensures var s' := AfterApply(s, e, b, mirrored);
            HoldingAt(s', k) == HoldingAt(s, k) && Scheduled(s'.mirror, k) == Scheduled(s.mirror, k)
  {
    LoggedAfterApply(s, e, b, mirrored, k);
  }

  lemma CheckpointHolds(s: State, s': State, k: Key)
    requires s' == s.(phase := s'.phase, files := s'.files, manifest := s'.manifest, oldest := s'.oldest, clock := s'.clock,
                      mirror := s'.mirror)
    ensures HoldingAt(s', k) == HoldingAt(s, k)
  {
    assert Reflected(s') == Reflected(s);
  }

  /** A step that does not concern `k` changes nothing about it, but a refresh the mirror. */
  lemma NextHolds(a: Act, s: State, s': State, k: Key)
    requires Sound(s) && Next(0, a, s, s') && !Concerns(a, s, k)
    ensures HoldingAt(s', k) == HoldingAt(s, k)
    ensures Scheduled(s'.mirror, k) == if a.Refresh? then Scheduled(s.ring, k) else Scheduled(s.mirror, k)
  {
    match a
    case Append(e) => AppendHolds(s, e, k);
    case Apply(b, mirrored) => ApplyHolds(s, s.pending.value, b, mirrored, k);
    case Refresh(mirror) =>
      CheckpointHolds(s, s', k);
      assert CloseDeadlines(Scheduled(mirror, k), Scheduled(s.ring, k), 0);
    case _ => CheckpointHolds(s, s', k);
  }

  /** Whether a refresh is among the steps from `i` up to `n`. */
  ghost predicate RefreshedIn(acts: seq<Act>, i: nat, n: nat)
    requires n <= |acts|
  {
    i < n && (acts[n - 1].Refresh? || RefreshedIn(acts, i, n - 1))
  }

  /** `s` has about `k` what `past` had, but for a refresh of the mirror. */
  ghost predicate Held(past: State, s: State, refreshed: bool, k: Key) {
    && HoldingAt(s, k) == HoldingAt(past, k) && past.clock <= s.clock
    && Scheduled(s.mirror, k) == if refreshed then Scheduled(past.ring, k) else Scheduled(past.mirror, k)
  }

  lemma HeldNext(past: State, s: State, s': State, refreshed: bool, a: Act, k: Key)
    requires Held(past, s, refreshed, k) && Sound(s) && Next(0, a, s, s') && !Concerns(a, s, k)
    ensures Held(past, s', refreshed || a.Refresh?, k)
  {
    NextHolds(a, s, s', k);
    NextGrows(0, a, s, s');
  }

  /** Since the last step that concerns `k` nothing has changed about it, but for a refresh of the mirror. */
  lemma {:induction false} HeldSince(run: seq<State>, acts: seq<Act>, n: nat, k: Key)
    requires Run(0, run, acts) && n < |run|
    ensures var i := Since(run, acts, n, k);
            Held(run[i], run[n], RefreshedIn(acts, i, n), k)
  {
    if n > 0 && !Concerns(acts[n - 1], run[n - 1], k) {
      HeldSince(run, acts, n - 1, k);
      AlwaysRecoverable(0, run, acts, n - 1);
      HeldStep(run, acts, Since(run, acts, n, k), n - 1, RefreshedIn(acts, Since(run, acts, n, k), n - 1), k);
    }
  }

  lemma HeldStep(run: seq<State>, acts: seq<Act>, i: nat, n: nat, refreshed: bool, k: Key)
    requires Run(0, run, acts) && i <= n < |acts| && Sound(run[n]) && !Concerns(acts[n], run[n], k)
    requires Held(run[i], run[n], refreshed, k)
    ensures Held(run[i], run[n + 1], refreshed || acts[n].Refresh?, k)
  {
    assert StepAt(0, run, acts, n);
    HeldNext(run[i], run[n], run[n + 1], refreshed, acts[n], k);
  }

  /** So what a checkpoint finds is what it would have found then, unless the store has given the record up. */
  lemma HeldIsSeen(past: State, s: State, refreshed: bool, k: Key)
    requires Held(past, s, refreshed, k)
    ensures LoggedAt(s, k) == LoggedAt(past, k)
    ensures Seen(s, s.mirror, k) ==
            if Over(TtlEnd(past, k), s.clock) then None
            else Seen(past, if refreshed then past.ring else past.mirror, k)
  {
    SeenIsHeld(s, s.mirror, k);
    SeenIsHeld(past, if refreshed then past.ring else past.mirror, k);
  }

  // ----- The exact condition -----

  /** Since the decision `e`, applied in `s`: it is a release, or its block is over, or it is about a prefix, or the index
      had the address and the store does not give its record up before `clock`. */
  ghost predicate RightSinceDecision(s: State, e: Entry, clock: nat, k: Key) {
    e.Blocked? ==>
      || !Ahead(DeadlineOf(e.ttl, e.ts), clock)
      || k.Net?
      || (k in s.listed && !Over(TtlEnd(s, k), clock))
  }

  /** The store has given up a record that was restored with a time to live. */
  ghost predicate RestoredIsOver(x: Option<Block>, c: Clocks, clock: nat) {
    && x.Some? && x.value.deadline.Some?
    && c.restore + RemainingSecs(x.value.deadline.value, c.restore) * NS_PER_SEC < clock
  }

  /** Since a recovery, from the snapshot's block `x` and the log's `m` up to the snapshot. If the tail decided about `k`: no
      phantom that the store still holds, and no stale timer that reached the mirror. If it did not: the snapshot's
      block, as far as it was taken up and is still there, is the log's. */
  ghost predicate RightSinceRecovery(x: Option<Block>, m: Option<Block>, seed: Blocks, tail: seq<Entry>, c: Clocks,
                                     clock: nat, refreshed: bool, k: Key) {
    if LastOf(tail, k).Some? then
      && (Phantom(seed, tail, c, k) ==> RestoredIsOver(x, c, clock))
      && (StaleTimer(seed, tail, c, k) ==> k.Net? && !refreshed)
    else if Standing(x, ClockFor(c, k)) then x == m
    else if k.Ip? && Standing(x, c.restore) && !RestoredIsOver(x, c, clock) then Some(x.value.(deadline := None)) == m
    else !Standing(m, clock)
  }

  /** The same of a recovery in state `s`. */
  ghost predicate RightSinceRestart(s: State, c: Clocks, clock: nat, refreshed: bool, k: Key) {
    RightSinceRecovery(At(Counting(s), k), At(FullFold(HeadOf(s)), k), BaseAt(s, c.restore), TailOf(s), c, clock, refreshed, k)
  }

  /** What the last step about `k` among the first `n` tells. */
  ghost predicate RightBy(run: seq<State>, acts: seq<Act>, n: nat, k: Key)
    requires n <= |acts| && |run| == |acts| + 1
  {
    var i := Since(run, acts, n, k);
    i > 0 ==>
      match acts[i - 1]
      case Recover(c, _, _) => RightSinceRestart(run[i - 1], c, run[n].clock, RefreshedIn(acts, i, n), k)
      case _ => run[i - 1].pending.Some? ==> RightSinceDecision(run[i - 1], run[i - 1].pending.value, run[n].clock, k)
  }

  /** What a decision about `k` leaves a checkpoint to find. */
  lemma SeenAfterDeciding(s: State, e: Entry, b: Block, mirrored: Option<nat>, k: Key)
    requires Names(e, k) && (e.Blocked? ==> b == Logged(e) && mirrored == b.deadline)
    ensures var s' := AfterApply(s, e, b, mirrored);
            && TtlEnd(s', k) == (if e.Blocked? && !Gone(s, k) then TtlEnd(s, k) else None)
            && Seen(s', s'.ring, k) == Seen(s', s'.mirror, k)
            && Seen(s', s'.mirror, k) == if e.Blocked? && (k.Net? || (k in s.listed && !Gone(s, k))) then Some(Logged(e)) else None
  {
  }

  lemma DecisionIff(s: State, e: Entry, b: Block, mirrored: Option<nat>, s': State, refreshed: bool, k: Key)
    requires Sound(s) && s.pending == Some(e) && Names(e, k) && (k.Net? ==> k !in s.ttls) && s'.drift == 0
    requires e.Blocked? ==> b == Logged(e) && mirrored == b.deadline
    requires Held(AfterApply(s, e, b, mirrored), s', refreshed, k)
    ensures MirrorFollows(0, s', k) <==> RightSinceDecision(s, e, s'.clock, k)
  {
    SeenAfterDeciding(s, e, b, mirrored, k);
    ApplyKeepsDisk(s, e, b, mirrored);
    LoggedAfterApply(s, e, b, mirrored, k);
    HeldIsSeen(AfterApply(s, e, b, mirrored), s', refreshed, k);
  }

  /** The view of one key after a recovery follows the log's if and only if the condition holds. */
  lemma ResumedRightIff(x: Option<Block>, m: Option<Block>, seed: Blocks, tail: seq<Entry>, c: Clocks, clock: nat,
                        refreshed: bool, k: Key)
    requires c.restore <= c.ips <= c.nets <= c.rearmIps <= c.rearmNets <= clock
    requires At(seed, k) == if Standing(x, c.restore) then x else None
    ensures var last := LastOf(tail, k);
            var seen := if Phantom(seed, tail, c, k) && RestoredIsOver(x, c, clock) then None
                        else Resumed(At(seed, k), ReplayAt(At(seed, k), last), c, k, !refreshed);
            Follows(seen, ReplayAt(m, last), clock, 0) <==> RightSinceRecovery(x, m, seed, tail, c, clock, refreshed, k)
  {
  }

  lemma TtlAfterRecover(s: State, c: Clocks, ring: Schedule, mirror: Schedule, clock: nat, k: Key)
    requires Sound(s)
    ensures Over(TtlEnd(AfterRecover(0, s, c, ring, mirror), k), clock) <==>
            Phantom(BaseAt(s, c.restore), TailOf(s), c, k) && RestoredIsOver(At(Counting(s), k), c, clock)
  {
    PhantomIs(BaseAt(s, c.restore), TailOf(s), c, k);
    ViewsOfLog(s, c, k);
  }

  lemma RecoveryIff(s: State, c: Clocks, s': State, refreshed: bool, k: Key)
    requires Sound(s) && Ordered(s, c) && s'.drift == 0 && Held(Restarted(s, c), s', refreshed, k)
    ensures MirrorFollows(0, s', k) <==> RightSinceRestart(s, c, s'.clock, refreshed, k)
  {
    var seed, tail, s1 := BaseAt(s, c.restore), TailOf(s), Restarted(s, c);
    ViewsOfLog(s, c, k);
    SeenAfterRecover(s, c, k);
    HeldIsSeen(s1, s', refreshed, k);
    TtlAfterRecover(s, c, s1.ring, s1.mirror, s'.clock, k);
    ResumedRightIff(At(Counting(s), k), At(FullFold(HeadOf(s)), k), seed, tail, c, s'.clock, refreshed, k);
  }

  // ----- Over all runs -----

  lemma {:induction false} NoDrift(run: seq<State>, acts: seq<Act>, n: nat)
    requires Run(0, run, acts) && run[0].drift == 0 && n < |run|
    ensures run[n].drift == 0
  {
    if n > 0 {
      NoDrift(run, acts, n - 1);
      assert StepAt(0, run, acts, n - 1);
      NextGrows(0, acts[n - 1], run[n - 1], run[n]);
    }
  }

  lemma NothingIff(s: State, s': State, refreshed: bool, k: Key)
    requires Init(s) && Held(s, s', refreshed, k)
    ensures MirrorFollows(0, s', k)
  {
    HeldIsSeen(s, s', refreshed, k);
  }

  lemma DecidedIff(a: Act, s: State, s1: State, s': State, refreshed: bool, k: Key)
    requires Sound(s) && s.drift == 0 && Next(0, a, s, s1) && a.Apply? && Concerns(a, s, k) && (k.Net? ==> k !in s.ttls)
    requires Held(s1, s', refreshed, k) && s'.drift == 0
    ensures MirrorFollows(0, s', k) <==> RightSinceDecision(s, s.pending.value, s'.clock, k)
  {
    DecisionIff(s, s.pending.value, a.b, a.mirrored, s', refreshed, k);
  }

  lemma RecoveredIff(a: Act, s: State, s1: State, s': State, refreshed: bool, k: Key)
    requires Sound(s) && Next(0, a, s, s1) && a.Recover?
    requires Held(s1, s', refreshed, k) && s'.drift == 0
    ensures MirrorFollows(0, s', k) <==> RightSinceRestart(s, a.clocks, s'.clock, refreshed, k)
  {
    SameSchedule(a.ring, Handed(BaseAt(s, a.clocks.restore), Replayed(s, a.clocks), a.clocks));
    SameSchedule(a.mirror, Mirrored(BaseAt(s, a.clocks.restore), Replayed(s, a.clocks), a.clocks));
    RecoveryIff(s, a.clocks, s', refreshed, k);
  }

  lemma RightByDecision(run: seq<State>, acts: seq<Act>, i: nat, n: nat, refreshed: bool, k: Key)
    requires Run(0, run, acts) && run[0].drift == 0 && 0 < i <= n < |run| && Held(run[i], run[n], refreshed, k)
    requires acts[i - 1].Apply? && Concerns(acts[i - 1], run[i - 1], k)
    ensures MirrorFollows(0, run[n], k) <==> RightSinceDecision(run[i - 1], run[i - 1].pending.value, run[n].clock, k)
  {
    NoDrift(run, acts, n);
    NoDrift(run, acts, i - 1);
    AlwaysRecoverable(0, run, acts, i - 1);
    if k.Net? {
      PrefixHasNoTtl(0, run, acts, i - 1, k);
    }
    assert StepAt(0, run, acts, i - 1);
    DecidedIff(acts[i - 1], run[i - 1], run[i], run[n], refreshed, k);
  }

  lemma RightByRecovery(run: seq<State>, acts: seq<Act>, i: nat, n: nat, refreshed: bool, k: Key)
    requires Run(0, run, acts) && run[0].drift == 0 && 0 < i <= n < |run| && Held(run[i], run[n], refreshed, k)
    requires acts[i - 1].Recover?
    ensures MirrorFollows(0, run[n], k) <==> RightSinceRestart(run[i - 1], acts[i - 1].clocks, run[n].clock, refreshed, k)
  {
    NoDrift(run, acts, n);
    AlwaysRecoverable(0, run, acts, i - 1);
    assert StepAt(0, run, acts, i - 1);
    RecoveredIff(acts[i - 1], run[i - 1], run[i], run[n], refreshed, k);
  }

  /** After any step of any run a checkpoint finds what the log says about `k` if and only if the last step about `k` tells
      so. */
  lemma RightByIff(run: seq<State>, acts: seq<Act>, n: nat, k: Key)
    requires Run(0, run, acts) && run[0].drift == 0 && n < |run|
    ensures MirrorFollows(0, run[n], k) <==> RightBy(run, acts, n, k)
  {
    var i := Since(run, acts, n, k);
    HeldSince(run, acts, n, k);
    if i == 0 {
      NothingIff(run[0], run[n], RefreshedIn(acts, i, n), k);
    } else if acts[i - 1].Recover? {
      RightByRecovery(run, acts, i, n, RefreshedIn(acts, i, n), k);
    } else {
      RightByDecision(run, acts, i, n, RefreshedIn(acts, i, n), k);
    }
  }

  /** Where the snapshot that counts was captured; at the start, if there is none. */
  lemma CountingWasSeen(run: seq<State>, acts: seq<Act>, n: nat) returns (i: nat)
    requires Run(0, run, acts) && n < |run|
    ensures i <= n && run[i].log == HeadOf(run[n]) && run[i].clock <= run[n].clock && Reflected(run[i]) == run[i].log
    ensures run[n].manifest > 0 ==> i < n && acts[i].Capture?
    ensures forall k :: At(Counting(run[n]), k) == Seen(run[i], run[i].mirror, k)
  {
    AlwaysRecoverable(0, run, acts, n);
    i := 0;
    if run[n].manifest > 0 {
      CaptureOfCounting(0, run, acts, n);
      i :| i < n && CapturedAt(run, acts, i, Counting(run[n]), run[n].manifest);
    }
    RunGrows(0, run, acts, i, n);
    forall k ensures At(Counting(run[n]), k) == Seen(run[i], run[i].mirror, k) {
      SeenIsCaptured(run[i], run[i].mirror, k);
    }
  }

  /** For the crash after `n` steps and the snapshot captured after `i`: the tail decides about `k`, or the last step about
      `k` before the capture had left the service right, or the blocks that were captured and logged are over. */
  ghost predicate RecoversRight(run: seq<State>, acts: seq<Act>, i: nat, n: nat, c: Clocks, k: Key)
    requires i <= n <= |acts| && |run| == |acts| + 1
  {
    || LastOf(TailOf(run[n]), k).Some?
    || RightBy(run, acts, i, k)
    || (!Standing(Seen(run[i], run[i].mirror, k), ClockFor(c, k)) && !Standing(LoggedAt(run[i], k), ClockFor(c, k)))
  }

  lemma FollowsAtCapture(x: Option<Block>, m: Option<Block>, clock: nat, later: nat, now: nat)
    requires clock <= later <= now
    ensures Follows(x, m, later, 0) || (!Standing(x, now) && !Standing(m, now))
            <==> Follows(x, m, clock, 0) || (!Standing(x, now) && !Standing(m, now))
  {
    SameIffFollows(x, m, clock, now);
    SameIffFollows(x, m, later, now);
  }

  lemma CapturedIff(run: seq<State>, acts: seq<Act>, i: nat, n: nat, c: Clocks, k: Key)
    requires Run(0, run, acts) && run[0].drift == 0 && i <= n < |run| && Ordered(run[n], c)
    requires run[i].log == HeadOf(run[n]) && run[i].clock <= run[n].clock && Reflected(run[i]) == run[i].log
    requires At(Counting(run[n]), k) == Seen(run[i], run[i].mirror, k)
    ensures SameAt(InForce(Replayed(run[n], c), c), InForce(FullFold(run[n].log), c), k) <==> RecoversRight(run, acts, i, n, c, k)
  {
    AlwaysRecoverable(0, run, acts, n);
    RecoverExactIff(run[n], c, k);
    FollowsAtCapture(Seen(run[i], run[i].mirror, k), LoggedAt(run[i], k), run[i].clock, run[n].clock, ClockFor(c, k));
    NoDrift(run, acts, i);
    RightByIff(run, acts, i, k);
  }

  /** A crash after any step of any run: recovery puts in force what the whole log does about `k` if and only if the steps
      of the run recover right. */
  lemma CrashExactIff(run: seq<State>, acts: seq<Act>, n: nat, c: Clocks, k: Key) returns (i: nat)
    requires Run(0, run, acts) && run[0].drift == 0 && n < |run| && Ordered(run[n], c)
    ensures i <= n && run[i].log == HeadOf(run[n]) && (run[n].manifest > 0 ==> i < n && acts[i].Capture?)
    ensures SameAt(InForce(Replayed(run[n], c), c), InForce(FullFold(run[n].log), c), k) <==> RecoversRight(run, acts, i, n, c, k)
  {
    i := CountingWasSeen(run, acts, n);
    CapturedIff(run, acts, i, n, c, k);
  }

  lemma SameEverywhere(x: Blocks, y: Blocks)
    requires forall k :: SameAt(x, y, k)
    ensures x == y
  {
    assert forall k :: k in x ==> SameAt(x, y, k);
    assert forall k :: k in y ==> SameAt(x, y, k);
  }

  /** All keys at once. */
  lemma CrashIsExactIff(run: seq<State>, acts: seq<Act>, n: nat, c: Clocks) returns (i: nat)
    requires Run(0, run, acts) && run[0].drift == 0 && n < |run| && Ordered(run[n], c)
    ensures i <= n && run[i].log == HeadOf(run[n]) && (run[n].manifest > 0 ==> i < n && acts[i].Capture?)
    ensures InForce(Replayed(run[n], c), c) == InForce(FullFold(run[n].log), c)
            <==> forall k :: RecoversRight(run, acts, i, n, c, k)
  {
    i := CountingWasSeen(run, acts, n);
    var got, want := InForce(Replayed(run[n], c), c), InForce(FullFold(run[n].log), c);
    forall k: Key ensures SameAt(got, want, k) <==> RecoversRight(run, acts, i, n, c, k) {
      CapturedIff(run, acts, i, n, c, k);
    }
    if forall k :: RecoversRight(run, acts, i, n, c, k) {
      forall k: Key ensures SameAt(got, want, k) {
        assert RecoversRight(run, acts, i, n, c, k);
      }
      SameEverywhere(got, want);
    }
  }

  // ----- Single recoveries -----

  /** After a recovery from any sound files a checkpoint finds what the log says about `k` if and only if the condition
      holds. */
  lemma RecoverInStepIff(s: State, c: Clocks, k: Key)
    requires Sound(s) && Ordered(s, c) && s.drift == 0
    ensures MirrorFollows(0, Restarted(s, c), k) <==> RightSinceRestart(s, c, c.rearmNets, false, k)
  {
    RecoveryIff(s, c, Restarted(s, c), false, k);
  }

  /** A snapshot that followed the log and that the tail is silent about leaves a checkpoint in step, at all later
      clocks, unless its block lapsed on its own and the store still holds it. */
  lemma SilentRecoveryIff(x: Option<Block>, m: Option<Block>, seed: Blocks, tail: seq<Entry>, c: Clocks, past: nat,
                          clock: nat, refreshed: bool, k: Key)
    requires Follows(x, m, past, 0) && past <= c.restore <= c.ips <= c.nets <= c.rearmIps <= c.rearmNets <= clock
    requires At(seed, k) == (if Standing(x, c.restore) then x else None) && LastOf(tail, k).None?
    ensures RightSinceRecovery(x, m, seed, tail, c, clock, refreshed, k) <==>
            (Phantom(seed, tail, c, k) ==> RestoredIsOver(x, c, clock))
  {
  }

  /** A snapshot that did not follow the log does so again after a recovery that the tail is silent about if its block is
      not taken up and the log's is over, or if a deadline put on a permanent block has fallen off. */
  ghost predicate Mended(x: Option<Block>, m: Option<Block>, c: Clocks, clock: nat, k: Key) {
    && !Standing(x, ClockFor(c, k))
    && if k.Ip? && Standing(x, c.restore) && !RestoredIsOver(x, c, clock) then Some(x.value.(deadline := None)) == m
       else !Standing(m, clock)
  }

  lemma SilentRecoveryMends(x: Option<Block>, m: Option<Block>, seed: Blocks, tail: seq<Entry>, c: Clocks, past: nat,
                            clock: nat, refreshed: bool, k: Key)
    requires !Follows(x, m, past, 0) && LastOf(tail, k).None?
    ensures RightSinceRecovery(x, m, seed, tail, c, clock, refreshed, k) <==> Mended(x, m, c, clock, k)
  {
  }

  /** Through a recovery that the tail is silent about, the condition goes back to the step that captured the snapshot. */
  lemma RightThroughSnapshot(run: seq<State>, acts: seq<Act>, n: nat, k: Key) returns (j: nat)
    requires Run(0, run, acts) && run[0].drift == 0 && n < |run|
    requires var i := Since(run, acts, n, k); i > 0 && acts[i - 1].Recover? && LastOf(TailOf(run[i - 1]), k).None?
    ensures var i := Since(run, acts, n, k);
            j < i && run[j].log == HeadOf(run[i - 1]) && (run[i - 1].manifest > 0 ==> acts[j].Capture?)
    ensures var i := Since(run, acts, n, k);
            var s, c, x := run[i - 1], acts[i - 1].clocks, Seen(run[j], run[j].mirror, k);
            RightBy(run, acts, n, k) <==>
            if RightBy(run, acts, j, k) then
              Phantom(BaseAt(s, c.restore), TailOf(s), c, k) ==> RestoredIsOver(x, c, run[n].clock)
            else Mended(x, LoggedAt(run[j], k), c, run[n].clock, k)
  {
    var i := Since(run, acts, n, k);
    var s, c := run[i - 1], acts[i - 1].clocks;
    j := CountingWasSeen(run, acts, i - 1);
    RightByIff(run, acts, j, k);
    NoDrift(run, acts, j);
    AlwaysRecoverable(0, run, acts, i - 1);
    ViewsOfLog(s, c, k);
    RecoveryClocks(run, acts, i, n);
    if RightBy(run, acts, j, k) {
      SilentRecoveryIff(At(Counting(s), k), At(FullFold(HeadOf(s)), k), BaseAt(s, c.restore), TailOf(s), c, run[j].clock,
                        run[n].clock, RefreshedIn(acts, i, n), k);
    } else {
      SilentRecoveryMends(At(Counting(s), k), At(FullFold(HeadOf(s)), k), BaseAt(s, c.restore), TailOf(s), c, run[j].clock,
                          run[n].clock, RefreshedIn(acts, i, n), k);
    }
  }

  lemma RecoveryClocks(run: seq<State>, acts: seq<Act>, i: nat, n: nat)
    requires Run(0, run, acts) && 0 < i <= n < |run| && acts[i - 1].Recover?
    ensures Ordered(run[i - 1], acts[i - 1].clocks) && acts[i - 1].clocks.rearmNets <= run[n].clock
  {
    assert StepAt(0, run, acts, i - 1);
    RunGrows(0, run, acts, i, n);
  }
}
