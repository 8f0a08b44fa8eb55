/** The store's code in the machine: restarts, captures and decisions. */
module Restart {
  import opened BlockLog
  import opened Checkpoint
  import opened RecoveryExact
  import opened CheckpointMachine
  import opened CrashRecovery
  import opened CrashExact
  import opened Values

  /** The files as the recovery code reads them: the snapshot that the manifest names, written out record by record
      in some order, and the log behind it. Without a checkpoint there is no snapshot and the whole log is read. */
  ghost predicate OnDisk(s: State, image: Image, tail: seq<Entry>) {
    Recoverable(s) && tail == TailOf(s) && Images(image, Counting(s))
  }

  lemma SeedIsBase(s: State, image: Image, tail: seq<Entry>, now: nat)
    requires OnDisk(s, image, tail)
    ensures Distinct(image) && Seed(image, now) == BaseAt(s, now)
  {
    ImagesDistinct(image, Counting(s));
    RestoreInvertsBuild(image, Counting(s), now);
  }

  /** The recovery code on the files of any state takes the step that the machine calls recovery: it leaves the
      machine's store, index and times to live and hands over the machine's deadlines. The store is exactly what the
      replay puts in force if and only if no seeded address is a phantom. */
  method Boot(image: Image, tail: seq<Entry>, c: Clocks, ghost s: State)
    returns (store: Store, handed: Schedule, mirrored: Schedule)
    requires OnDisk(s, image, tail)
    ensures fresh(store)
    ensures var s' := AfterRecover(0, s, c, handed, mirrored);
            && store.blocks == s'.store && store.listed == s'.listed && store.ttls == s'.ttls && s'.born == c.restore
    ensures Ordered(s, c) ==> Next(0, Recover(c, handed, mirrored), s, AfterRecover(0, s, c, handed, mirrored))
    ensures store.blocks == RecordsOf(InForce(Replayed(s, c), c)) <==>
              forall k :: !Phantom(BaseAt(s, c.restore), TailOf(s), c, k)
  {
    store := new Store();
    SeedIsBase(s, image, tail, c.restore);
    handed, mirrored := store.Recover(image, tail, c);
    StoreIsExactIff(BaseAt(s, c.restore), tail, c);
  }

  /** A capture: the image that the checkpoint loop builds under the barrier is the machine's. */
  method CaptureImage(store: Store, schedule: Schedule, ghost s: State) returns (image: Image)
    requires store.blocks == Present(s) && store.listed == s.listed && schedule == s.mirror
    requires s.pending.None? && s.phase.Idle?
    ensures forall jitter: nat, s': State :: Next(jitter, Capture, s, s') ==> Images(image, s'.phase.image)
  {
    image := store.BuildSnapshot(schedule);
  }

  /** A decision: the store after the code applied a block is the machine's. */
  method Decide(store: Store, k: Key, b: Block, gone: bool, ghost s: State, ghost mirrored: Option<nat>)
    requires store.blocks == s.store && store.listed == s.listed && store.ttls.Keys == s.ttls.Keys
    requires gone == Gone(s, k)
    modifies store
    ensures var s' := WithBlock(s, k, b, mirrored);
            store.blocks == s'.store && store.listed == s'.listed && store.ttls.Keys == s'.ttls.Keys
  {
    store.UpdateBlockState(k, b, gone);
  }

  // ----- The store after a crash, against the whole log -----

  /** The record that recovery leaves for a key, from what the seed and the replay have. */
  ghost function StoredAt(seeded: Option<Block>, replayed: Option<Block>, c: Clocks, k: Key): (r: Option<Stored>) {
    if Standing(replayed, ClockFor(c, k)) then Some(StoredOf(replayed.value))
    else if k.Ip? && seeded.Some? && replayed.Some? then Some(StoredOf(seeded.value))
    else None
  }

  ghost function RecordAt(m: Records, k: Key): (r: Option<Stored>) {
    if k in m then Some(m[k]) else None
  }

  lemma StoredIs(seed: Blocks, m: Blocks, c: Clocks, k: Key)
    ensures RecordAt(RecoveredStore(seed, m, c), k) == StoredAt(At(seed, k), At(m, k), c, k)
    ensures RecordAt(RecordsOf(InForce(m, c)), k) ==
            if Standing(At(m, k), ClockFor(c, k)) then Some(StoredOf(At(m, k).value)) else None
  {
  }

  /** When a restart leaves the right record for `k`: if the tail decides about `k`, unless it is a phantom; else if
      the snapshot's block is taken up exactly when the log's is in force. A prefix is taken up if it is in force at
      the replay, an address if it was at the restore. */
  ghost predicate RestartsRight(s: State, c: Clocks, k: Key) {
    if LastOf(TailOf(s), k).Some? then !Phantom(BaseAt(s, c.restore), TailOf(s), c, k)
    else
      Standing(At(Counting(s), k), if k.Ip? then c.restore else c.nets)
      <==> Standing(At(FullFold(HeadOf(s)), k), ClockFor(c, k))
  }

  lemma RightIff(x: Option<Block>, m: Option<Block>, seed: Blocks, tail: seq<Entry>, clock: nat, c: Clocks, k: Key)
    requires Known(x, m, clock) && clock <= c.restore <= c.ips <= c.nets
    requires At(seed, k) == if Standing(x, c.restore) then x else None
    ensures var last, t := LastOf(tail, k), ClockFor(c, k);
            var f := ReplayAt(m, last);
            StoredAt(At(seed, k), ReplayAt(At(seed, k), last), c, k) == (if Standing(f, t) then Some(StoredOf(f.value)) else None)
            <==>
            if last.Some? then !Phantom(seed, tail, c, k)
            else (Standing(x, if k.Ip? then c.restore else c.nets) <==> Standing(m, t))
  {
  }

  lemma RestartAtIff(run: seq<State>, acts: seq<Act>, n: nat, c: Clocks, k: Key)
    requires Run(0, run, acts) && run[0].drift == 0 && n < |run| && Ordered(run[n], c)
    ensures var s := run[n];
            RecordAt(RecoveredStore(BaseAt(s, c.restore), Replayed(s, c), c), k)
            == RecordAt(RecordsOf(InForce(FullFold(s.log), c)), k)
            <==> RestartsRight(s, c, k)
  {
    var s := run[n];
    RunKeepsKnown(run, acts, n, k);
    ViewsOfLog(s, c, k);
    StoredIs(BaseAt(s, c.restore), Replayed(s, c), c, k);
    StoredIs(map[], FullFold(s.log), c, k);
    RightIff(At(Counting(s), k), At(FullFold(HeadOf(s)), k), BaseAt(s, c.restore), TailOf(s), s.clock, c, k);
  }

  lemma SameRecords(x: Records, y: Records)
    requires forall k :: RecordAt(x, k) == RecordAt(y, k)
    ensures x == y
  {
    assert forall k :: k in x ==> RecordAt(x, k) == RecordAt(y, k);
    assert forall k :: k in y ==> RecordAt(x, k) == RecordAt(y, k);
  }

  /** A restart after a crash at any point of any run, without drift: the store it leaves holds exactly the blocks that
      the whole log puts in force if and only if it is right about every key. */
  lemma BootIsExactIff(run: seq<State>, acts: seq<Act>, n: nat, c: Clocks)
    requires Run(0, run, acts) && run[0].drift == 0 && n < |run| && Ordered(run[n], c)
    ensures RecoveredStore(BaseAt(run[n], c.restore), Replayed(run[n], c), c) == RecordsOf(InForce(FullFold(run[n].log), c))
            <==> forall k :: RestartsRight(run[n], c, k)
  {
    var s := run[n];
    var got, want := RecoveredStore(BaseAt(s, c.restore), Replayed(s, c), c), RecordsOf(InForce(FullFold(s.log), c));
    forall k: Key ensures RecordAt(got, k) == RecordAt(want, k) <==> RestartsRight(s, c, k) {
      RestartAtIff(run, acts, n, c, k);
    }
    if forall k :: RestartsRight(s, c, k) {
      forall k: Key ensures RecordAt(got, k) == RecordAt(want, k) {
        assert RestartsRight(s, c, k);
      }
      SameRecords(got, want);
    }
  }
}
