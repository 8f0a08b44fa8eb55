/** When one recovery rebuilds exactly what the replay puts in force, told from the snapshot, the tail and the
    clocks. */
module RecoveryExact {
  import opened BlockLog
  import opened Checkpoint
  import opened Values

  /** The deadline that counts for `k` after the replay: that of the last tail record naming it, or the seed's. */
  predicate Lapsed(seed: Blocks, tail: seq<Entry>, now: nat, k: Key)
    requires k in seed
  {
    var e := LastOf(tail, k);
    if e.None? then !Ahead(seed[k].deadline, now)
    else e.value.Blocked? && !Ahead(DeadlineOf(e.value.ttl, e.value.ts), now)
  }

  /** A seeded address whose block has lapsed by the time of the replay, either because the tail blocked it again with
      a deadline that has passed, or because its own deadline passed since the snapshot was restored. Its record
      stays in the store: only released addresses are removed, and only live ones are rewritten. */
  predicate Phantom(seed: Blocks, tail: seq<Entry>, c: Clocks, k: Key) {
    k.Ip? && k in seed && Lapsed(seed, tail, c.ips, k)
  }

  lemma PhantomIs(seed: Blocks, tail: seq<Entry>, c: Clocks, k: Key)
    ensures var m := Fold(seed, tail);
            Phantom(seed, tail, c, k) <==> k.Ip? && k in seed && k in m && !Ahead(m[k].deadline, c.ips)
  {
    FoldAt(seed, tail, k);
  }

  /** Recovery leaves exactly the blocks in force if and only if no seeded address is a phantom. */
  lemma StoreIsExactIff(seed: Blocks, tail: seq<Entry>, c: Clocks)
    ensures RecoveredStore(seed, Fold(seed, tail), c) == RecordsOf(InForce(Fold(seed, tail), c))
            <==> forall k :: !Phantom(seed, tail, c, k)
  {
    var m := Fold(seed, tail);
    var left, right := RecoveredStore(seed, m, c), RecordsOf(InForce(m, c));
    if k :| Phantom(seed, tail, c, k) {
      PhantomIs(seed, tail, c, k);
      assert k in left && k !in right;
    } else {
      forall k: Key
        ensures k in left <==> k in right
        ensures k in left ==> left[k] == right[k]
      {
        assert !Phantom(seed, tail, c, k);
        PhantomIs(seed, tail, c, k);
      }
    }
  }

  /** A block that the snapshot held with a deadline and that the tail, in its last word on it, made permanent, while
      the snapshot's deadline is still to come when it is handed to the scheduler: nothing takes it back. */
  predicate StaleTimer(seed: Blocks, tail: seq<Entry>, c: Clocks, k: Key) {
    && k in seed && seed[k].deadline.Some? && seed[k].deadline.value > RearmFor(c, k)
    && var e := LastOf(tail, k);
       e.Some? && e.value.Blocked? && e.value.ttl.None?
  }

  lemma HandedAt(seed: Blocks, m: Blocks, c: Clocks, k: Key)
    requires k in InForce(m, c)
    ensures Scheduled(Handed(seed, m, c), k) ==
            if m[k].deadline.Some? || k !in seed then m[k].deadline else StillArmed(At(seed, k), c, k)
  {
    assert k in DeadlinesOf(InForce(m, c)) <==> m[k].deadline.Some?;
  }

  lemma StaleTimerIs(seed: Blocks, tail: seq<Entry>, c: Clocks, k: Key)
    ensures var m := Fold(seed, tail);
            StaleTimer(seed, tail, c, k) <==>
            k in seed && StillArmed(At(seed, k), c, k).Some? && k in InForce(m, c) && m[k].deadline.None?
  {
    FoldAt(seed, tail, k);
  }

  /** Every block in force is scheduled for its own deadline if and only if there is no stale timer. */
  lemma ScheduleIsExactIff(seed: Blocks, tail: seq<Entry>, c: Clocks)
    ensures var m := Fold(seed, tail);
            (forall k :: k in InForce(m, c) ==> Scheduled(Handed(seed, m, c), k) == m[k].deadline)
            <==> forall k :: !StaleTimer(seed, tail, c, k)
  {
    var m := Fold(seed, tail);
    if k :| StaleTimer(seed, tail, c, k) {
      StaleTimerIs(seed, tail, c, k);
      HandedAt(seed, m, c, k);
      assert k in InForce(m, c) && Scheduled(Handed(seed, m, c), k) != m[k].deadline;
    } else {
      forall k | k in InForce(m, c) ensures Scheduled(Handed(seed, m, c), k) == m[k].deadline {
        assert !StaleTimer(seed, tail, c, k);
        StaleTimerIs(seed, tail, c, k);
        HandedAt(seed, m, c, k);
      }
    }
  }

  // ----- One key across a recovery -----

  /** The block and deadline that the service resumes with, from what the seed and the replay have; `mirror` for what
      checkpoints see of it. */
  function Resumed(seeded: Option<Block>, replayed: Option<Block>, c: Clocks, k: Key, mirror: bool): (r: Option<Block>) {
    if Standing(replayed, ClockFor(c, k)) then
      var b := replayed.value;
      Some(if b.deadline.None? && !(mirror && k.Net?) then b.(deadline := StillArmed(seeded, c, k)) else b)
    else if k.Ip? && seeded.Some? && replayed.Some? then Some(seeded.value.(deadline := StillArmed(seeded, c, k)))
    else None
  }

  /** The snapshot's deadline, as long as time remains until it. */
  function StillArmed(seeded: Option<Block>, c: Clocks, k: Key): (r: Option<nat>) {
    if seeded.Some? && seeded.value.deadline.Some? && seeded.value.deadline.value > RearmFor(c, k) then seeded.value.deadline
    else None
  }

  lemma ResumedIs(seed: Blocks, m: Blocks, c: Clocks, k: Key)
    ensures At(Joined(RecoveredStore(seed, m, c), Handed(seed, m, c)), k) == Resumed(At(seed, k), At(m, k), c, k, false)
    ensures At(Joined(RecoveredStore(seed, m, c), Mirrored(seed, m, c)), k) == Resumed(At(seed, k), At(m, k), c, k, true)
  {
    assert k in InForce(m, c) <==> Standing(At(m, k), ClockFor(c, k));
    assert k in DeadlinesOf(InForce(m, c)) <==> k in InForce(m, c) && m[k].deadline.Some?;
    assert k in PermanentNets(InForce(m, c)) <==> k in InForce(m, c) && k.Net? && m[k].deadline.None?;
  }

  /** Without a phantom or a stale timer the service resumes with what the replay puts in force. */
  lemma ResumedIsReplayed(seed: Blocks, tail: seq<Entry>, c: Clocks, k: Key, mirror: bool)
    requires !Phantom(seed, tail, c, k) && !StaleTimer(seed, tail, c, k)
    ensures var replayed := At(Fold(seed, tail), k);
            Resumed(At(seed, k), replayed, c, k, mirror) == if Standing(replayed, ClockFor(c, k)) then replayed else None
  {
    FoldView(seed, tail, k);
  }

  // ----- Inputs on which it fails -----

  lemma FoldOne(seed: Blocks, e: Entry)
    ensures Fold(seed, [e]) == Step(seed, e)
  {
    assert [e][..0] == [];
  }

  function AllAt(now: nat): (c: Clocks) {
    Clocks(now, now, now, now, now)
  }

  /** A permanent block in the snapshot, blocked again for one second by the tail, recovered five seconds later:
      the log says it is over, and the recovered store still holds it. */
  lemma PhantomExample(k: Key, c: Clocks)
    requires k == Ip(7) && c == AllAt(6 * NS_PER_SEC)
    ensures var seed := map[k := Block(ManualBlock, 0, None)];
            var tail := [Blocked(k, HighRps, Some(1), NS_PER_SEC)];
            && k !in InForce(Fold(seed, tail), c)
            && k in RecoveredStore(seed, Fold(seed, tail), c)
  {
    FoldOne(map[k := Block(ManualBlock, 0, None)], Blocked(k, HighRps, Some(1), NS_PER_SEC));
  }

  /** A block whose deadline falls between the restore and the replay, with nothing in the tail. */
  lemma LapsedExample(k: Key, c: Clocks)
    requires k == Ip(7) && c == AllAt(6).(restore := 5)
    ensures var seed := map[k := Block(ManualBlock, 0, Some(6))];
            && LiveAt(seed, c.restore) == seed
            && k !in InForce(Fold(seed, []), c)
            && k in RecoveredStore(seed, Fold(seed, []), c)
  {
  }

  /** A block for ten seconds in the snapshot, made permanent by the tail: the scheduler gets the ten seconds, unless they
      are over when it does. */
  lemma StaleTimerExample(k: Key, c: Clocks, late: Clocks)
    requires k == Ip(7) && c == AllAt(6) && late == c.(rearmIps := 11 * NS_PER_SEC, rearmNets := 11 * NS_PER_SEC)
    ensures var seed := map[k := Block(ManualBlock, 0, Some(10 * NS_PER_SEC))];
            var tail := [Blocked(k, HighRps, None, 5)];
            && InForce(Fold(seed, tail), c)[k].deadline == None
            && Scheduled(Handed(seed, Fold(seed, tail), c), k) == Some(10 * NS_PER_SEC)
            && Scheduled(Handed(seed, Fold(seed, tail), late), k) == None
  {
    var seed: Blocks := map[k := Block(ManualBlock, 0, Some(10 * NS_PER_SEC))];
    var e := Blocked(k, HighRps, None, 5);
    FoldOne(seed, e);
    assert k in InForce(Fold(seed, [e]), c) && k in InForce(Fold(seed, [e]), late);
    HandedAt(seed, Fold(seed, [e]), c, k);
    HandedAt(seed, Fold(seed, [e]), late, k);
  }
}
