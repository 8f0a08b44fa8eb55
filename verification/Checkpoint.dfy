/** Checkpoint snapshots: building one, restoring one, and replaying the log tail on top. */
module Checkpoint {
  import opened BlockLog
  import opened Values

  /** A block record in the store. It has no deadline of its own: that lives in the expiration schedule. */
  type Stored = Block

  type Records = map<Key, Stored>
  type Schedule = map<Key, nat>

  function StoredOf(b: Block): (s: Stored) {
    b.(deadline := None)
  }

  /** What a lookup of a key that is not there stands for. */
  const NO_BLOCK: Block := Block(ManualBlock, 0, None)

  function Lookup(m: Blocks, k: Key): (b: Block) {
    if k in m then m[k] else NO_BLOCK
  }

  function RecordsOf(m: Blocks): (r: Records) {
    map k | k in m :: StoredOf(Lookup(m, k))
  }

  function DeadlinesOf(m: Blocks): (r: Schedule) {
    map k | k in m && m[k].deadline.Some? :: Instant(Lookup(m, k).deadline)
  }

  function Instant(deadline: Option<nat>): (t: nat) {
    if deadline.Some? then deadline.value else 0
  }

  function Scheduled(schedule: Schedule, k: Key): (r: Option<nat>) {
    if k in schedule then Some(schedule[k]) else None
  }

  /** Every stored block, with the deadline scheduled for it. */
  function Joined(store: Records, schedule: Schedule): (r: Blocks) {
    map k | k in store :: JoinedAt(store, schedule, k)
  }

  function JoinedAt(store: Records, schedule: Schedule, k: Key): (b: Block) {
    if k in store then store[k].(deadline := Scheduled(schedule, k)) else NO_BLOCK
  }

  /** The blocks still in force at `now`. */
  function LiveAt(m: Blocks, now: nat): (r: Blocks) {
    m - (set k | k in m && !Ahead(m[k].deadline, now))
  }

  // ----- Snapshots -----

  /** A block in a snapshot, its reason written out. */
  datatype Record = Record(key: Key, reason: string, since: nat, deadline: Option<nat>)

  type Image = seq<Record>

  function RecordOf(k: Key, b: Block): (r: Record) {
    Record(k, ReasonName(b.reason), b.since, b.deadline)
  }

  /** `image` lists the blocks of `m`, each once, in some order. */
  ghost predicate Images(image: Image, m: Blocks) {
    if image == [] then m == map[]
    else
      var r := image[|image| - 1];
      r.key in m && r == RecordOf(r.key, m[r.key]) && Images(image[..|image| - 1], m - {r.key})
  }

  predicate HasKey(image: Image, k: Key) {
    image != [] && (image[|image| - 1].key == k || HasKey(image[..|image| - 1], k))
  }

  predicate Distinct(image: Image) {
    image == [] || (Distinct(image[..|image| - 1]) && !HasKey(image[..|image| - 1], image[|image| - 1].key))
  }

  datatype Verdict = Permanent | Live(remaining: nat) | Expired

  function Classify(deadline: Option<nat>, now: nat): (v: Verdict)
    ensures v.Expired? <==> !Ahead(deadline, now)
    ensures v.Live? ==> deadline == Some(now + v.remaining) && v.remaining > 0
  {
    if deadline.None? then Permanent
    else if deadline.value > now then Live(deadline.value - now)
    else Expired
  }

  function DivCeil(n: nat, d: nat): (r: nat)
    requires d > 0
  {
    (n + d - 1) / d
  }

  /** Whole seconds until `deadline`, rounded up; none when it has passed. */
  function RemainingSecs(deadline: nat, now: nat): (r: nat) {
    DivCeil(if deadline > now then deadline - now else 0, NS_PER_SEC)
  }

  /** The times to live that restored address records get. */
  function TtlsOf(m: Blocks, now: nat): (r: Schedule) {
    map k | k in m && k.Ip? && m[k].deadline.Some? :: TtlOf(m, now, k)
  }

  function TtlOf(m: Blocks, now: nat, k: Key): (secs: nat) {
    if k in m && k.Ip? && m[k].deadline.Some? then RemainingSecs(m[k].deadline.value, now) else 0
  }

  function RestoredBlock(r: Record): (b: Block) {
    Block(ReasonOrManual(r.reason), r.since, r.deadline)
  }

  /** The blocks of a snapshot that are still in force at `now`. */
  function Seed(image: Image, now: nat): (r: Blocks) {
    if image == [] then map[]
    else
      var rest, r := Seed(image[..|image| - 1], now), image[|image| - 1];
      if Ahead(r.deadline, now) then rest[r.key := RestoredBlock(r)] else rest
  }

  lemma {:induction false} SeedHasKey(image: Image, now: nat, k: Key)
    requires k in Seed(image, now)
    ensures HasKey(image, k)
  {
    if image[|image| - 1].key != k {
      SeedHasKey(image[..|image| - 1], now, k);
    }
  }

  lemma {:induction false} ImagesHasKey(image: Image, m: Blocks, k: Key)
    requires Images(image, m)
    ensures HasKey(image, k) <==> k in m
  {
    if image != [] && image[|image| - 1].key != k {
      ImagesHasKey(image[..|image| - 1], m - {image[|image| - 1].key}, k);
    }
  }

  lemma {:induction false} ImagesDistinct(image: Image, m: Blocks)
    requires Images(image, m)
    ensures Distinct(image)
  {
    if image != [] {
      var k := image[|image| - 1].key;
      ImagesDistinct(image[..|image| - 1], m - {k});
      ImagesHasKey(image[..|image| - 1], m - {k}, k);
    }
  }

  /** Restoring a snapshot gives exactly the blocks in force, with reason, start and deadline unchanged. */
  lemma {:induction false} RestoreInvertsBuild(image: Image, m: Blocks, now: nat)
    requires Images(image, m)
    ensures Seed(image, now) == LiveAt(m, now)
  {
    if image != [] {
      var r := image[|image| - 1];
      var rest := m - {r.key};
      RestoreInvertsBuild(image[..|image| - 1], rest, now);
      ReasonSurvives(m[r.key].reason);
      assert RestoredBlock(r) == m[r.key];
      if Ahead(r.deadline, now) {
        assert LiveAt(m, now) == LiveAt(rest, now)[r.key := m[r.key]];
      } else {
        assert LiveAt(m, now) == LiveAt(rest, now);
      }
    }
  }

  /** The store's own time to live ends at or after the deadline, and less than a second late. */
  lemma RoundedTtl(deadline: nat, now: nat)
    requires deadline > now
    ensures var secs := RemainingSecs(deadline, now);
            secs > 0 && deadline <= now + secs * NS_PER_SEC < deadline + NS_PER_SEC
  {
  }

  /** A later restore keeps no more, and what it keeps is the same. */
  lemma LaterRestoresFewer(image: Image, m: Blocks, now: nat, later: nat)
    requires Images(image, m) && now <= later
    ensures Seed(image, later).Keys <= Seed(image, now).Keys
    ensures forall k :: k in Seed(image, later) ==> Seed(image, later)[k] == Seed(image, now)[k]
  {
    RestoreInvertsBuild(image, m, now);
    RestoreInvertsBuild(image, m, later);
  }

  /** Restoring, building a snapshot of what was restored, and restoring that changes nothing. */
  lemma RestoreIsIdempotent(image: Image, m: Blocks, again: Image, now: nat)
    requires Images(image, m)
    requires Images(again, Joined(RecordsOf(Seed(image, now)), DeadlinesOf(Seed(image, now))))
    ensures Seed(again, now) == Seed(image, now)
  {
    var s := Seed(image, now);
    RestoreInvertsBuild(image, m, now);
    JoinedSplits(s);
    RestoreInvertsBuild(again, s, now);
    assert LiveAt(s, now) == s;
  }

  /** A store and a schedule together hold what they were split from. */
  lemma JoinedSplits(m: Blocks)
    ensures Joined(RecordsOf(m), DeadlinesOf(m)) == m
  {
    var j := Joined(RecordsOf(m), DeadlinesOf(m));
    assert j.Keys == m.Keys;
    forall k | k in m ensures j[k] == m[k] {
      assert Scheduled(DeadlinesOf(m), k) == m[k].deadline;
    }
  }

  // ----- Recovery -----

  /** The clock when the snapshot is restored, when addresses and prefixes are replayed, and when the snapshot's
      deadlines of addresses and of prefixes are handed to the scheduler. */
  datatype Clocks = Clocks(restore: nat, ips: nat, nets: nat, rearmIps: nat, rearmNets: nat)

  function ClockFor(c: Clocks, k: Key): (t: nat) {
    if k.Ip? then c.ips else c.nets
  }

  function RearmFor(c: Clocks, k: Key): (t: nat) {
    if k.Ip? then c.rearmIps else c.rearmNets
  }

  /** What a fold leaves in force. */
  function InForce(m: Blocks, c: Clocks): (r: Blocks) {
    m - (set k | k in m && !Ahead(m[k].deadline, ClockFor(c, k)))
  }

  /** The store after recovery from `seed` when the replay folds to `m`. */
  function RecoveredStore(seed: Blocks, m: Blocks, c: Clocks): (r: Records) {
    map k | k in m && (Ahead(m[k].deadline, ClockFor(c, k)) || (k.Ip? && k in seed)) :: RecoveredAt(seed, m, c, k)
  }

  function RecoveredAt(seed: Blocks, m: Blocks, c: Clocks, k: Key): (s: Stored) {
    if k in m && Ahead(m[k].deadline, ClockFor(c, k)) then StoredOf(m[k])
    else if k in m && k.Ip? && k in seed then StoredOf(seed[k])
    else NO_BLOCK
  }

  /** The deadlines the scheduler is handed: the replay's where it has one, else the snapshot's. */
  function Handed(seed: Blocks, m: Blocks, c: Clocks): (r: Schedule) {
    Kept(DeadlinesOf(seed), InForce(m, c), c) + DeadlinesOf(InForce(m, c))
  }

  /** The snapshot's deadlines that are handed over: of every address, and of the prefixes still in force, as long as
      time remains until them. */
  function Kept(deadlines: Schedule, live: Blocks, c: Clocks): (r: Schedule) {
    deadlines - (set k | k in deadlines && ((k.Net? && k !in live) || deadlines[k] <= RearmFor(c, k)))
  }

  /** The mirror of the schedule that checkpoints read: a permanent prefix is taken off it again. */
  function Mirrored(seed: Blocks, m: Blocks, c: Clocks): (r: Schedule) {
    Handed(seed, m, c) - PermanentNets(InForce(m, c))
  }

  function PermanentNets(live: Blocks): (r: set<Key>) {
    set k | k in live && k.Net? && live[k].deadline.None?
  }

  /** What restoring builds up record by record. */
  datatype Restoring = Restoring(seed: Blocks, deadlines: Schedule, blocks: Records, ttls: Schedule)

  function RestoreOne(st: Restoring, r: Record, now: nat): (st': Restoring) {
    match Classify(r.deadline, now)
    case Expired => st
    case Permanent =>
      st.(seed := st.seed[r.key := RestoredBlock(r)], blocks := st.blocks[r.key := StoredOf(RestoredBlock(r))])
    case Live(remaining) =>
      Restoring(st.seed[r.key := RestoredBlock(r)],
                st.deadlines[r.key := now + remaining],
                st.blocks[r.key := StoredOf(RestoredBlock(r))],
                if r.key.Ip? then st.ttls[r.key := DivCeil(remaining, NS_PER_SEC)] else st.ttls)
  }

  function RestoreAll(st: Restoring, image: Image, now: nat): (st': Restoring) {
    if image == [] then st else RestoreOne(RestoreAll(st, image[..|image| - 1], now), image[|image| - 1], now)
  }

  lemma {:induction false} RestoresSeed(st: Restoring, image: Image, now: nat)
    requires st.seed == map[]
    ensures RestoreAll(st, image, now).seed == Seed(image, now)
  {
    if image != [] {
      RestoresSeed(st, image[..|image| - 1], now);
    }
  }

  lemma InsertRecord(base: Records, m: Blocks, k: Key, b: Block)
    ensures base + RecordsOf(m[k := b]) == (base + RecordsOf(m))[k := StoredOf(b)]
  {
  }

  lemma {:induction false} RestoresRecords(st: Restoring, image: Image, now: nat)
    ensures RestoreAll(st, image, now).blocks == st.blocks + RecordsOf(Seed(image, now))
  {
    if image != [] {
      var rest, r := image[..|image| - 1], image[|image| - 1];
      RestoresRecords(st, rest, now);
      InsertRecord(st.blocks, Seed(rest, now), r.key, RestoredBlock(r));
    }
  }

  lemma InsertDeadline(m: Blocks, k: Key, b: Block)
    requires k !in m
    ensures DeadlinesOf(m[k := b]) == if b.deadline.Some? then DeadlinesOf(m)[k := b.deadline.value] else DeadlinesOf(m)
  {
  }

  lemma {:induction false} RestoresDeadlines(st: Restoring, image: Image, now: nat)
    requires Distinct(image) && st.deadlines == map[]
    ensures RestoreAll(st, image, now).deadlines == DeadlinesOf(Seed(image, now))
  {
    if image != [] {
      var rest, r := image[..|image| - 1], image[|image| - 1];
      RestoresDeadlines(st, rest, now);
      if r.key in Seed(rest, now) {
        SeedHasKey(rest, now, r.key);
      }
      InsertDeadline(Seed(rest, now), r.key, RestoredBlock(r));
    }
  }

  lemma InsertTtl(base: Schedule, m: Blocks, k: Key, b: Block, now: nat)
    requires k !in m
    ensures base + TtlsOf(m[k := b], now) ==
            if b.deadline.Some? && k.Ip? then (base + TtlsOf(m, now))[k := RemainingSecs(b.deadline.value, now)]
            else base + TtlsOf(m, now)
  {
  }

  lemma {:induction false} RestoresTtls(st: Restoring, image: Image, now: nat)
    requires Distinct(image)
    ensures RestoreAll(st, image, now).ttls == st.ttls + TtlsOf(Seed(image, now), now)
  {
    if image != [] {
      var rest, r := image[..|image| - 1], image[|image| - 1];
      RestoresTtls(st, rest, now);
      if r.key in Seed(rest, now) {
        SeedHasKey(rest, now, r.key);
      }
      InsertTtl(st.ttls, Seed(rest, now), r.key, RestoredBlock(r), now);
    }
  }

  /** `base` with the blocks of `live` written over it, but for those still to do. */
  ghost function Written(base: Records, live: Blocks, todo: set<Key>): (r: Records) {
    base + (RecordsOf(live) - todo)
  }

  lemma WrittenStart(blocks: Records, ttls: Schedule, live: Blocks, todo: set<Key>)
    requires live.Keys <= todo
    ensures Written(blocks, live, todo) == blocks && Dropped(ttls, live, todo) == ttls
    ensures Written(blocks, live, {}) == blocks + RecordsOf(live) && Dropped(ttls, live, {}) == ttls - live.Keys
  {
    assert live.Keys - {} == live.Keys && live.Keys - todo == {};
  }

  lemma WrittenStep(base: Records, live: Blocks, todo: set<Key>, k: Key)
    requires k in todo
    ensures Written(base, live, todo - {k}) ==
            if k in live then Written(base, live, todo)[k := StoredOf(live[k])] else Written(base, live, todo)
  {
  }

  /** `base` without the entries of `live`, but for those still to do. */
  ghost function Dropped(base: Schedule, live: Blocks, todo: set<Key>): (r: Schedule) {
    base - (live.Keys - todo)
  }

  lemma DroppedStep(base: Schedule, live: Blocks, todo: set<Key>, k: Key)
    requires k in todo
    ensures Dropped(base, live, todo - {k}) == if k in live then Dropped(base, live, todo) - {k} else Dropped(base, live, todo)
  {
  }

  /** The records that still have a time to live after recovery: restored ones that have lapsed since, which nothing
      rewrote. */
  function RecoveredTtls(seed: Blocks, m: Blocks, c: Clocks): (r: Schedule) {
    TtlsOf(seed, c.restore) - (set k | k in seed && (k !in m || Ahead(m[k].deadline, c.ips)))
  }

  lemma TtlsRecover(seed: Blocks, tail: seq<Entry>, c: Clocks)
    ensures var ips := FoldKind(OfKind(seed, true), tail, true);
            var nets := FoldKind(LiveAt(OfKind(seed, false), c.nets), tail, false);
            TtlsOf(seed, c.restore) - (OfKind(seed, true).Keys - ips.Keys) - LiveAt(ips, c.ips).Keys
            - (OfKind(seed, false).Keys - LiveAt(nets, c.nets).Keys) - LiveAt(nets, c.nets).Keys
            == RecoveredTtls(seed, Fold(seed, tail), c)
  {
    FoldKindIs(seed, tail, true);
    OfKindLive(seed, c.nets, false);
    FoldKindIs(LiveAt(seed, c.nets), tail, false);
    TtlsAssembled(seed, Fold(seed, tail), OfKind(Fold(LiveAt(seed, c.nets), tail), false), c);
  }

  lemma TtlsAssembled(seed: Blocks, m: Blocks, nets: Blocks, c: Clocks)
    requires forall k :: k in nets ==> k.Net?
    ensures TtlsOf(seed, c.restore) - (OfKind(seed, true).Keys - OfKind(m, true).Keys) - LiveAt(OfKind(m, true), c.ips).Keys
            - (OfKind(seed, false).Keys - LiveAt(nets, c.nets).Keys) - LiveAt(nets, c.nets).Keys
            == RecoveredTtls(seed, m, c)
  {
  }

  /** The store after the address replay. */
  ghost function AfterIps(before: Records, seed: Blocks, m: Blocks, now: nat): (r: Records) {
    (before - (seed.Keys - m.Keys)) + RecordsOf(LiveAt(m, now))
  }

  /** The store after the prefix replay. */
  ghost function AfterNets(before: Records, seed: Blocks, m: Blocks, now: nat): (r: Records) {
    (before - (seed.Keys - LiveAt(m, now).Keys)) + RecordsOf(LiveAt(m, now))
  }

  /** Dropping what has expired before the tail is folded loses nothing that would be in force after it. */
  lemma FilterFirst(seed: Blocks, tail: seq<Entry>, now: nat)
    ensures LiveAt(OfKind(Fold(LiveAt(seed, now), tail), false), now) == LiveAt(OfKind(Fold(seed, tail), false), now)
  {
    var x, y := Fold(LiveAt(seed, now), tail), Fold(seed, tail);
    forall k: Key
      ensures k in x && Ahead(x[k].deadline, now) <==> k in y && Ahead(y[k].deadline, now)
      ensures k in x && Ahead(x[k].deadline, now) ==> x[k] == y[k]
    {
      FoldByKey(LiveAt(seed, now), seed, tail, k);
      FoldByKey(seed, seed, tail, k);
    }
  }

  lemma OfKindLive(m: Blocks, now: nat, ip: bool)
    ensures OfKind(LiveAt(m, now), ip) == LiveAt(OfKind(m, ip), now)
  {
  }

  /** Restoring the seed and replaying both domains on it leaves the recovered store. */
  lemma ReplaysRecover(seed: Blocks, tail: seq<Entry>, c: Clocks)
    ensures var ips := FoldKind(OfKind(seed, true), tail, true);
            var nets := FoldKind(LiveAt(OfKind(seed, false), c.nets), tail, false);
            AfterNets(AfterIps(RecordsOf(seed), OfKind(seed, true), ips, c.ips), OfKind(seed, false), nets, c.nets)
            == RecoveredStore(seed, Fold(seed, tail), c)
  {
    var m := Fold(seed, tail);
    FoldKindIs(seed, tail, true);
    OfKindLive(seed, c.nets, false);
    FoldKindIs(LiveAt(seed, c.nets), tail, false);
    FilterFirst(seed, tail, c.nets);
    AssembleStore(seed, m, OfKind(Fold(LiveAt(seed, c.nets), tail), false), c);
  }

  lemma AssembleStore(seed: Blocks, m: Blocks, nets: Blocks, c: Clocks)
    requires LiveAt(nets, c.nets) == LiveAt(OfKind(m, false), c.nets)
    ensures AfterNets(AfterIps(RecordsOf(seed), OfKind(seed, true), OfKind(m, true), c.ips), OfKind(seed, false), nets, c.nets)
            == RecoveredStore(seed, m, c)
  {
    var b := AfterIps(RecordsOf(seed), OfKind(seed, true), OfKind(m, true), c.ips);
    var left, right := AfterNets(b, OfKind(seed, false), nets, c.nets), RecoveredStore(seed, m, c);
    forall k: Key
      ensures k in left <==> k in right
      ensures k in left ==> left[k] == right[k]
    {
      if k.Ip? {
        AssembledIp(seed, m, nets, c, k);
      } else {
        AssembledNet(seed, m, nets, c, k);
      }
    }
  }

  lemma AssembledIp(seed: Blocks, m: Blocks, nets: Blocks, c: Clocks, k: Key)
    requires k.Ip? && LiveAt(nets, c.nets) == LiveAt(OfKind(m, false), c.nets)
    ensures var b := AfterIps(RecordsOf(seed), OfKind(seed, true), OfKind(m, true), c.ips);
            var left, right := AfterNets(b, OfKind(seed, false), nets, c.nets), RecoveredStore(seed, m, c);
            (k in left <==> k in right) && (k in left ==> left[k] == right[k])
  {
    assert k !in LiveAt(nets, c.nets);
  }

  lemma AssembledNet(seed: Blocks, m: Blocks, nets: Blocks, c: Clocks, k: Key)
    requires k.Net? && LiveAt(nets, c.nets) == LiveAt(OfKind(m, false), c.nets)
    ensures var b := AfterIps(RecordsOf(seed), OfKind(seed, true), OfKind(m, true), c.ips);
            var left, right := AfterNets(b, OfKind(seed, false), nets, c.nets), RecoveredStore(seed, m, c);
            (k in left <==> k in right) && (k in left ==> left[k] == right[k])
  {
    assert k !in LiveAt(OfKind(m, true), c.ips);
    assert k in LiveAt(nets, c.nets) <==> k in m && Ahead(m[k].deadline, c.nets);
  }

  /** The schedule handed over, from the two replays' own results. */
  lemma HandedParts(seed: Blocks, tail: seq<Entry>, c: Clocks)
    ensures var ips := FoldKind(OfKind(seed, true), tail, true);
            var nets := FoldKind(LiveAt(OfKind(seed, false), c.nets), tail, false);
            && Kept(DeadlinesOf(seed), LiveAt(nets, c.nets), c)
               + (DeadlinesOf(LiveAt(ips, c.ips)) + DeadlinesOf(LiveAt(nets, c.nets)))
               == Handed(seed, Fold(seed, tail), c)
            && PermanentNets(LiveAt(nets, c.nets)) == PermanentNets(InForce(Fold(seed, tail), c))
  {
    var m := Fold(seed, tail);
    FoldKindIs(seed, tail, true);
    OfKindLive(seed, c.nets, false);
    FoldKindIs(LiveAt(seed, c.nets), tail, false);
    FilterFirst(seed, tail, c.nets);
    HandedAssembled(seed, m, OfKind(Fold(LiveAt(seed, c.nets), tail), false), c);
  }

  lemma HandedAssembled(seed: Blocks, m: Blocks, nets: Blocks, c: Clocks)
    requires LiveAt(nets, c.nets) == LiveAt(OfKind(m, false), c.nets)
    ensures Kept(DeadlinesOf(seed), LiveAt(nets, c.nets), c)
            + (DeadlinesOf(LiveAt(OfKind(m, true), c.ips)) + DeadlinesOf(LiveAt(nets, c.nets)))
            == Handed(seed, m, c)
    ensures PermanentNets(LiveAt(nets, c.nets)) == PermanentNets(InForce(m, c))
  {
    InForceParts(m, c);
    KeptByNets(DeadlinesOf(seed), LiveAt(OfKind(m, true), c.ips), LiveAt(OfKind(m, false), c.nets), c);
  }

  lemma KeptByNets(deadlines: Schedule, ips: Blocks, nets: Blocks, c: Clocks)
    requires forall k :: k in ips ==> k.Ip?
    ensures Kept(deadlines, ips + nets, c) == Kept(deadlines, nets, c)
    ensures PermanentNets(ips + nets) == PermanentNets(nets)
  {
  }

  lemma InForceParts(m: Blocks, c: Clocks)
    ensures InForce(m, c) == LiveAt(OfKind(m, true), c.ips) + LiveAt(OfKind(m, false), c.nets)
    ensures DeadlinesOf(InForce(m, c))
            == DeadlinesOf(LiveAt(OfKind(m, true), c.ips)) + DeadlinesOf(LiveAt(OfKind(m, false), c.nets))
  {
  }

  /** The addresses among the records. */
  function Addresses(blocks: Records): (r: set<Key>) {
    set k | k in blocks && k.Ip?
  }

  /** The records that a snapshot is built from: every prefix, and the addresses in the index of blocked addresses. */
  function Shown(blocks: Records, listed: set<Key>): (r: Records) {
    blocks - (set k | k in blocks && k.Ip? && k !in listed)
  }

  /** If the last record of the tail that names `k` is a block, `k` is in the store throughout its time to live; an address
      with its reason and start. */
  ghost predicate KeptFor(blocks: Records, tail: seq<Entry>, c: Clocks, k: Key) {
    var e := LastOf(tail, k);
    e.Some? && e.value.Blocked? && Lasts(e.value, ClockFor(c, k)) ==>
      k in blocks && (k.Ip? ==> blocks[k].reason == e.value.reason && blocks[k].since == e.value.ts)
  }

  /** If it is a release, `k` is not in the store. */
  ghost predicate ReleasedBy(blocks: Records, tail: seq<Entry>, k: Key) {
    var e := LastOf(tail, k);
    e.Some? && !e.value.Blocked? ==> k !in blocks
  }

  lemma RecoveredIsKept(seed: Blocks, tail: seq<Entry>, c: Clocks, k: Key)
    ensures KeptFor(RecoveredStore(seed, Fold(seed, tail), c), tail, c, k)
    ensures ReleasedBy(RecoveredStore(seed, Fold(seed, tail), c), tail, k)
  {
    if LastOf(tail, k).Some? {
      ReplayedBlock(seed, tail, k, ClockFor(c, k));
    }
  }

  class Store {
    var blocks: Records
    /** Seconds until the store drops a restored address record by itself. */
    var ttls: Schedule
    /** The index of blocked addresses. */
    var listed: set<Key>

    /** The index lists every blocked address. */
    predicate Indexed()
      reads this
    {
      listed == Addresses(blocks)
    }

    constructor ()
      ensures blocks == map[] && ttls == map[] && listed == {}
    {
      blocks, ttls, listed := map[], map[], {};
    }

    /** A block decision of the running service. It touches the record alone: a time to live that the record has stays,
        and the address does not enter the index. A record whose time to live is over is made anew. */
    method UpdateBlockState(k: Key, b: Block, expired: bool)
      modifies this
      ensures blocks == old(blocks)[k := StoredOf(b)]
      ensures listed == if expired then old(listed) - {k} else old(listed)
      ensures ttls == if expired then old(ttls) - {k} else old(ttls)
    {
      if expired {
        Remove(k);
      }
      blocks := blocks[k := StoredOf(b)];
    }

    /** A release by the running service, or the eviction of a record whose time to live is over. */
    method Remove(k: Key)
      modifies this
      ensures blocks == old(blocks) - {k} && ttls == old(ttls) - {k} && listed == old(listed) - {k}
    {
      blocks, ttls, listed := blocks - {k}, ttls - {k}, listed - {k};
    }

    /** Writes a block; an address that was not blocked before enters the index. */
    method Write(k: Key, b: Block)
      modifies this`blocks, this`listed
      ensures blocks == old(blocks)[k := StoredOf(b)]
      ensures old(Indexed()) ==> Indexed()
    {
      if k.Ip? && k !in blocks {
        listed := listed + {k};
      }
      blocks := blocks[k := StoredOf(b)];
    }

    /** The image of this store, taken while no mutation is half done. */
    method BuildSnapshot(schedule: Schedule) returns (image: Image)
      ensures Images(image, Joined(Shown(blocks, listed), schedule))
    {
      image := [];
      var shown := Shown(blocks, listed);
      var todo := shown.Keys;
      ghost var m := Joined(shown, schedule);
      while todo != {}
        invariant todo <= shown.Keys && Images(image, m - todo)
        decreases |todo|
      {
        var k :| k in todo;
        var r := Record(k, ReasonName(blocks[k].reason), blocks[k].since, Scheduled(schedule, k));
        assert (m - (todo - {k})) - {k} == m - todo;
        assert (image + [r])[..|image|] == image;
        image := image + [r];
        todo := todo - {k};
      }
      assert m - {} == m;
    }

    /** Expired records are dropped, the others restored with their reason, start and absolute deadline. */
    method RestoreFromSnapshot(image: Image, now: nat) returns (seed: Blocks, deadlines: Schedule)
      requires Distinct(image)
      modifies this
      ensures seed == Seed(image, now) && deadlines == DeadlinesOf(seed)
      ensures blocks == old(blocks) + RecordsOf(seed) && ttls == old(ttls) + TtlsOf(seed, now)
      ensures old(Indexed()) ==> Indexed()
    {
      ghost var start := Restoring(map[], map[], blocks, ttls);
      seed, deadlines := RestoreRecords(image, now);
      RestoresSeed(start, image, now);
      RestoresRecords(start, image, now);
      RestoresDeadlines(start, image, now);
      RestoresTtls(start, image, now);
    }

    /** The loop over the records. */
    method RestoreRecords(image: Image, now: nat) returns (seed: Blocks, deadlines: Schedule)
      modifies this
      ensures Restoring(seed, deadlines, blocks, ttls)
              == RestoreAll(Restoring(map[], map[], old(blocks), old(ttls)), image, now)
      ensures old(Indexed()) ==> Indexed()
    {
      seed, deadlines := map[], map[];
      ghost var start := Restoring(map[], map[], blocks, ttls);
      var i := 0;
      while i < |image|
        invariant i <= |image| && Restoring(seed, deadlines, blocks, ttls) == RestoreAll(start, image[..i], now)
        invariant old(Indexed()) ==> Indexed()
      {
        var r := image[i];
        assert image[..i + 1][..i] == image[..i];
        var verdict := Classify(r.deadline, now);
        if !verdict.Expired? {
          seed := seed[r.key := RestoredBlock(r)];
          Write(r.key, RestoredBlock(r));
          if verdict.Live? {
            deadlines := deadlines[r.key := now + verdict.remaining];
            if r.key.Ip? {
              ttls := ttls[r.key := DivCeil(verdict.remaining, NS_PER_SEC)];
            }
          }
        }
        i := i + 1;
      }
      assert image[..i] == image;
    }

    /** Folds the address records of the log tail over the seed, then brings the store in line: seeded addresses
        that the tail released go, and every address still in force is written, without a time to live of its own. */
    method ReplayIps(tail: seq<Entry>, seed: Blocks, now: nat) returns (folded: Blocks)
      modifies this
      ensures folded == FoldKind(seed, tail, true)
      ensures blocks == AfterIps(old(blocks), seed, folded, now)
      ensures ttls == old(ttls) - (seed.Keys - folded.Keys) - LiveAt(folded, now).Keys
      ensures old(Indexed()) ==> Indexed()
    {
      folded := FoldTail(tail, seed, true);
      Release(seed.Keys - folded.Keys);
      WriteLive(folded, now);
    }

    /** The same for prefixes, whose seed is first cleared of what has expired since it was restored. */
    method ReplayNets(tail: seq<Entry>, seed: Blocks, now: nat) returns (folded: Blocks)
      modifies this
      ensures folded == FoldKind(LiveAt(seed, now), tail, false)
      ensures blocks == AfterNets(old(blocks), seed, folded, now)
      ensures ttls == old(ttls) - (seed.Keys - LiveAt(folded, now).Keys) - LiveAt(folded, now).Keys
      ensures old(Indexed()) ==> Indexed()
    {
      folded := FoldTail(tail, LiveAt(seed, now), false);
      Release(seed.Keys - LiveAt(folded, now).Keys);
      WriteLive(folded, now);
    }

    /** Recovery of an empty store from a snapshot and the log tail behind it. `mirrored` is what checkpoints see of
        the schedule. */
    method Recover(image: Image, tail: seq<Entry>, c: Clocks) returns (handed: Schedule, mirrored: Schedule)
      requires blocks == map[] && ttls == map[] && Indexed() && Distinct(image)
      modifies this
      ensures var seed := Seed(image, c.restore);
              && blocks == RecoveredStore(seed, Fold(seed, tail), c)
              && ttls == RecoveredTtls(seed, Fold(seed, tail), c)
              && handed == Handed(seed, Fold(seed, tail), c)
              && mirrored == Mirrored(seed, Fold(seed, tail), c)
      ensures forall k :: KeptFor(blocks, tail, c, k) && ReleasedBy(blocks, tail, k)
      ensures Indexed()
    {
      var seed, deadlines := RestoreFromSnapshot(image, c.restore);
      assert blocks == RecordsOf(seed) && ttls == TtlsOf(seed, c.restore);
      var ips := ReplayIps(tail, OfKind(seed, true), c.ips);
      var nets := ReplayNets(tail, OfKind(seed, false), c.nets);
      ReplaysRecover(seed, tail, c);
      TtlsRecover(seed, tail, c);
      handed := Kept(deadlines, LiveAt(nets, c.nets), c)
      + (DeadlinesOf(LiveAt(ips, c.ips)) + DeadlinesOf(LiveAt(nets, c.nets)));
      mirrored := handed - PermanentNets(LiveAt(nets, c.nets));
      HandedParts(seed, tail, c);
      forall k: Key ensures KeptFor(blocks, tail, c, k) && ReleasedBy(blocks, tail, k) {
        RecoveredIsKept(seed, tail, c, k);
      }
    }

    method FoldTail(tail: seq<Entry>, seed: Blocks, ip: bool) returns (folded: Blocks)
      ensures folded == FoldKind(seed, tail, ip)
    {
      folded := seed;
      var i := 0;
      while i < |tail|
        invariant i <= |tail| && folded == FoldKind(seed, tail[..i], ip)
      {
        var e := tail[i];
        assert tail[..i + 1][..i] == tail[..i];
        match e {
          case Blocked(k, _, _, _) =>
            if k.Ip? == ip {
              folded := folded[k := Logged(e)];
            }
          case Unblocked(k) =>
            if k.Ip? == ip {
              folded := folded - {k};
            }
          case Traffic =>
        }
        i := i + 1;
      }
      assert tail[..i] == tail;
    }

    method Release(keys: set<Key>)
      modifies this
      ensures blocks == old(blocks) - keys && ttls == old(ttls) - keys
      ensures old(Indexed()) ==> Indexed()
    {
      var todo := keys;
      while todo != {}
        invariant todo <= keys && blocks == old(blocks) - (keys - todo) && ttls == old(ttls) - (keys - todo)
        invariant old(Indexed()) ==> Indexed()
        decreases |todo|
      {
        var k :| k in todo;
        assert keys - (todo - {k}) == (keys - todo) + {k};
        Remove(k);
        todo := todo - {k};
      }
      assert keys - {} == keys;
    }

    /** Writes every block still in force, which takes any time to live off its record. */
    method WriteLive(m: Blocks, now: nat)
      modifies this
      ensures blocks == old(blocks) + RecordsOf(LiveAt(m, now)) && ttls == old(ttls) - LiveAt(m, now).Keys
      ensures old(Indexed()) ==> Indexed()
    {
      var todo := m.Keys;
      ghost var live, blocks0, ttls0 := LiveAt(m, now), blocks, ttls;
      WrittenStart(blocks0, ttls0, live, todo);
      while todo != {}
        invariant todo <= m.Keys
        invariant blocks == Written(blocks0, live, todo) && ttls == Dropped(ttls0, live, todo)
        invariant old(Indexed()) ==> Indexed()
        decreases |todo|
      {
        var k :| k in todo;
        WrittenStep(blocks0, live, todo, k);
        DroppedStep(ttls0, live, todo, k);
        if Ahead(m[k].deadline, now) {
          Write(k, m[k]);
          ttls := ttls - {k};
        }
        todo := todo - {k};
      }
    }
  }
}
