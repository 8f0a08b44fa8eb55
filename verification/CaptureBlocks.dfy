/** Capture blocks written out field by field (the structures of TPACKET_V3), and what the walk hands on of them. */
module CaptureBlocks {
  import opened CaptureRing
  import opened Values

  // ----- Little-endian fields -----

  function Le16(v: nat): (r: seq<byte>)
    requires v < 0x1_0000
    ensures |r| == 2
  {
    [v % 256, v / 256]
  }

  function Le32(v: nat): (r: seq<byte>)
    requires v < 0x1_0000_0000
    ensures |r| == 4
  {
    Le16(v % 0x1_0000) + Le16(v / 0x1_0000)
  }

  lemma Le16IsRead(v: nat, f: seq<byte>, at: nat)
    requires v < 0x1_0000 && at + 2 <= |f| && f[at..at + 2] == Le16(v)
    ensures U16At(f, at) == v
  {
    assert f[at] == f[at..at + 2][0] && f[at + 1] == f[at..at + 2][1];
  }

  lemma Le32IsRead(v: nat, f: seq<byte>, at: nat)
    requires v < 0x1_0000_0000 && at + 4 <= |f| && f[at..at + 4] == Le32(v)
    ensures U32At(f, at) == v
  {
    var t := f[at..at + 4];
    assert f[at..at + 2] == t[..2] == Le16(v % 0x1_0000);
    assert f[at + 2..at + 4] == t[2..] == Le16(v / 0x1_0000);
    Le16IsRead(v % 0x1_0000, f, at);
    Le16IsRead(v / 0x1_0000, f, at + 2);
  }

  // ----- The structures -----

  /** A packet in the ring: the fields of its header but for the lengths and offsets, the bytes between header and frame,
      the frame, and the padding behind it. The distance to the next header is announced up to `slack` bytes short. */
  datatype Unit = Unit(sec: nat, nsec: nat, len: nat, status: nat, net: nat, rxhash: nat, vlanTci: nat, vlanTpid: nat,
                       padding: nat, padding2: seq<byte>, gap: seq<byte>, frame: seq<byte>, fill: seq<byte>, slack: nat)

  predicate ValidUnit(u: Unit, frameSize: nat) {
    && u.sec < 0x1_0000_0000 && u.nsec < 0x1_0000_0000 && u.len < 0x1_0000_0000 && u.status < 0x1_0000_0000
    && u.net < 0x1_0000 && u.rxhash < 0x1_0000_0000 && u.vlanTci < 0x1_0000_0000 && u.vlanTpid < 0x1_0000
    && u.padding < 0x1_0000 && |u.padding2| == 8
    && 48 + |u.gap| < 0x1_0000 && 48 + |u.gap| <= frameSize && |u.frame| <= frameSize
    && UnitSize(u) < 0x1_0000_0000 && UnitSize(u) % 16 == 0 && u.slack < 16
  }

  function UnitSize(u: Unit): (n: nat) {
    48 + |u.gap| + |u.frame| + |u.fill|
  }

  /** What the header announces about the next one; the last header announces none. */
  function Announced(u: Unit, last: bool): (n: nat)
    requires u.slack < 16
  {
    if last then 0 else UnitSize(u) - u.slack
  }

  /** The header: next offset, seconds, nanoseconds, captured length, length, status, offset of the frame, offset of its
      network header, and eight fields more. */
  function Header(u: Unit, last: bool, frameSize: nat): (h: seq<byte>)
    requires ValidUnit(u, frameSize)
    ensures |h| == 48
  {
    Times(u, last, frameSize) + Places(u, frameSize) + Rest(u, frameSize)
  }

  function Times(u: Unit, last: bool, frameSize: nat): (h: seq<byte>)
    requires ValidUnit(u, frameSize)
    ensures |h| == 16
  {
    Le32(Announced(u, last)) + Le32(u.sec) + Le32(u.nsec) + Le32(|u.frame|)
  }

  function Places(u: Unit, frameSize: nat): (h: seq<byte>)
    requires ValidUnit(u, frameSize)
    ensures |h| == 16
  {
    Le32(u.len) + Le32(u.status) + Le16(48 + |u.gap|) + Le16(u.net) + Le32(u.rxhash)
  }

  function Rest(u: Unit, frameSize: nat): (h: seq<byte>)
    requires ValidUnit(u, frameSize)
    ensures |h| == 16
  {
    Le32(u.vlanTci) + Le16(u.vlanTpid) + Le16(u.padding) + u.padding2
  }

  function WriteUnit(u: Unit, last: bool, frameSize: nat): (r: seq<byte>)
    requires ValidUnit(u, frameSize)
    ensures |r| == UnitSize(u)
  {
    Header(u, last, frameSize) + (u.gap + (u.frame + u.fill))
  }

  predicate ValidUnits(us: seq<Unit>, frameSize: nat) {
    us != [] ==> ValidUnit(us[0], frameSize) && ValidUnits(us[1..], frameSize)
  }

  function WriteUnits(us: seq<Unit>, frameSize: nat): (r: seq<byte>)
    requires ValidUnits(us, frameSize)
  {
    if us == [] then [] else WriteUnit(us[0], |us| == 1, frameSize) + WriteUnits(us[1..], frameSize)
  }

  function Frames(us: seq<Unit>): (r: seq<seq<byte>>) {
    if us == [] then [] else [us[0].frame] + Frames(us[1..])
  }

  /** The block descriptor but for its counts and offsets: version, offset of private data, status, sequence number and
      the four words of its two time stamps; `lead` is what stands between it and the first packet. */
  datatype Desc = Desc(version: nat, priv: nat, status: nat, sequence: seq<byte>, stamps: seq<byte>, lead: seq<byte>)

  predicate ValidDesc(d: Desc, us: seq<Unit>, blkLen: nat) {
    && d.version < 0x1_0000_0000 && d.priv < 0x1_0000_0000 && d.status < 0x1_0000_0000
    && |d.sequence| == 8 && |d.stamps| == 16 && |d.lead| % 4 == 0
    && |us| < 0x1_0000_0000 && 48 + |d.lead| < 0x1_0000_0000 && blkLen < 0x1_0000_0000
  }

  function Descriptor(d: Desc, us: seq<Unit>, blkLen: nat): (r: seq<byte>)
    requires ValidDesc(d, us, blkLen)
    ensures |r| == 48
  {
    (Le32(d.version) + Le32(d.priv) + Le32(d.status))
    + (Le32(|us|) + Le32(48 + |d.lead|) + Le32(blkLen))
    + (d.sequence + d.stamps)
  }

  function WriteBlock(d: Desc, us: seq<Unit>, blkLen: nat, frameSize: nat): (r: seq<byte>)
    requires ValidDesc(d, us, blkLen) && ValidUnits(us, frameSize)
  {
    Descriptor(d, us, blkLen) + (d.lead + WriteUnits(us, frameSize))
  }

  // ----- What stands where -----

  /** The bytes `t` stand at `at` in the ring. */
  ghost predicate Stands(ring: seq<byte>, at: nat, t: seq<byte>) {
    at + |t| <= |ring| && ring[at..at + |t|] == t
  }

  lemma StandsSplit(ring: seq<byte>, at: nat, x: seq<byte>, y: seq<byte>)
    requires Stands(ring, at, x + y)
    ensures Stands(ring, at, x) && Stands(ring, at + |x|, y)
  {
    var t := ring[at..at + |x + y|];
    assert ring[at..at + |x|] == t[..|x|] == x;
    assert ring[at + |x|..at + |x| + |y|] == t[|x|..] == y;
  }

  lemma FieldStands(ring: seq<byte>, at: nat, v: nat, before: seq<byte>, after: seq<byte>)
    requires v < 0x1_0000_0000 && Stands(ring, at, before + Le32(v) + after)
    ensures at + |before| + 4 <= |ring| && U32At(ring, at + |before|) == v
  {
    StandsSplit(ring, at, before + Le32(v), after);
    StandsSplit(ring, at, before, Le32(v));
    Le32IsRead(v, ring, at + |before|);
  }

  lemma ShortFieldStands(ring: seq<byte>, at: nat, v: nat, before: seq<byte>, after: seq<byte>)
    requires v < 0x1_0000 && Stands(ring, at, before + Le16(v) + after)
    ensures at + |before| + 2 <= |ring| && U16At(ring, at + |before|) == v
  {
    StandsSplit(ring, at, before + Le16(v), after);
    StandsSplit(ring, at, before, Le16(v));
    Le16IsRead(v, ring, at + |before|);
  }

  lemma TimesRead(ring: seq<byte>, at: nat, u: Unit, last: bool, frameSize: nat)
    requires ValidUnit(u, frameSize) && Stands(ring, at, Times(u, last, frameSize))
    ensures at + 16 <= |ring| && U32At(ring, at) == Announced(u, last) && U32At(ring, at + 12) == |u.frame|
  {
    var a, b, c, d := Le32(Announced(u, last)), Le32(u.sec), Le32(u.nsec), Le32(|u.frame|);
    assert Times(u, last, frameSize) == [] + a + (b + c + d) == (a + b + c) + d + [];
    FieldStands(ring, at, Announced(u, last), [], b + c + d);
    FieldStands(ring, at, |u.frame|, a + b + c, []);
  }

  lemma PlacesRead(ring: seq<byte>, at: nat, u: Unit, frameSize: nat)
    requires ValidUnit(u, frameSize) && Stands(ring, at, Places(u, frameSize))
    ensures at + 16 <= |ring| && U16At(ring, at + 8) == 48 + |u.gap|
  {
    var a, b, c, d, e := Le32(u.len), Le32(u.status), Le16(48 + |u.gap|), Le16(u.net), Le32(u.rxhash);
    assert Places(u, frameSize) == (a + b) + c + (d + e);
    ShortFieldStands(ring, at, 48 + |u.gap|, a + b, d + e);
  }

  /** The walk reads the fields of a header where they were written. */
  lemma HeaderRead(ring: seq<byte>, at: nat, u: Unit, last: bool, frameSize: nat)
    requires ValidUnit(u, frameSize) && Stands(ring, at, Header(u, last, frameSize))
    ensures at + 48 <= |ring| && NextField(ring, at) == Announced(u, last)
    ensures SnaplenField(ring, at) == |u.frame| && MacField(ring, at) == 48 + |u.gap|
  {
    StandsSplit(ring, at, Times(u, last, frameSize) + Places(u, frameSize), Rest(u, frameSize));
    StandsSplit(ring, at, Times(u, last, frameSize), Places(u, frameSize));
    TimesRead(ring, at, u, last, frameSize);
    PlacesRead(ring, at + 16, u, frameSize);
  }

  lemma DescriptorRead(ring: seq<byte>, at: nat, d: Desc, us: seq<Unit>, blkLen: nat)
    requires ValidDesc(d, us, blkLen) && Stands(ring, at, Descriptor(d, us, blkLen))
    ensures at + 48 <= |ring| && U32At(ring, at + 12) == |us| && U32At(ring, at + 16) == 48 + |d.lead|
    ensures U32At(ring, at + 20) == blkLen
  {
    var x, y, z := Le32(|us|), Le32(48 + |d.lead|), Le32(blkLen);
    var front := Le32(d.version) + Le32(d.priv) + Le32(d.status);
    StandsSplit(ring, at, front + (x + y + z), d.sequence + d.stamps);
    StandsSplit(ring, at, front, x + y + z);
    assert x + y + z == [] + x + (y + z) == x + y + z == (x + y) + z + [];
    FieldStands(ring, at + 12, |us|, [], y + z);
    FieldStands(ring, at + 12, 48 + |d.lead|, x, z);
    FieldStands(ring, at + 12, blkLen, x + y, []);
  }

  // ----- The walk -----

  /** The bytes handed on. */
  function Contents(ring: seq<byte>, w: seq<Packet>): (r: seq<seq<byte>>) {
    if w == [] then []
    else [if w[0].at + w[0].len <= |ring| then ring[w[0].at..w[0].at + w[0].len] else []] + Contents(ring, w[1..])
  }

  /** A distance announced up to 15 bytes short of a multiple of 16 leads that multiple on. */
  lemma SuccessorFound(off: usize, u: Unit, blkLen: usize, blockSize: usize)
    requires u.slack < 16 && UnitSize(u) % 16 == 0 && off + UnitSize(u) + 48 <= blkLen <= blockSize
    ensures NextOffset(off, UnitSize(u) - u.slack, false, blkLen, blockSize) == Ok(Some(off + UnitSize(u)))
  {
    var padded := UnitSize(u) - u.slack + 15;
    assert padded - padded % 16 == UnitSize(u);
  }

  /** Where a block starts in the ring, and how far it reaches. */
  ghost predicate Based(b: Block, base: nat) {
    base == b.idx * b.size && base + b.size <= b.ringLen && 48 <= b.len <= b.size
  }

  /** Which bytes stand where in a ring. */
  type Sight = (nat, seq<byte>) -> bool

  function SightOf(ring: seq<byte>): (stands: Sight) {
    (at: nat, t: seq<byte>) => at + |t| <= |ring| && ring[at..at + |t|] == t
  }

  ghost predicate SplitsAt(stands: Sight, at: nat, x: seq<byte>, y: seq<byte>) {
    stands(at, x + y) ==> stands(at, x) && stands(at + |x|, y)
  }

  ghost predicate Splits(stands: Sight) {
    forall at: nat, x: seq<byte>, y: seq<byte> :: SplitsAt(stands, at, x, y)
  }

  lemma SightSplits(ring: seq<byte>)
    ensures Splits(SightOf(ring))
  {
    forall at: nat, x: seq<byte>, y: seq<byte> ensures SplitsAt(SightOf(ring), at, x, y) {
      if SightOf(ring)(at, x + y) {
        StandsSplit(ring, at, x, y);
      }
    }
  }

  /** A unit that stands at `off` in a block that starts at `base` and is `len` bytes long. */
  ghost predicate UnitAt(stands: Sight, base: nat, len: nat, frameSize: nat, off: nat, u: Unit, last: bool) {
    && ValidUnit(u, frameSize) && 48 <= off && off % 4 == 0 && off + UnitSize(u) + (if last then 0 else 48) <= len
    && stands(base + off, WriteUnit(u, last, frameSize))
  }

  lemma HeaderIsAt(b: Block, base: nat, off: usize)
    requires Based(b, base) && 48 <= off && off % 4 == 0 && off + 48 <= b.len
    ensures base + off + 48 <= b.ringLen && HeaderOffset(b, off) == Some(base + off)
  {
    HeaderInBlock(b, off);
  }

  lemma PacketIsAt(b: Block, base: nat, off: usize, mac: usize, snaplen: usize)
    requires Based(b, base) && 48 <= off && off % 4 == 0 && off + 48 <= b.len && off + mac + snaplen <= b.len
    ensures base + off + mac <= USIZE_MAX && PacketOffset(b, off, mac, snaplen) == Some(base + off + mac)
  {
    HeaderIsAt(b, base, off);
    PacketInBlock(b, off, mac, snaplen);
  }

  /** What the walk does at a header whose fields and checks are known. */
  lemma VisitIs(ring: seq<byte>, b: Block, off: usize, isLast: bool, header: usize, mac: usize, snaplen: usize, next: usize,
                at: usize, onward: Result<Option<usize>>)
    requires Fits(ring, b) && HeaderOffset(b, off) == Some(header) && header + 48 <= |ring|
    requires MacField(ring, header) == mac && SnaplenField(ring, header) == snaplen && NextField(ring, header) == next
    requires PacketOffset(b, off, mac, snaplen) == Some(at) && mac <= b.frameSize && snaplen <= b.frameSize
    requires NextOffset(off, next, isLast, b.len, b.size) == onward
    ensures VisitAt(ring, b, off, isLast) == Accept(Packet(off, at, snaplen), if onward.Ok? then onward.value else None)
  {
  }

  lemma FrameStands(ring: seq<byte>, at: nat, u: Unit, last: bool, frameSize: nat)
    requires ValidUnit(u, frameSize) && Stands(ring, at, WriteUnit(u, last, frameSize))
    ensures Stands(ring, at, Header(u, last, frameSize)) && Stands(ring, at + 48 + |u.gap|, u.frame)
  {
    StandsSplit(ring, at, Header(u, last, frameSize), u.gap + (u.frame + u.fill));
    StandsSplit(ring, at + 48, u.gap, u.frame + u.fill);
    StandsSplit(ring, at + 48 + |u.gap|, u.frame, u.fill);
  }

  /** The walk at `off` takes the unit's frame and goes on behind it. */
  ghost predicate Serves(visit: Visitor, ring: seq<byte>, base: nat, off: usize, u: Unit, last: bool) {
    var v := visit(off, last);
    && v.Accept? && v.packet.at == base + off + 48 + |u.gap| && v.packet.len == |u.frame| && Stands(ring, v.packet.at, u.frame)
    && if last then v.next.None? else v.next.Some? && v.next.value == off + UnitSize(u)
  }

  lemma OnwardIs(off: usize, u: Unit, last: bool, frameSize: nat, blkLen: usize, blockSize: usize)
    requires ValidUnit(u, frameSize) && blkLen <= blockSize && (last || off + UnitSize(u) + 48 <= blkLen)
    ensures NextOffset(off, Announced(u, last), last, blkLen, blockSize) == if last then Ok(None) else Ok(Some(off + UnitSize(u)))
  {
    if !last {
      SuccessorFound(off, u, blkLen, blockSize);
    }
  }

  /** The fields and the frame of a unit that stands at `header`. */
  lemma UnitRead(ring: seq<byte>, header: nat, u: Unit, last: bool, frameSize: nat)
    requires ValidUnit(u, frameSize) && Stands(ring, header, WriteUnit(u, last, frameSize))
    ensures header + 48 <= |ring| && NextField(ring, header) == Announced(u, last)
    ensures SnaplenField(ring, header) == |u.frame| && MacField(ring, header) == 48 + |u.gap|
    ensures Stands(ring, header + 48 + |u.gap|, u.frame)
  {
    FrameStands(ring, header, u, last, frameSize);
    HeaderRead(ring, header, u, last, frameSize);
  }

  lemma UnitServed(ring: seq<byte>, b: Block, off: usize, header: usize, at: usize, u: Unit, last: bool)
    requires Fits(ring, b) && ValidUnit(u, b.frameSize) && Stands(ring, header, WriteUnit(u, last, b.frameSize))
    requires HeaderOffset(b, off) == Some(header) && at == header + 48 + |u.gap|
    requires PacketOffset(b, off, 48 + |u.gap|, |u.frame|) == Some(at)
    requires b.len <= b.size && (last || off + UnitSize(u) + 48 <= b.len)
    ensures VisitAt(ring, b, off, last) == Accept(Packet(off, at, |u.frame|), if last then None else Some(off + UnitSize(u)))
    ensures Stands(ring, at, u.frame)
  {
    UnitRead(ring, header, u, last, b.frameSize);
    OnwardIs(off, u, last, b.frameSize, b.len, b.size);
    VisitIs(ring, b, off, last, header, 48 + |u.gap|, |u.frame|, Announced(u, last), at,
            if last then Ok(None) else Ok(Some(off + UnitSize(u))));
  }

  lemma UnitVisited(ring: seq<byte>, b: Block, base: nat, off: usize, u: Unit, last: bool)
    requires Fits(ring, b) && Based(b, base) && UnitAt(SightOf(ring), base, b.len, b.frameSize, off, u, last)
    ensures Serves(BlockVisitor(ring, b), ring, base, off, u, last)
  {
    HeaderIsAt(b, base, off);
    PacketIsAt(b, base, off, 48 + |u.gap|, |u.frame|);
    UnitServed(ring, b, off, base + off, base + off + 48 + |u.gap|, u, last);
  }

  /** The walk serves every unit that stands in the block. */
  ghost predicate ServesAll(visit: Visitor, ring: seq<byte>, stands: Sight, base: nat, len: nat, frameSize: nat) {
    forall off: usize, u: Unit, last: bool ::
      UnitAt(stands, base, len, frameSize, off, u, last) ==> Serves(visit, ring, base, off, u, last)
  }

  lemma BlockIsServed(ring: seq<byte>, b: Block, base: nat)
    requires Fits(ring, b) && Based(b, base)
    ensures ServesAll(BlockVisitor(ring, b), ring, SightOf(ring), base, b.len, b.frameSize)
  {
    forall off: usize, u: Unit, last: bool | UnitAt(SightOf(ring), base, b.len, b.frameSize, off, u, last)
      ensures Serves(BlockVisitor(ring, b), ring, base, off, u, last)
    {
      UnitVisited(ring, b, base, off, u, last);
    }
  }

  /** The units stand one behind the other from `off` on. */
  ghost predicate Chained(stands: Sight, base: nat, len: nat, frameSize: nat, off: nat, us: seq<Unit>)
    decreases |us|
  {
    us == [] ||
    (&& UnitAt(stands, base, len, frameSize, off, us[0], |us| == 1)
     && Chained(stands, base, len, frameSize, off + UnitSize(us[0]), us[1..]))
  }

  function TotalSize(us: seq<Unit>): (n: nat) {
    if us == [] then 0 else UnitSize(us[0]) + TotalSize(us[1..])
  }

  lemma {:induction false} WrittenSize(us: seq<Unit>, frameSize: nat)
    requires ValidUnits(us, frameSize)
    ensures |WriteUnits(us, frameSize)| == TotalSize(us)
  {
    if us != [] {
      WrittenSize(us[1..], frameSize);
    }
  }

  /** The units still to come stand at `off` and fit the block. */
  ghost predicate Upcoming(stands: Sight, base: nat, len: nat, frameSize: nat, off: nat, us: seq<Unit>) {
    && ValidUnits(us, frameSize) && 48 <= off && off % 4 == 0 && off + TotalSize(us) <= len
    && stands(base + off, WriteUnits(us, frameSize))
  }

  lemma FirstStands(stands: Sight, at: nat, frameSize: nat, us: seq<Unit>)
    requires Splits(stands) && us != [] && ValidUnits(us, frameSize) && stands(at, WriteUnits(us, frameSize))
    ensures stands(at, WriteUnit(us[0], |us| == 1, frameSize)) && stands(at + UnitSize(us[0]), WriteUnits(us[1..], frameSize))
  {
    assert SplitsAt(stands, at, WriteUnit(us[0], |us| == 1, frameSize), WriteUnits(us[1..], frameSize));
  }

  lemma FirstFits(len: nat, frameSize: nat, off: nat, us: seq<Unit>)
    requires us != [] && ValidUnits(us, frameSize) && off % 4 == 0 && off + TotalSize(us) <= len
    ensures off + UnitSize(us[0]) + (if |us| == 1 then 0 else 48) <= len
    ensures (off + UnitSize(us[0])) % 4 == 0 && off + UnitSize(us[0]) + TotalSize(us[1..]) <= len
  {
    assert |us| > 1 ==> TotalSize(us[1..]) >= UnitSize(us[1]) >= 48;
  }

  lemma FirstUpcoming(stands: Sight, base: nat, len: nat, frameSize: nat, off: nat, us: seq<Unit>)
    requires Splits(stands) && us != [] && Upcoming(stands, base, len, frameSize, off, us)
    ensures UnitAt(stands, base, len, frameSize, off, us[0], |us| == 1)
    ensures Upcoming(stands, base, len, frameSize, off + UnitSize(us[0]), us[1..])
  {
    FirstStands(stands, base + off, frameSize, us);
    FirstFits(len, frameSize, off, us);
  }

  lemma {:induction false} WrittenChained(stands: Sight, base: nat, len: nat, frameSize: nat, off: nat, us: seq<Unit>)
    requires Splits(stands) && Upcoming(stands, base, len, frameSize, off, us)
    ensures Chained(stands, base, len, frameSize, off, us)
    decreases |us|
  {
    if us != [] {
      FirstUpcoming(stands, base, len, frameSize, off, us);
      WrittenChained(stands, base, len, frameSize, off + UnitSize(us[0]), us[1..]);
    }
  }

  /** One step of the walk, and the bytes it hands on. */
  lemma WalkOn(ring: seq<byte>, visit: Visitor, off: usize, left: nat, frame: seq<byte>, rest: seq<seq<byte>>)
    requires left > 0 && visit(off, left == 1).Accept?
    requires var p := visit(off, left == 1).packet; p.len == |frame| && Stands(ring, p.at, frame)
    requires var next := visit(off, left == 1).next;
             if next.None? then rest == [] else Contents(ring, Walk(visit, next.value, left - 1)) == rest
    ensures Contents(ring, Walk(visit, off, left)) == [frame] + rest
  {
    var v := visit(off, left == 1);
    if v.next.None? {
      assert Walk(visit, off, left) == [v.packet];
    } else {
      assert Walk(visit, off, left)[1..] == Walk(visit, v.next.value, left - 1);
    }
  }

  lemma {:induction false} UnitsWalked(ring: seq<byte>, stands: Sight, visit: Visitor, base: nat, len: usize, frameSize: nat,
                                       off: usize, us: seq<Unit>)
    requires ServesAll(visit, ring, stands, base, len, frameSize) && Chained(stands, base, len, frameSize, off, us)
    ensures Contents(ring, Walk(visit, off, |us|)) == Frames(us)
    decreases |us|
  {
    if us != [] {
      assert Serves(visit, ring, base, off, us[0], |us| == 1);
      if |us| > 1 {
        UnitsWalked(ring, stands, visit, base, len, frameSize, off + UnitSize(us[0]), us[1..]);
      }
      WalkOn(ring, visit, off, |us|, us[0].frame, Frames(us[1..]));
    }
  }

  lemma BehindLead(stands: Sight, base: nat, front: seq<byte>, lead: seq<byte>, units: seq<byte>)
    requires Splits(stands) && stands(base, front + (lead + units))
    ensures stands(base + |front| + |lead|, units)
  {
    assert SplitsAt(stands, base, front, lead + units);
    assert SplitsAt(stands, base + |front|, lead, units);
  }

  lemma UnitsStand(stands: Sight, base: nat, len: nat, frameSize: nat, d: Desc, us: seq<Unit>)
    requires Splits(stands) && ValidDesc(d, us, len) && ValidUnits(us, frameSize)
    requires stands(base, WriteBlock(d, us, len, frameSize)) && |WriteBlock(d, us, len, frameSize)| <= len
    ensures Upcoming(stands, base, len, frameSize, 48 + |d.lead|, us)
  {
    BehindLead(stands, base, Descriptor(d, us, len), d.lead, WriteUnits(us, frameSize));
    WrittenSize(us, frameSize);
  }

  /** The walk over a written block. */
  lemma WrittenIsWalked(ring: seq<byte>, b: Block, base: nat, d: Desc, us: seq<Unit>)
    requires Fits(ring, b) && Based(b, base) && ValidDesc(d, us, b.len)
    requires Chained(SightOf(ring), base, b.len, b.frameSize, 48 + |d.lead|, us)
    ensures Contents(ring, Walk(BlockVisitor(ring, b), 48 + |d.lead|, |us|)) == Frames(us)
  {
    BlockIsServed(ring, b, base);
    UnitsWalked(ring, SightOf(ring), BlockVisitor(ring, b), base, b.len, b.frameSize, 48 + |d.lead|, us);
  }

  /** Of every block that was written the walk hands on exactly the frames, each whole and in order, whatever else the ring
      holds. */
  method WalkWritten(ring: seq<byte>, idx: usize, size: usize, base: nat, frameSize: usize, ghost d: Desc, ghost us: seq<Unit>,
                     ghost blkLen: nat)
    returns (packets: seq<Packet>)
    requires |ring| <= USIZE_MAX && base == idx * size && base + size <= |ring|
    requires ValidDesc(d, us, blkLen) && ValidUnits(us, frameSize)
    requires Stands(ring, base, WriteBlock(d, us, blkLen, frameSize)) && |WriteBlock(d, us, blkLen, frameSize)| <= blkLen <= size
    ensures Contents(ring, packets) == Frames(us) && |packets| == |us|
  {
    StandsSplit(ring, base, Descriptor(d, us, blkLen), d.lead + WriteUnits(us, frameSize));
    DescriptorRead(ring, base, d, us, blkLen);
    SightSplits(ring);
    UnitsStand(SightOf(ring), base, blkLen, frameSize, d, us);
    WrittenChained(SightOf(ring), base, blkLen, frameSize, 48 + |d.lead|, us);
    WrittenIsWalked(ring, DescribedBlock(ring, idx, size, base, frameSize), base, d, us);
    packets := WalkBlock(ring, idx, size, base, frameSize);
    ContentsSize(ring, packets);
    FramesSize(us);
  }

  lemma {:induction false} ContentsSize(ring: seq<byte>, w: seq<Packet>)
    ensures |Contents(ring, w)| == |w|
  {
    if w != [] {
      ContentsSize(ring, w[1..]);
    }
  }

  lemma {:induction false} FramesSize(us: seq<Unit>)
    ensures |Frames(us)| == |us|
  {
    if us != [] {
      FramesSize(us[1..]);
    }
  }
}
