/** The walk over one block of a TPACKET_V3 capture ring, whose every length, count and offset comes
    from outside the process. */
module CaptureRing {
  import opened Values

  const USIZE_MAX: nat := 0xFFFF_FFFF_FFFF_FFFF
  const DESC_SIZE: nat := 48
  const HEADER_SIZE: nat := 48
  const HEADER_ALIGN: nat := 4
  const TPACKET_ALIGNMENT: nat := 16

  datatype Result<+T> = Ok(value: T) | Err(reason: string)

  type usize = n: nat | n <= USIZE_MAX

  function CheckedAdd(a: usize, b: usize): (r: Option<usize>) {
    if a + b <= USIZE_MAX then Some(a + b) else None
  }

  function CheckedMul(a: usize, b: usize): (r: Option<usize>) {
    if a * b <= USIZE_MAX then Some(a * b) else None
  }

  function CheckedRangeEnd(start: usize, len: usize, limit: usize): (r: Option<usize>) {
    var end := CheckedAdd(start, len);
    if end.Some? && end.value <= limit then end else None
  }

  predicate ValidBlockLen(blkLen: usize, blockSize: usize) {
    DESC_SIZE <= blkLen <= blockSize
  }

  /** The block being walked: its number, the ring's geometry and the length its descriptor declares. */
  datatype Block = Block(idx: usize, size: usize, ringLen: usize, len: usize, frameSize: usize)

  /** Absolute offset of the packet header at `off`, when the whole header lies in block and ring. */
  function HeaderOffset(b: Block, off: usize): (r: Option<usize>) {
    if !ValidBlockLen(b.len, b.size) || off < DESC_SIZE || off % HEADER_ALIGN != 0 then None
    else if CheckedRangeEnd(off, HEADER_SIZE, b.len).None? then None
    else if CheckedRangeEnd(off, HEADER_SIZE, b.size).None? then None
    else
      var base := CheckedMul(b.idx, b.size);
      if base.None? then None else
      var end := CheckedRangeEnd(base.value, b.size, b.ringLen);
      if end.None? then None else
      var header := CheckedAdd(base.value, off);
      if header.None? then None else
      var headerEnd := CheckedRangeEnd(header.value, HEADER_SIZE, b.ringLen);
      if headerEnd.None? then None
      else if header.value < end.value && headerEnd.value <= end.value then header
      else None
  }

  /** Absolute offset of the packet bytes announced by the header at `off`. */
  function PacketOffset(b: Block, off: usize, mac: usize, snaplen: usize): (r: Option<usize>) {
    var header := HeaderOffset(b, off);
    if header.None? then None else
    var rel := CheckedAdd(off, mac);
    if rel.None? then None else
    var relEnd := CheckedRangeEnd(rel.value, snaplen, b.len);
    if relEnd.None? then None
    else if CheckedRangeEnd(rel.value, snaplen, b.size).None? then None
    else
      var base := CheckedMul(b.idx, b.size);
      if base.None? then None else
      var end := CheckedRangeEnd(base.value, b.size, b.ringLen);
      if end.None? then None else
      var packet := CheckedAdd(base.value, rel.value);
      if packet.None? then None else
      var packetEnd := CheckedRangeEnd(packet.value, snaplen, b.ringLen);
      if packetEnd.None? then None
      else if packet.value >= base.value && packetEnd.value <= end.value && relEnd.value <= b.len then packet
      else None
  }

  /** Where the next header starts; `Ok(None)` when the last descriptor ends the chain. */
  function NextOffset(off: usize, next: usize, isLast: bool, blkLen: usize, blockSize: usize): (r: Result<Option<usize>>) {
    if next == 0 then
      (if isLast then Ok(None) else Err("zero tp_next_offset before final packet"))
    else
      var padded := CheckedAdd(next, TPACKET_ALIGNMENT - 1);
      if padded.None? then Err("tp_next_offset alignment overflow") else
      var aligned := padded.value - padded.value % TPACKET_ALIGNMENT;
      if aligned < HEADER_SIZE then Err("tp_next_offset does not advance past the current header") else
      var nextOff := CheckedAdd(off, aligned);
      if nextOff.None? then Err("tp_next_offset addition overflow")
      else if CheckedRangeEnd(nextOff.value, HEADER_SIZE, blkLen).None? then Err("next packet header exceeds declared block")
      else if CheckedRangeEnd(nextOff.value, HEADER_SIZE, blockSize).None? then Err("next packet header exceeds block size")
      else Ok(Some(nextOff.value))
  }

  // ----- Reading the ring -----

  function U16At(ring: seq<byte>, a: nat): (v: nat)
    requires a + 2 <= |ring|
    ensures v < 0x1_0000
  {
    var lo: nat, hi: nat := ring[a], ring[a + 1];
    lo + 0x100 * hi
  }

  function U32At(ring: seq<byte>, a: nat): (v: nat)
    requires a + 4 <= |ring|
    ensures v < 0x1_0000_0000
  {
    U16At(ring, a) + 0x1_0000 * U16At(ring, a + 2)
  }

  function NextField(ring: seq<byte>, header: nat): nat
    requires header + HEADER_SIZE <= |ring|
  {
    U32At(ring, header)
  }

  function SnaplenField(ring: seq<byte>, header: nat): nat
    requires header + HEADER_SIZE <= |ring|
  {
    U32At(ring, header + 12)
  }

  function MacField(ring: seq<byte>, header: nat): nat
    requires header + HEADER_SIZE <= |ring|
  {
    U16At(ring, header + 24)
  }

  /** A packet handed to the parser: the header's offset in the block and the packet's range in the ring. */
  datatype Packet = Packet(off: usize, at: usize, len: usize)

  ghost predicate Fits(ring: seq<byte>, b: Block) {
    |ring| == b.ringLen
  }

  /** What the loop does with the descriptor at `off`: drop the rest of the block, or process a packet
      and go on to the next descriptor, if there is an acceptable one. */
  datatype Visit = Reject | Accept(packet: Packet, next: Option<usize>)

  function VisitAt(ring: seq<byte>, b: Block, off: usize, isLast: bool): (v: Visit)
    requires Fits(ring, b)
  {
    var header := HeaderOffset(b, off);
    if header.None? then Reject else
    HeaderInBlock(b, off);
    var snaplen, mac := SnaplenField(ring, header.value), MacField(ring, header.value);
    var at := PacketOffset(b, off, mac, snaplen);
    if at.None? || mac > b.frameSize || snaplen > b.frameSize then Reject else
    var next := NextOffset(off, NextField(ring, header.value), isLast, b.len, b.size);
    Accept(Packet(off, at.value, snaplen), if next.Ok? then next.value else None)
  }

  type Visitor = (usize, bool) -> Visit

  function BlockVisitor(ring: seq<byte>, b: Block): (visit: Visitor)
    requires Fits(ring, b)
  {
    (off: usize, isLast: bool) => VisitAt(ring, b, off, isLast)
  }

  /** The packets processed from `off` when `left` descriptors are still announced. */
  ghost function Walk(visit: Visitor, off: usize, left: nat): (w: seq<Packet>)
    decreases left
  {
    if left == 0 then []
    else match visit(off, left == 1)
      case Reject => []
      case Accept(p, None) => [p]
      case Accept(p, Some(next)) => [p] + Walk(visit, next, left - 1)
  }

  /** The block whose descriptor starts at `base`, with the length the descriptor declares. */
  function DescribedBlock(ring: seq<byte>, idx: usize, size: usize, base: nat, frameSize: usize): (b: Block)
    requires |ring| <= USIZE_MAX && base + DESC_SIZE <= |ring|
  {
    Block(idx, size, |ring|, U32At(ring, base + 20), frameSize)
  }

  /** One pass of the capture loop over the block that starts at `base` in the ring. */
  method WalkBlock(ring: seq<byte>, idx: usize, size: usize, base: nat, frameSize: usize) returns (packets: seq<Packet>)
    requires |ring| <= USIZE_MAX && DESC_SIZE <= size && base == idx * size && base + size <= |ring|
    ensures var b := DescribedBlock(ring, idx, size, base, frameSize);
            packets == if ValidBlockLen(b.len, size)
                       then Walk(BlockVisitor(ring, b), U32At(ring, base + 16), U32At(ring, base + 12)) else []
  {
    var b := DescribedBlock(ring, idx, size, base, frameSize);
    packets := [];
    if !ValidBlockLen(b.len, size) {
      return;
    }
    packets := WalkChain(BlockVisitor(ring, b), U32At(ring, base + 16), U32At(ring, base + 12));
  }

  /** The loop over at most `num` descriptors from offset `first`. */
  method WalkChain(visit: Visitor, first: usize, num: nat) returns (packets: seq<Packet>)
    ensures packets == Walk(visit, first, num)
  {
    var off := first;
    packets := [];
    var i := 0;
    while i < num
      invariant i <= num
      invariant Walk(visit, first, num) == packets + Walk(visit, off, num - i)
    {
      WalkContinues(visit, off, num - i, packets);
      var v := visit(off, i + 1 == num);
      if v.Reject? {
        return;
      }
      packets := packets + [v.packet];
      if v.next.None? {
        return;
      }
      off := v.next.value;
      i := i + 1;
    }
  }

  lemma WalkContinues(visit: Visitor, off: usize, left: nat, done: seq<Packet>)
    requires left > 0
    ensures var whole := done + Walk(visit, off, left);
            match visit(off, left == 1)
            case Reject => whole == done
            case Accept(p, None) => whole == done + [p]
            case Accept(p, Some(next)) => whole == done + [p] + Walk(visit, next, left - 1)
  {
    var v := visit(off, left == 1);
    if v.Accept? && v.next.Some? {
      var rest := Walk(visit, v.next.value, left - 1);
      assert done + ([v.packet] + rest) == done + [v.packet] + rest;
    }
  }

  // ----- What the checks mean -----

  /** A header offset is accepted exactly when the header lies in the declared block, past the block
      descriptor and aligned, and the block lies in the ring. */
  lemma HeaderInBlock(b: Block, off: usize)
    ensures HeaderOffset(b, off).Some? <==>
              && DESC_SIZE <= off && off % HEADER_ALIGN == 0
              && off + HEADER_SIZE <= b.len <= b.size
              && b.idx * b.size + b.size <= b.ringLen
    ensures HeaderOffset(b, off).Some? ==>
              && HeaderOffset(b, off).value == b.idx * b.size + off
              && HeaderOffset(b, off).value + HEADER_SIZE <= b.ringLen
  {
  }

  /** A packet range is accepted exactly when its header is and the range lies in the declared block. */
  lemma PacketInBlock(b: Block, off: usize, mac: usize, snaplen: usize)
    ensures PacketOffset(b, off, mac, snaplen).Some? <==>
              HeaderOffset(b, off).Some? && off + mac + snaplen <= b.len
    ensures PacketOffset(b, off, mac, snaplen).Some? ==>
              PacketOffset(b, off, mac, snaplen).value == b.idx * b.size + off + mac
  {
    HeaderInBlock(b, off);
  }

  /** A successor is 48 bytes or more further on, aligned alike, and its header fits the block. */
  lemma NextAdvances(off: usize, next: usize, isLast: bool, blkLen: usize, blockSize: usize)
    ensures var r := NextOffset(off, next, isLast, blkLen, blockSize);
            && (r.Ok? && r.value.Some? ==>
                  && r.value.value >= off + HEADER_SIZE
                  && r.value.value % HEADER_ALIGN == off % HEADER_ALIGN
                  && next <= r.value.value - off < next + TPACKET_ALIGNMENT
                  && r.value.value + HEADER_SIZE <= blkLen && r.value.value + HEADER_SIZE <= blockSize)
            && (r.Ok? && r.value.None? <==> next == 0 && isLast)
  {
  }

  /** Everything touched for a packet lies inside the declared block and the mapping. */
  ghost predicate InBlock(b: Block, p: Packet) {
    var base := b.idx * b.size;
    && DESC_SIZE <= p.off && p.off % HEADER_ALIGN == 0 && p.off + HEADER_SIZE <= b.len
    && base + p.off <= p.at && p.at + p.len <= base + b.len <= base + b.size <= b.ringLen
    && p.len <= b.frameSize
  }

  /** A visitor that accepts only packets of block `b` and moves on by 48 bytes or more. */
  ghost predicate Sound(visit: Visitor, b: Block) {
    forall off: usize, isLast: bool {:trigger visit(off, isLast)} ::
      var v := visit(off, isLast);
      v.Accept? ==> v.packet.off == off && InBlock(b, v.packet) && (v.next.Some? ==> v.next.value >= off + HEADER_SIZE)
  }

  lemma BlockVisitorSound(ring: seq<byte>, b: Block)
    requires Fits(ring, b)
    ensures Sound(BlockVisitor(ring, b), b)
  {
    var visit := BlockVisitor(ring, b);
    forall off: usize, isLast: bool
      ensures var v := visit(off, isLast);
              v.Accept? ==> v.packet.off == off && InBlock(b, v.packet) && (v.next.Some? ==> v.next.value >= off + HEADER_SIZE)
    {
      VisitSound(ring, b, off, isLast);
    }
  }

  lemma VisitSound(ring: seq<byte>, b: Block, off: usize, isLast: bool)
    requires Fits(ring, b)
    ensures var v := VisitAt(ring, b, off, isLast);
            v.Accept? ==> v.packet.off == off && InBlock(b, v.packet) && (v.next.Some? ==> v.next.value >= off + HEADER_SIZE)
  {
    HeaderInBlock(b, off);
    var header := HeaderOffset(b, off);
    if header.Some? {
      PacketInBlock(b, off, MacField(ring, header.value), SnaplenField(ring, header.value));
      NextAdvances(off, NextField(ring, header.value), isLast, b.len, b.size);
    }
  }

  lemma {:induction false} SoundWalk(visit: Visitor, b: Block, off: usize, left: nat, j: nat, k: nat)
    requires Sound(visit, b) && j <= k < |Walk(visit, off, left)|
    ensures var w := Walk(visit, off, left);
            w[0].off == off && InBlock(b, w[k]) && w[j].off + HEADER_SIZE * (k - j) <= w[k].off
    decreases left
  {
    if k > 0 {
      var next := visit(off, left == 1).next.value;
      SoundWalk(visit, b, next, left - 1, if j > 0 then j - 1 else 0, k - 1);
    }
  }

  /** For any ring contents: every packet processed lies in the declared block and the mapping, headers
      are aligned and at least 48 bytes apart. */
  lemma WalkStaysInBlock(ring: seq<byte>, b: Block, off: usize, left: nat, j: nat, k: nat)
    requires Fits(ring, b) && j <= k < |Walk(BlockVisitor(ring, b), off, left)|
    ensures var w := Walk(BlockVisitor(ring, b), off, left);
            InBlock(b, w[k]) && w[j].off + HEADER_SIZE * (k - j) <= w[k].off
  {
    BlockVisitorSound(ring, b);
    SoundWalk(BlockVisitor(ring, b), b, off, left, j, k);
  }

  /** However many descriptors are announced, at most `(len - 48) / 48` packets are processed. */
  lemma WalkIsShort(ring: seq<byte>, b: Block, off: usize, left: nat)
    requires Fits(ring, b) && ValidBlockLen(b.len, b.size)
    ensures |Walk(BlockVisitor(ring, b), off, left)| <= (b.len - DESC_SIZE) / HEADER_SIZE
  {
    var w := Walk(BlockVisitor(ring, b), off, left);
    if |w| > 0 {
      WalkStaysInBlock(ring, b, off, left, 0, 0);
      WalkStaysInBlock(ring, b, off, left, 0, |w| - 1);
    }
  }

  /** Offsets linked by the visitor, each accepted; the last may be the last one announced. */
  ghost predicate IsChain(visit: Visitor, offs: seq<usize>, left: nat)
    requires |offs| <= left
    decreases |offs|
  {
    offs == [] ||
    (visit(offs[0], left == 1).Accept? &&
     (|offs| == 1 || (visit(offs[0], left == 1).next == Some(offs[1]) && IsChain(visit, offs[1..], left - 1))))
  }

  ghost function Offsets(w: seq<Packet>): (offs: seq<usize>)
    ensures |offs| == |w|
  {
    if w == [] then [] else [w[0].off] + Offsets(w[1..])
  }

  /** The walk processes the whole descriptor chain: any chain of accepted descriptors from the first
      offset, no longer than announced, is processed in order and without a gap. */
  lemma {:induction false} WalkFollowsChain(visit: Visitor, b: Block, offs: seq<usize>, left: nat)
    requires Sound(visit, b) && 0 < |offs| <= left && IsChain(visit, offs, left)
    ensures offs <= Offsets(Walk(visit, offs[0], left))
    decreases left
  {
    var w := Walk(visit, offs[0], left);
    assert w[0].off == offs[0];
    if |offs| > 1 {
      WalkFollowsChain(visit, b, offs[1..], left - 1);
      assert w[1..] == Walk(visit, offs[1], left - 1);
      assert offs == [offs[0]] + offs[1..];
    }
  }

  /** And nothing else: the processed descriptors form such a chain, and it stops before the announced
      number only where the visitor rejects or finds no acceptable successor. */
  lemma {:induction false} WalkIsChain(visit: Visitor, b: Block, off: usize, left: nat)
    requires Sound(visit, b)
    ensures var offs := Offsets(Walk(visit, off, left));
            && |offs| <= left && IsChain(visit, offs, left)
            && (offs != [] ==> offs[0] == off)
            && (|offs| < left ==>
                  if offs == [] then visit(off, left == 1).Reject?
                  else var last := visit(offs[|offs| - 1], false);
                       last.Accept? && (last.next.None? || visit(last.next.value, left == |offs| + 1).Reject?))
    decreases left
  {
    if left > 0 {
      var v := visit(off, left == 1);
      if v.Accept? && v.next.Some? {
        var next := v.next.value;
        WalkIsChain(visit, b, next, left - 1);
        var w, tail := Walk(visit, off, left), Walk(visit, next, left - 1);
        assert w[1..] == tail;
        assert Offsets(w) == [off] + Offsets(tail);
        assert Offsets(w)[1..] == Offsets(tail);
      } else if v.Accept? {
        assert Walk(visit, off, left) == [v.packet];
        assert Offsets([v.packet]) == [off];
      }
    }
  }
}
