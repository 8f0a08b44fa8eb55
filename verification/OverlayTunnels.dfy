/** The parser sees through every stack of supported tunnels. */
module OverlayTunnels {
  import opened OverlayParser
  import opened Values

  // ----- Parsing at an offset is parsing the suffix -----

  ghost function Moved(layer: Layer, d: nat): (r: Layer) {
    match layer
    case Stop(answer) => Stop(answer)
    case Inner(v6, off) => Inner(v6, off + d)
  }

  ghost function MovedChain(c: Chain, d: nat): (r: Chain) {
    match c
    case Reached(next, cursor, fragmented) => Reached(next, cursor + d, fragmented)
    case _ => c
  }

  ghost function MovedOption(r: Option<Layer>, d: nat): (m: Option<Layer>) {
    if r.Some? then Some(Moved(r.value, d)) else None
  }

  lemma UdpTunnelMoves(a: seq<byte>, f: seq<byte>, l4: nat)
    requires |f| >= l4 + 8
    ensures UdpTunnel(a + f, |a| + l4) == MovedOption(UdpTunnel(f, l4), |a|)
  {
    var g := a + f;
    assert forall i: nat :: i < |f| ==> g[|a| + i] == f[i];
    assert U16(g, |a| + l4) == U16(f, l4) && U16(g, |a| + l4 + 2) == U16(f, l4 + 2);
    EthernetMoves(a, f, l4 + 16);
    EthernetMoves(a, f, l4 + 8 + f[l4] % 64 * 4);
  }

  lemma EthernetMoves(a: seq<byte>, f: seq<byte>, eth: nat)
    ensures InnerEthernet(a + f, |a| + eth) == MovedOption(InnerEthernet(f, eth), |a|)
  {
  }

  lemma Peel4Moves(a: seq<byte>, f: seq<byte>, off: nat)
    ensures Peel4(a + f, |a| + off) == Moved(Peel4(f, off), |a|)
  {
    var g := a + f;
    assert forall i: nat :: i < |f| ==> g[|a| + i] == f[i];
    if |f| >= off + 20 {
      assert g[|a| + off + 12..|a| + off + 16] == f[off + 12..off + 16];
      var l4 := off + f[off] % 16 * 4;
      if |f| >= l4 + 8 {
        UdpTunnelMoves(a, f, l4);
      }
    }
  }

  lemma {:induction false} SkipMoves(a: seq<byte>, f: seq<byte>, next: byte, cursor: nat, fragmented: bool, n: nat)
    ensures SkipExtensions(a + f, next, |a| + cursor, fragmented, n) == MovedChain(SkipExtensions(f, next, cursor, fragmented, n), |a|)
    decreases n
  {
    if n > 0 && next in {0, 43, 44, 51, 60} {
      var c := SkipOne(f, next, cursor, fragmented);
      assert SkipOne(a + f, next, |a| + cursor, fragmented) == MovedChain(c, |a|);
      if c.Reached? {
        SkipMoves(a, f, c.next, c.cursor, c.fragmented, n - 1);
      }
    }
  }

  lemma Peel6Moves(a: seq<byte>, f: seq<byte>, off: nat)
    ensures Peel6(a + f, |a| + off) == Moved(Peel6(f, off), |a|)
  {
    var g := a + f;
    if |f| >= off + 40 {
      var next := f[off + 6];
      assert g[|a| + off + 6] == next;
      var c, d := SkipExtensions(f, next, off + 40, false, 8), SkipExtensions(g, next, |a| + off + 40, false, 8);
      assert d == MovedChain(c, |a|) by {
        SkipMoves(a, f, next, off + 40, false, 8);
      }
      assert Peel6(f, off) == After6(f, off, c) && Peel6(g, |a| + off) == After6(g, |a| + off, d);
      After6Moves(a, f, off, c);
    }
  }

  lemma After6Moves(a: seq<byte>, f: seq<byte>, off: nat, c: Chain)
    requires |f| >= off + 40
    ensures After6(a + f, |a| + off, MovedChain(c, |a|)) == Moved(After6(f, off, c), |a|)
  {
    var g := a + f;
    assert forall i: nat :: i < |f| ==> g[|a| + i] == f[i];
    assert g[|a| + off + 8..|a| + off + 24] == f[off + 8..off + 24];
    if c.Reached? && |f| >= c.cursor + 8 {
      UdpTunnelMoves(a, f, c.cursor);
    }
  }

  lemma PeelMoves(a: seq<byte>, f: seq<byte>, v6: bool, off: nat)
    ensures Peel(a + f, v6, |a| + off) == Moved(Peel(f, v6, off), |a|)
  {
    if v6 {
      Peel6Moves(a, f, off);
    } else {
      Peel4Moves(a, f, off);
    }
  }

  /** Parsing a packet at an offset gives what parsing the packet on its own gives. */
  lemma {:induction false} ParseMoves(a: seq<byte>, f: seq<byte>, v6: bool, off: nat)
    ensures Parse(a + f, v6, |a| + off) == Parse(f, v6, off)
    decreases Room(f, off)
  {
    PeelMoves(a, f, v6, off);
    var layer := Peel(f, v6, off);
    if layer.Inner? {
      ParseMoves(a, f, layer.v6, layer.off);
    }
  }

  // ----- Tunnels -----

  ghost predicate Unfragmented(h: seq<byte>)
    requires |h| >= 20
  {
    U16(h, 6) % 0x2000 == 0 && !Bit(U16(h, 6), 0x2000)
  }

  /** An IPv4 header of `l4` bytes, not a fragment, carrying protocol `proto`. */
  ghost predicate Header4(h: seq<byte>, l4: nat, proto: byte) {
    20 <= l4 <= |h| && h[0] % 16 * 4 == l4 && Unfragmented(h) && h[9] == proto
  }

  /** An IPv6 header with any supported extension headers, `l4` bytes in all, carrying protocol `proto`. */
  ghost predicate Header6(h: seq<byte>, l4: nat, proto: byte) {
    40 <= l4 <= |h| && SkipExtensions(h, h[6], 40, false, 8) == Reached(proto, l4, false) && proto !in {0, 43, 44, 50, 51, 60}
  }

  ghost predicate Outer(h: seq<byte>, v6: bool, l4: nat, proto: byte) {
    if v6 then Header6(h, l4, proto) else Header4(h, l4, proto)
  }

  function EtherType(v6: bool): nat {
    if v6 then IPV6 else IPV4
  }

  /** The tunnels: IP in IP of the same version, GRE with any mix of checksum, key and sequence fields
      (an IPv6 GRE tunnel carries IPv6 only), and VXLAN over either version carrying either. */
  datatype Tunnel = IpInIp | Gre | Vxlan

  /** `h` is a complete wrapping header: outer IP of version `o6`, then tunnel header, for an inner packet of
      version `i6`. */
  ghost predicate Wraps(kind: Tunnel, h: seq<byte>, o6: bool, i6: bool, l4: nat) {
    match kind
    case IpInIp => o6 == i6 && Outer(h, o6, l4, if o6 then 41 else 4) && |h| == l4
    case Gre =>
      && (o6 ==> i6) && Outer(h, o6, l4, 47) && |h| >= l4 + 4
      && PlainGre(U16(h, l4)) && U16(h, l4 + 2) == EtherType(i6) && |h| == l4 + GreSize(U16(h, l4))
    case Vxlan =>
      && Outer(h, o6, l4, 17) && |h| == l4 + 30
      && (U16(h, l4) == VXLAN_PORT || U16(h, l4 + 2) == VXLAN_PORT)
      && Bit(h[l4 + 8], 8) && U16(h, l4 + 28) == EtherType(i6)
  }

  /** Skipping extension headers that lie in `h` does not look past `h`. */
  lemma {:induction false} SkipIsLocal(h: seq<byte>, x: seq<byte>, next: byte, cursor: nat, fragmented: bool, n: nat)
    requires SkipExtensions(h, next, cursor, fragmented, n).Reached?
    ensures SkipExtensions(h + x, next, cursor, fragmented, n) == SkipExtensions(h, next, cursor, fragmented, n)
    decreases n
  {
    if n > 0 && next in {0, 43, 44, 51, 60} {
      var c := SkipOne(h, next, cursor, fragmented);
      assert SkipOne(h + x, next, cursor, fragmented) == c;
      SkipIsLocal(h, x, c.next, c.cursor, c.fragmented, n - 1);
    }
  }

  /** The first header of a wrapped packet leads straight to the inner packet. */
  lemma PeelWrapped(kind: Tunnel, h: seq<byte>, o6: bool, i6: bool, l4: nat, x: seq<byte>)
    requires Wraps(kind, h, o6, i6, l4) && |x| >= if i6 then 40 else 20
    ensures Peel(h + x, o6, 0) == Inner(i6, |h|)
  {
    var f := h + x;
    assert forall i: nat :: i < |h| ==> f[i] == h[i];
    if o6 {
      SkipIsLocal(h, x, h[6], 40, false, 8);
      assert SkipExtensions(f, f[6], 0 + 40, false, 8) == SkipExtensions(h, h[6], 40, false, 8);
    } else {
      assert U16(f, 6) == U16(h, 6);
    }
    if kind == Gre {
      assert U16(f, l4) == U16(h, l4) && U16(f, l4 + 2) == U16(h, l4 + 2);
    } else if kind == Vxlan {
      assert U16(f, l4) == U16(h, l4) && U16(f, l4 + 2) == U16(h, l4 + 2) && U16(f, l4 + 28) == U16(h, l4 + 28);
      assert UdpTunnel(f, l4) == Some(Inner(i6, l4 + 30));
    }
  }

  /** A packet that parses is at least one IP header long. */
  lemma ParsedIsLong(x: seq<byte>, v6: bool)
    requires Parse(x, v6, 0).Some?
    ensures |x| >= if v6 then 40 else 20
  {
  }

  /** Wrapping a packet changes nothing in its report but the overlay flag. */
  lemma ParseWrapped(kind: Tunnel, h: seq<byte>, o6: bool, i6: bool, l4: nat, x: seq<byte>)
    requires Wraps(kind, h, o6, i6, l4) && Parse(x, i6, 0).Some?
    ensures Parse(h + x, o6, 0) == Some(Parse(x, i6, 0).value.(overlay := true))
  {
    ParsedIsLong(x, i6);
    PeelWrapped(kind, h, o6, i6, l4, x);
    ParseMoves(h, x, i6, 0);
  }

  datatype Wrapper = Wrapper(kind: Tunnel, header: seq<byte>, outer6: bool, l4: nat)

  /** The packet `x` of version `v6` inside the stack of wrappers, outermost first. */
  ghost function Encapsulated(stack: seq<Wrapper>, x: seq<byte>): (f: seq<byte>) {
    if stack == [] then x else stack[0].header + Encapsulated(stack[1..], x)
  }

  ghost function OuterVersion(stack: seq<Wrapper>, v6: bool): bool {
    if stack == [] then v6 else stack[0].outer6
  }

  ghost predicate ValidStack(stack: seq<Wrapper>, v6: bool) {
    stack == [] ||
    (Wraps(stack[0].kind, stack[0].header, stack[0].outer6, OuterVersion(stack[1..], v6), stack[0].l4) && ValidStack(stack[1..], v6))
  }

  /** For every stack of `n` tunnels around a packet the parser reports the packet's own source,
      protocol, SYN and fragment result, with the overlay flag set exactly when `n > 0` (or the packet
      is itself a tunnel). */
  lemma {:induction false} ParseStack(stack: seq<Wrapper>, x: seq<byte>, v6: bool)
    requires ValidStack(stack, v6) && Parse(x, v6, 0).Some?
    ensures var inner := Parse(x, v6, 0).value;
            Parse(Encapsulated(stack, x), OuterVersion(stack, v6), 0) == Some(inner.(overlay := inner.overlay || stack != []))
  {
    if stack != [] {
      ParseStack(stack[1..], x, v6);
      ParseWrapped(stack[0].kind, stack[0].header, stack[0].outer6, OuterVersion(stack[1..], v6), stack[0].l4, Encapsulated(stack[1..], x));
    }
  }

  /** Tunnel nesting is bounded by the frame: each level costs at least 20 bytes. */
  lemma {:induction false} DepthBounded(f: seq<byte>, v6: bool, off: nat)
    ensures off <= |f| ==> Depth(f, v6, off) <= (|f| - off) / 20
    ensures off > |f| ==> Depth(f, v6, off) == 0
    decreases Room(f, off)
  {
    var layer := Peel(f, v6, off);
    if layer.Inner? {
      DepthBounded(f, layer.v6, layer.off);
    }
  }

  // ----- Ethernet and VLAN framing -----

  /** `tags` are VLAN tags announced by type `eth`, with the type `last` after them. */
  ghost predicate TagRun(tags: seq<byte>, eth: nat, last: nat) {
    if |tags| < 4 then tags == [] && eth == last
    else IsTagType(eth) && TagRun(tags[4..], U16(tags, 2), last)
  }

  /** The types of IEEE 802.1Q and 802.1ad tags. */
  ghost predicate IsTagType(eth: nat) {
    eth == 0x8100 || eth == 0x88a8
  }

  lemma {:induction false} RunSkipped(a: seq<byte>, tags: seq<byte>, p: seq<byte>, eth: nat, last: nat, n: nat)
    requires TagRun(tags, eth, last) && |tags| <= 4 * n && (|tags| == 4 * n || !IsTagType(last))
    ensures SkipTags(a + tags + p, eth, |a|, n) == Some((last, |a| + |tags|))
    decreases n
  {
    if |tags| >= 4 {
      var f := a + tags + p;
      var a', tags' := a + tags[..4], tags[4..];
      assert f == a' + tags' + p;
      assert U16(f, |a| + 2) == U16(tags, 2);
      RunSkipped(a', tags', p, U16(tags, 2), last, n - 1);
    }
  }

  /** Up to four VLAN tags are transparent: the frame's report is the report of the IP packet in it. */
  lemma ParseTagged(mac: seq<byte>, tags: seq<byte>, p: seq<byte>, v6: bool)
    requires |mac| == 14 && |tags| <= 16 && TagRun(tags, U16(mac, 12), EtherType(v6))
    ensures ParseFrame(mac + tags + p) == Parse(p, v6, 0)
  {
    var f := mac + tags + p;
    assert U16(f, 12) == U16(mac, 12);
    RunSkipped(mac, tags, p, U16(mac, 12), EtherType(v6), 4);
    ParseMoves(mac + tags, p, v6, 0);
  }

  /** A frame with at most four tags that carries anything but IP is not reported. */
  lemma OtherTypesIgnored(mac: seq<byte>, tags: seq<byte>, p: seq<byte>, last: nat)
    requires |mac| == 14 && |tags| <= 16 && TagRun(tags, U16(mac, 12), last) && !IsTagType(last)
    requires last != 0x0800 && last != 0x86dd
    ensures ParseFrame(mac + tags + p).None?
  {
    var f := mac + tags + p;
    assert U16(f, 12) == U16(mac, 12);
    RunSkipped(mac, tags, p, U16(mac, 12), last, 4);
  }

  /** A frame with a fifth tag is not reported, whatever it carries. */
  lemma FifthTagIgnored(mac: seq<byte>, tags: seq<byte>, p: seq<byte>, last: nat)
    requires |mac| == 14 && |tags| == 16 && TagRun(tags, U16(mac, 12), last) && IsTagType(last)
    ensures ParseFrame(mac + tags + p).None?
  {
    var f := mac + tags + p;
    assert U16(f, 12) == U16(mac, 12);
    RunSkipped(mac, tags, p, U16(mac, 12), last, 4);
  }
}
