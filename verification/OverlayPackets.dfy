/** IP packets written out field by field (RFC 791, RFC 8200), and what the parser reports of them. */
module OverlayPackets {
  import opened Values
  import opened OverlayParser
  import opened OverlayTunnels

  /** The TCP flags byte has SYN and not ACK. */
  predicate OpensConnection(segment: seq<byte>) {
    |segment| >= 14 && segment[13] / 2 % 2 == 1 && segment[13] / 16 % 2 == 0
  }

  // ----- Payloads -----

  /** What the payload of an IP packet holds: nothing to look into, a tunnel header that the parser rejects, or a
      packet at some offset. */
  datatype Cargo = Plain | Malformed | Packet(v6: bool, at: nat)

  function Word(x: seq<byte>, i: nat): (v: nat)
    requires i + 2 <= |x|
  {
    var hi: nat, lo: nat := x[i], x[i + 1];
    hi * 256 + lo
  }

  /** An Ethernet frame at `at`. */
  function FrameCargo(x: seq<byte>, at: nat): (c: Cargo) {
    if |x| < at + 14 then Plain
    else if Word(x, at + 12) == 0x0800 then Packet(false, at + 14)
    else if Word(x, at + 12) == 0x86dd then Packet(true, at + 14)
    else Plain
  }

  /** A UDP datagram is looked into if one of its ports is VXLAN's or Geneve's. */
  function DatagramCargo(x: seq<byte>): (c: Cargo) {
    if |x| < 8 then Plain
    else if 4789 in {Word(x, 0), Word(x, 2)} then
      if |x| < 16 || x[8] / 8 % 2 == 0 then Malformed else FrameCargo(x, 16)
    else if 6081 in {Word(x, 0), Word(x, 2)} then
      if x[0] >= 64 then Malformed else FrameCargo(x, BehindOptions(x[0]))
    else Plain
  }

  /** The frame behind eight bytes and so many options of four bytes. */
  function BehindOptions(units: nat): (n: nat) {
    8 + units * 4
  }

  /** A GRE header of the standard layout (RFC 2784, RFC 2890) without routing and recursion. */
  predicate LooksGre(x: seq<byte>) {
    |x| >= 4 && x[0] / 64 % 2 == 0 && x[0] % 16 == 0
  }

  /** With checksum, key and sequence number as announced. */
  function GreLength(flags: byte): (n: nat) {
    4 + (if flags >= 128 then 4 else 0) + (if flags / 32 % 2 == 1 then 4 else 0) + (if flags / 16 % 2 == 1 then 4 else 0)
  }

  function Cargo4(proto: byte, x: seq<byte>): (c: Cargo) {
    if proto == 4 && |x| >= 20 then Packet(false, 0)
    else if proto == 47 && LooksGre(x) && Word(x, 2) in {0x0800, 0x86dd} then Packet(Word(x, 2) == 0x86dd, GreLength(x[0]))
    else if proto == 17 then DatagramCargo(x)
    else Plain
  }

  function Cargo6(proto: byte, x: seq<byte>): (c: Cargo) {
    if proto == 41 && |x| >= 40 then Packet(true, 0)
    else if proto == 47 && |x| >= 44 && LooksGre(x) && Word(x, 2) == 0x86dd then Packet(true, GreLength(x[0]))
    else if proto == 17 then DatagramCargo(x)
    else Plain
  }

  /** What is reported of a packet, given what it holds and what is to be reported if that is nothing. */
  function Reported(c: Cargo, x: seq<byte>, plain: Info): (r: Option<Info>) {
    match c
    case Plain => Some(plain)
    case Malformed => None
    case Packet(v6, at) => Overlaid(Parse(x, v6, at))
  }

  /** A report from inside a tunnel. */
  function Overlaid(inner: Option<Info>): (r: Option<Info>) {
    if inner.Some? then Some(inner.value.(overlay := true)) else None
  }

  /** The parser's next step on the payload behind `d` bytes of headers. */
  function LayerOf(c: Cargo, d: nat, plain: Info): (r: Layer) {
    match c
    case Plain => Stop(Some(plain))
    case Malformed => Stop(None)
    case Packet(v6, at) => Inner(v6, d + at)
  }

  lemma DatagramIs(x: seq<byte>, plain: Info)
    requires |x| >= 8
    ensures LayerOf(DatagramCargo(x), 0, plain) == if UdpTunnel(x, 0).Some? then UdpTunnel(x, 0).value else Stop(Some(plain))
  {
    FrameIs(x, 16);
    if x[0] < 64 {
      FrameIs(x, BehindOptions(x[0]));
    }
  }

  lemma FrameIs(x: seq<byte>, at: nat)
    ensures InnerEthernet(x, at) ==
            match FrameCargo(x, at)
            case Packet(v6, off) => Some(Inner(v6, off))
            case _ => None
  {
  }

  lemma GreIs(x: seq<byte>)
    requires |x| >= 4
    ensures PlainGre(U16(x, 0)) <==> LooksGre(x)
    ensures LooksGre(x) ==> GreSize(U16(x, 0)) == GreLength(x[0])
  {
    var hi: nat, lo: nat := x[0], x[1];
    assert U16(x, 0) / 0x100 == hi && U16(x, 0) / 0x4000 == hi / 64 && U16(x, 0) / 0x8000 == hi / 128;
    assert U16(x, 0) / 0x2000 == hi / 32 && U16(x, 0) / 0x1000 == hi / 16;
  }

  lemma ParseStops(f: seq<byte>, v6: bool, answer: Option<Info>)
    requires Peel(f, v6, 0) == Stop(answer)
    ensures Parse(f, v6, 0) == answer
  {
  }

  lemma ParseEnters(f: seq<byte>, v6: bool, w6: bool, off: nat)
    requires Peel(f, v6, 0) == Inner(w6, off)
    ensures Parse(f, v6, 0) == Overlaid(Parse(f, w6, off))
  {
  }

  /** A step on the payload leads to the report of what it holds. */
  lemma LayerIsReported(f: seq<byte>, h: seq<byte>, x: seq<byte>, v6: bool, c: Cargo, plain: Info)
    requires f == h + x && Peel(f, v6, 0) == LayerOf(c, |h|, plain)
    ensures Parse(f, v6, 0) == Reported(c, x, plain)
  {
    match c
    case Plain => ParseStops(f, v6, Some(plain));
    case Malformed => ParseStops(f, v6, None);
    case Packet(w6, at) =>
      ParseEnters(f, v6, w6, |h| + at);
      ParseMoves(h, x, w6, at);
  }

  /** UDP behind the headers. */
  lemma UdpBehind(h: seq<byte>, x: seq<byte>, plain: Info)
    requires |x| >= 8
    ensures LayerOf(DatagramCargo(x), |h|, plain) ==
            if UdpTunnel(h + x, |h|).Some? then UdpTunnel(h + x, |h|).value else Stop(Some(plain))
  {
    DatagramIs(x, plain);
    UdpTunnelMoves(h, x, 0);
  }

  // ----- IPv4 -----

  /** The fields of an IPv4 header; `offset` counts 8-byte units of the original datagram. */
  datatype Ip4 = Ip4(tos: byte, length: nat, id: nat, reserved: bool, dontFragment: bool, moreFragments: bool,
                     offset: nat, ttl: byte, proto: byte, checksum: nat, src: seq<byte>, dst: seq<byte>, options: seq<byte>)

  predicate ValidIp4(p: Ip4) {
    && p.length < 0x1_0000 && p.id < 0x1_0000 && p.checksum < 0x1_0000 && p.offset < 0x2000
    && |p.src| == 4 && |p.dst| == 4 && |p.options| % 4 == 0 && |p.options| <= 40
  }

  function Be16(v: nat): (r: seq<byte>)
    requires v < 0x1_0000
    ensures |r| == 2
  {
    [v / 256, v % 256]
  }

  function FlagsAndOffset(p: Ip4): (v: nat)
    requires p.offset < 0x2000
    ensures v < 0x1_0000
  {
    (if p.reserved then 0x8000 else 0) + (if p.dontFragment then 0x4000 else 0) + (if p.moreFragments then 0x2000 else 0) + p.offset
  }

  /** The first twelve bytes. */
  function Fixed4(p: Ip4): (h: seq<byte>)
    requires ValidIp4(p)
    ensures |h| == 12
  {
    [64 + 5 + |p.options| / 4, p.tos] + Be16(p.length) + Be16(p.id) + Be16(FlagsAndOffset(p)) + [p.ttl, p.proto] + Be16(p.checksum)
  }

  function Header4Of(p: Ip4): (h: seq<byte>)
    requires ValidIp4(p)
    ensures |h| == 20 + |p.options|
  {
    Fixed4(p) + (p.src + (p.dst + p.options))
  }

  function Write4(p: Ip4, payload: seq<byte>): (f: seq<byte>)
    requires ValidIp4(p)
  {
    Header4Of(p) + payload
  }

  predicate IsFragment4(p: Ip4) {
    p.moreFragments || p.offset > 0
  }

  lemma FragmentBits(p: Ip4)
    requires ValidIp4(p)
    ensures FlagsAndOffset(p) % 0x2000 == p.offset && Bit(FlagsAndOffset(p), 0x2000) == p.moreFragments
  {
  }

  lemma Fixed4Fields(p: Ip4, payload: seq<byte>)
    requires ValidIp4(p)
    ensures var f := Write4(p, payload);
            && |f| == 20 + |p.options| + |payload| && f[0] % 16 * 4 == 20 + |p.options|
            && U16(f, 6) == FlagsAndOffset(p) && f[9] == p.proto && f[12..16] == p.src
  {
    var f, h := Write4(p, payload), Fixed4(p);
    assert f[0] == h[0] && f[6] == h[6] && f[7] == h[7] && f[9] == h[9];
  }

  /** What the parser reports of the packet itself. */
  function Info4(p: Ip4, payload: seq<byte>): (r: Info) {
    Info(V4(p.src), p.proto, !IsFragment4(p) && p.proto == 6 && OpensConnection(payload), IsFragment4(p), false)
  }

  lemma OpeningBehind(h: seq<byte>, x: seq<byte>)
    ensures Opening(h + x, |h|) <==> OpensConnection(x)
  {
    if |x| >= 14 {
      assert (h + x)[|h| + 13] == x[13];
    }
  }

  lemma WordsBehind(h: seq<byte>, x: seq<byte>)
    requires |x| >= 4
    ensures U16(h + x, |h|) == U16(x, 0) && U16(h + x, |h| + 2) == Word(x, 2)
  {
    assert (h + x)[|h|] == x[0] && (h + x)[|h| + 1] == x[1] && (h + x)[|h| + 2] == x[2] && (h + x)[|h| + 3] == x[3];
  }

  /** The parser's first step on an unfragmented packet is decided by its payload. */
  lemma Peel4Is(p: Ip4, payload: seq<byte>)
    requires ValidIp4(p) && !IsFragment4(p)
    ensures Peel4(Write4(p, payload), 0) == LayerOf(Cargo4(p.proto, payload), 20 + |p.options|, Info4(p, payload))
  {
    var h := Header4Of(p);
    FragmentBits(p);
    Fixed4Fields(p, payload);
    OpeningBehind(h, payload);
    if p.proto == 47 && |payload| >= 4 {
      WordsBehind(h, payload);
      GreIs(payload);
    }
    if p.proto == 17 && |payload| >= 8 {
      UdpBehind(h, payload, Info4(p, payload));
    }
  }

  /** Of every IPv4 packet the parser reports the source and protocol, whether it is a fragment, and for a whole TCP
      segment whether it opens a connection; or what it reports of the packet that an unfragmented one holds. */
  lemma Ipv4IsReported(p: Ip4, payload: seq<byte>)
    requires ValidIp4(p)
    ensures Parse(Write4(p, payload), false, 0) ==
            Reported(if IsFragment4(p) then Plain else Cargo4(p.proto, payload), payload, Info4(p, payload))
  {
    if IsFragment4(p) {
      FragmentBits(p);
      Fixed4Fields(p, payload);
    } else {
      Peel4Is(p, payload);
    }
    LayerIsReported(Write4(p, payload), Header4Of(p), payload, false,
                    if IsFragment4(p) then Plain else Cargo4(p.proto, payload), Info4(p, payload));
  }

  // ----- IPv6 -----

  /** Extension headers: hop-by-hop, routing and destination options counted in 8-byte units after the first, a
      fragment header, an authentication header counted in 4-byte units after the first two. `rest` is
      everything behind the next-header and length bytes. */
  datatype Extension =
    | Options(kind: byte, units: byte, rest: seq<byte>)
    | Fragment(rest: seq<byte>)
    | Authentication(units: byte, rest: seq<byte>)

  function KindOf(e: Extension): (k: byte) {
    match e
    case Options(kind, _, _) => kind
    case Fragment(_) => 44
    case Authentication(_, _) => 51
  }

  predicate ValidExtension(e: Extension) {
    match e
    case Options(kind, units, rest) => kind in {0, 43, 60} && |rest| == units * 8 + 6
    case Fragment(rest) => |rest| == 7
    case Authentication(units, rest) => |rest| == units * 4 + 6
  }

  function WriteExtension(e: Extension, next: byte): (r: seq<byte>)
    requires ValidExtension(e)
  {
    match e
    case Options(_, units, rest) => [next, units] + rest
    case Fragment(rest) => [next] + rest
    case Authentication(units, rest) => [next, units] + rest
  }

  predicate ValidExtensions(es: seq<Extension>) {
    es != [] ==> ValidExtension(es[0]) && ValidExtensions(es[1..])
  }

  function FirstKind(es: seq<Extension>, proto: byte): (k: byte) {
    if es == [] then proto else KindOf(es[0])
  }

  function WriteExtensions(es: seq<Extension>, proto: byte): (r: seq<byte>)
    requires ValidExtensions(es)
  {
    if es == [] then [] else WriteExtension(es[0], FirstKind(es[1..], proto)) + WriteExtensions(es[1..], proto)
  }

  predicate HasFragment(es: seq<Extension>) {
    es != [] && (es[0].Fragment? || HasFragment(es[1..]))
  }

  function SizeOf(e: Extension): (n: nat) {
    match e
    case Options(_, units, _) => (units + 1) * 8
    case Fragment(_) => 8
    case Authentication(units, _) => (units + 2) * 4
  }

  function TotalSize(es: seq<Extension>): (n: nat) {
    if es == [] then 0 else SizeOf(es[0]) + TotalSize(es[1..])
  }

  /** What the parser can see of the chain at `pos`: the next-header and the length bytes. */
  ghost predicate Stands(f: seq<byte>, pos: nat, es: seq<Extension>, proto: byte)
    decreases |es|
  {
    es == [] ||
    (&& pos + SizeOf(es[0]) <= |f| && f[pos] == FirstKind(es[1..], proto)
     && (!es[0].Fragment? ==> f[pos + 1] == es[0].units)
     && Stands(f, pos + SizeOf(es[0]), es[1..], proto))
  }

  /** A chain of extension headers is skipped exactly, up to the parser's own limit. */
  lemma {:induction false} ExtensionsAreSkipped(f: seq<byte>, pos: nat, es: seq<Extension>, proto: byte, fragmented: bool, n: nat)
    requires ValidExtensions(es) && Stands(f, pos, es, proto) && |es| <= n && proto !in {0, 43, 44, 50, 51, 60}
    ensures SkipExtensions(f, FirstKind(es, proto), pos, fragmented, n)
            == Reached(proto, pos + TotalSize(es), fragmented || HasFragment(es))
    decreases |es|
  {
    if es != [] {
      ExtensionsAreSkipped(f, pos + SizeOf(es[0]), es[1..], proto, fragmented || es[0].Fragment?, n - 1);
    }
  }

  /** Encrypted content ends a chain. */
  lemma {:induction false} EncryptedEnds(f: seq<byte>, pos: nat, es: seq<Extension>, fragmented: bool, n: nat)
    requires ValidExtensions(es) && Stands(f, pos, es, 50) && |es| < n
    ensures SkipExtensions(f, FirstKind(es, 50), pos, fragmented, n) == Encrypted
    decreases |es|
  {
    if es != [] {
      EncryptedEnds(f, pos + SizeOf(es[0]), es[1..], fragmented || es[0].Fragment?, n - 1);
    }
  }

  lemma WrittenHeader(e: Extension, next: byte)
    requires ValidExtension(e)
    ensures var h := WriteExtension(e, next);
            |h| == SizeOf(e) && h[0] == next && (!e.Fragment? ==> h[1] == e.units)
  {
  }

  /** Which bytes stand where in `f`, as far as cutting headers off a chain goes. */
  type Sight = (nat, seq<byte>) -> bool

  ghost predicate CutsAt(at: Sight, f: seq<byte>, pos: nat, h: seq<byte>, rest: seq<byte>) {
    at(pos, h + rest) && |h| >= 2 ==>
      pos + |h| <= |f| && f[pos] == h[0] && f[pos + 1] == h[1] && at(pos + |h|, rest)
  }

  ghost predicate Cuts(at: Sight, f: seq<byte>) {
    forall pos: nat, h: seq<byte>, rest: seq<byte> :: CutsAt(at, f, pos, h, rest)
  }

  function SightOf(f: seq<byte>): (at: Sight) {
    (pos: nat, t: seq<byte>) => pos + |t| <= |f| && f[pos..pos + |t|] == t
  }

  lemma SightCuts(f: seq<byte>)
    ensures Cuts(SightOf(f), f)
  {
    forall pos: nat, h: seq<byte>, rest: seq<byte> ensures CutsAt(SightOf(f), f, pos, h, rest) {
      if SightOf(f)(pos, h + rest) && |h| >= 2 {
        var t := f[pos..pos + |h + rest|];
        assert t[0] == h[0] && t[1] == h[1];
        assert f[pos + |h|..pos + |h| + |rest|] == t[|h|..] == rest;
      }
    }
  }

  lemma {:induction false} WrittenSize(es: seq<Extension>, proto: byte)
    requires ValidExtensions(es)
    ensures |WriteExtensions(es, proto)| == TotalSize(es)
  {
    if es != [] {
      WrittenHeader(es[0], FirstKind(es[1..], proto));
      WrittenSize(es[1..], proto);
    }
  }

  /** A written chain stands where it was written. */
  lemma {:induction false} WrittenStands(f: seq<byte>, at: Sight, pos: nat, es: seq<Extension>, proto: byte)
    requires Cuts(at, f) && ValidExtensions(es) && at(pos, WriteExtensions(es, proto))
    ensures Stands(f, pos, es, proto)
    decreases |es|
  {
    if es != [] {
      var next := FirstKind(es[1..], proto);
      WrittenHeader(es[0], next);
      assert CutsAt(at, f, pos, WriteExtension(es[0], next), WriteExtensions(es[1..], proto));
      WrittenStands(f, at, pos + SizeOf(es[0]), es[1..], proto);
    }
  }

  /** The fields of an IPv6 packet; `start` is the version, traffic class and flow label. */
  datatype Ip6 = Ip6(start: seq<byte>, length: nat, hopLimit: byte, src: seq<byte>, dst: seq<byte>,
                     extensions: seq<Extension>, proto: byte)

  predicate ValidIp6(p: Ip6) {
    && |p.start| == 4 && p.length < 0x1_0000 && |p.src| == 16 && |p.dst| == 16
    && ValidExtensions(p.extensions) && p.proto !in {0, 43, 44, 51, 60}
    && |p.extensions| + (if p.proto == 50 then 1 else 0) <= 8
  }

  /** A fragment or encrypted, and so not looked into. */
  predicate Closed6(p: Ip6) {
    HasFragment(p.extensions) || p.proto == 50
  }

  function Header6Of(p: Ip6): (h: seq<byte>)
    requires ValidIp6(p)
    ensures |h| == 40
  {
    p.start + Be16(p.length) + [FirstKind(p.extensions, p.proto), p.hopLimit] + p.src + p.dst
  }

  function Headers6(p: Ip6): (h: seq<byte>)
    requires ValidIp6(p)
  {
    Header6Of(p) + WriteExtensions(p.extensions, p.proto)
  }

  function Write6(p: Ip6, payload: seq<byte>): (f: seq<byte>)
    requires ValidIp6(p)
  {
    Headers6(p) + payload
  }

  lemma Header6Fields(p: Ip6, payload: seq<byte>)
    requires ValidIp6(p)
    ensures var f := Write6(p, payload);
            |f| == 40 + |WriteExtensions(p.extensions, p.proto)| + |payload|
            && f[6] == FirstKind(p.extensions, p.proto) && f[8..24] == p.src
  {
    var f, h := Write6(p, payload), Header6Of(p);
    assert f[6] == h[6] && f[8..24] == h[8..24] == p.src;
  }

  function Info6(p: Ip6, payload: seq<byte>): (r: Info) {
    Info(V6(p.src), p.proto, !Closed6(p) && p.proto == 6 && OpensConnection(payload), Closed6(p), false)
  }

  ghost function End6(p: Ip6): (c: Chain)
    requires ValidIp6(p)
  {
    if p.proto == 50 then Encrypted else Reached(p.proto, |Headers6(p)|, HasFragment(p.extensions))
  }

  lemma ChainIsSkipped(p: Ip6, payload: seq<byte>)
    requires ValidIp6(p)
    ensures SkipExtensions(Write6(p, payload), FirstKind(p.extensions, p.proto), 40, false, 8) == End6(p)
  {
    var f, chain := Write6(p, payload), WriteExtensions(p.extensions, p.proto);
    assert f[40..40 + |chain|] == chain;
    SightCuts(f);
    WrittenStands(f, SightOf(f), 40, p.extensions, p.proto);
    if p.proto == 50 {
      EncryptedEnds(f, 40, p.extensions, false, 8);
    } else {
      WrittenSize(p.extensions, p.proto);
      ExtensionsAreSkipped(f, 40, p.extensions, p.proto, false, 8);
    }
  }

  lemma After6Is(p: Ip6, payload: seq<byte>)
    requires ValidIp6(p)
    ensures After6(Write6(p, payload), 0, End6(p)) ==
            LayerOf(if Closed6(p) then Plain else Cargo6(p.proto, payload), |Headers6(p)|, Info6(p, payload))
  {
    var h := Headers6(p);
    Header6Fields(p, payload);
    OpeningBehind(h, payload);
    if p.proto == 47 && |payload| >= 4 {
      WordsBehind(h, payload);
      GreIs(payload);
    }
    if p.proto == 17 && |payload| >= 8 {
      UdpBehind(h, payload, Info6(p, payload));
    }
  }

  /** The same for every IPv6 packet behind any chain of up to eight extension headers; encrypted content counts as a
      fragment. */
  lemma Ipv6IsReported(p: Ip6, payload: seq<byte>)
    requires ValidIp6(p)
    ensures Parse(Write6(p, payload), true, 0) ==
            Reported(if Closed6(p) then Plain else Cargo6(p.proto, payload), payload, Info6(p, payload))
  {
    Header6Fields(p, payload);
    ChainIsSkipped(p, payload);
    After6Is(p, payload);
    assert Peel(Write6(p, payload), true, 0) == Peel6(Write6(p, payload), 0);
    LayerIsReported(Write6(p, payload), Headers6(p), payload, true, if Closed6(p) then Plain else Cargo6(p.proto, payload),
                    Info6(p, payload));
  }
}
