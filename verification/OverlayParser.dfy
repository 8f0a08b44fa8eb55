/** The layer-3 parser of the native capture path: Ethernet and VLAN tags, IPv4, IPv6 with extension
    headers, and the tunnels it looks through. */
module OverlayParser {
  import opened Values

  datatype Addr = V4(octets: seq<byte>) | V6(octets: seq<byte>)

  /** What the parser reports: source, protocol, connection-opening SYN, fragment, found inside a tunnel. */
  datatype Info = Info(src: Addr, proto: byte, syn: bool, fragmented: bool, overlay: bool)

  /** One IP header examined: either the answer, or the place of an inner IP header. */
  datatype Layer = Stop(answer: Option<Info>) | Inner(v6: bool, off: nat)

  const IPV4: nat := 0x0800
  const IPV6: nat := 0x86dd
  const VLAN: nat := 0x8100
  const QINQ: nat := 0x88a8
  const VXLAN_PORT: nat := 4789
  const GENEVE_PORT: nat := 6081

  /** The bit of weight `w` (a power of two) is set in `x`. */
  predicate Bit(x: nat, w: nat)
    requires w > 0
  {
    x / w % 2 == 1
  }

  function U16(f: seq<byte>, i: nat): (v: nat)
    requires i + 2 <= |f|
  {
    var hi: nat, lo: nat := f[i], f[i + 1];
    hi * 256 + lo
  }

  /** SYN without ACK in the TCP header at `l4`. */
  predicate Opening(f: seq<byte>, l4: nat) {
    |f| >= l4 + 14 && Bit(f[l4 + 13], 2) && !Bit(f[l4 + 13], 16)
  }

  /** A GRE header without reserved or routing bits. */
  predicate PlainGre(flags: nat) {
    !Bit(flags, 0x4000) && flags / 0x100 % 16 == 0
  }

  /** Size of a GRE header with its optional checksum, key and sequence fields. */
  function GreSize(flags: nat): (n: nat)
    ensures 4 <= n <= 16
  {
    4 + (if Bit(flags, 0x8000) then 4 else 0) + (if Bit(flags, 0x2000) then 4 else 0) + (if Bit(flags, 0x1000) then 4 else 0)
  }

  /** The IP header behind an inner Ethernet header at `eth`, if any. */
  function InnerEthernet(f: seq<byte>, eth: nat): (r: Option<Layer>) {
    if |f| < eth + 14 then None
    else if U16(f, eth + 12) == IPV4 then Some(Inner(false, eth + 14))
    else if U16(f, eth + 12) == IPV6 then Some(Inner(true, eth + 14))
    else None
  }

  /** UDP at `l4`: a VXLAN or Geneve tunnel, a malformed one, or (`None`) an ordinary datagram. */
  function UdpTunnel(f: seq<byte>, l4: nat): (r: Option<Layer>)
    requires |f| >= l4 + 8
  {
    var sport, dport := U16(f, l4), U16(f, l4 + 2);
    if sport == VXLAN_PORT || dport == VXLAN_PORT then
      if |f| < l4 + 16 || !Bit(f[l4 + 8], 8) then Some(Stop(None)) else InnerEthernet(f, l4 + 16)
    else if sport == GENEVE_PORT || dport == GENEVE_PORT then
      if f[l4] / 64 != 0 then Some(Stop(None)) else InnerEthernet(f, l4 + 8 + f[l4] % 64 * 4)
    else None
  }

  /** The IPv4 header at `off`. */
  function Peel4(f: seq<byte>, off: nat): (r: Layer) {
    if |f| < off + 20 then Stop(None) else
    var ihl := f[off] % 16 * 4;
    if ihl < 20 || |f| < off + ihl then Stop(None) else
    var flagsFrag := U16(f, off + 6);
    var proto := f[off + 9];
    var src := V4(f[off + 12..off + 16]);
    var l4 := off + ihl;
    if flagsFrag % 0x2000 != 0 || Bit(flagsFrag, 0x2000) then Stop(Some(Info(src, proto, false, true, false)))
    else if proto == 4 && |f| >= l4 + 20 then Inner(false, l4)
    else if proto == 47 && |f| >= l4 + 4 && PlainGre(U16(f, l4)) && (U16(f, l4 + 2) == IPV4 || U16(f, l4 + 2) == IPV6) then
      Inner(U16(f, l4 + 2) == IPV6, l4 + GreSize(U16(f, l4)))
    else if proto == 17 && |f| >= l4 + 8 && UdpTunnel(f, l4).Some? then UdpTunnel(f, l4).value
    else Stop(Some(Info(src, proto, proto == 6 && Opening(f, l4), false, false)))
  }

  /** The end of an IPv6 extension header chain. */
  datatype Chain = Broken | Encrypted | Reached(next: byte, cursor: nat, fragmented: bool)

  /** One extension header. */
  function SkipOne(f: seq<byte>, next: byte, cursor: nat, fragmented: bool): (r: Chain)
    requires next in {0, 43, 44, 51, 60}
  {
    if next == 44 then
      if |f| < cursor + 8 then Broken else Reached(f[cursor], cursor + 8, true)
    else
      if |f| < cursor + 2 then Broken else
      var units: nat := f[cursor + 1];
      var len := if next == 51 then (units + 2) * 4 else (units + 1) * 8;
      if |f| < cursor + len then Broken else Reached(f[cursor], cursor + len, fragmented)
  }

  /** At most `n` extension headers from `cursor` on. */
  function SkipExtensions(f: seq<byte>, next: byte, cursor: nat, fragmented: bool, n: nat): (r: Chain)
    decreases n
  {
    if n == 0 then Reached(next, cursor, fragmented)
    else if next == 50 then Encrypted
    else if next !in {0, 43, 44, 51, 60} then Reached(next, cursor, fragmented)
    else
      var c := SkipOne(f, next, cursor, fragmented);
      if c.Reached? then SkipExtensions(f, c.next, c.cursor, c.fragmented, n - 1) else Broken
  }

  /** The IPv6 header at `off`, once its extension headers are skipped. */
  function After6(f: seq<byte>, off: nat, c: Chain): (r: Layer)
    requires |f| >= off + 40
  {
    var src := V6(f[off + 8..off + 24]);
    match c
    case Broken => Stop(None)
    case Encrypted => Stop(Some(Info(src, 50, false, true, false)))
    case Reached(next, cursor, fragmented) =>
      if !fragmented && next == 41 && |f| >= cursor + 40 then Inner(true, cursor)
      else if !fragmented && next == 47 && |f| >= cursor + 44 && PlainGre(U16(f, cursor)) && U16(f, cursor + 2) == IPV6 then
        Inner(true, cursor + GreSize(U16(f, cursor)))
      else if !fragmented && next == 17 && |f| >= cursor + 8 && UdpTunnel(f, cursor).Some? then UdpTunnel(f, cursor).value
      else Stop(Some(Info(src, next, !fragmented && next == 6 && Opening(f, cursor), fragmented, false)))
  }

  function Peel6(f: seq<byte>, off: nat): (r: Layer) {
    if |f| < off + 40 then Stop(None)
    else After6(f, off, SkipExtensions(f, f[off + 6], off + 40, false, 8))
  }

  /** An inner header starts at least 20 bytes further on. */
  function Peel(f: seq<byte>, v6: bool, off: nat): (r: Layer)
    ensures r.Inner? ==> off + 20 <= |f| && off + 20 <= r.off
  {
    SkipAdvances(f, off);
    if v6 then Peel6(f, off) else Peel4(f, off)
  }

  function Room(f: seq<byte>, off: nat): nat {
    if off < |f| then |f| - off else 0
  }

  /** The parser: the innermost header's answer, flagged when it came from inside a tunnel. */
  function Parse(f: seq<byte>, v6: bool, off: nat): (r: Option<Info>)
    decreases Room(f, off)
  {
    match Peel(f, v6, off)
    case Stop(answer) => answer
    case Inner(w6, inner) =>
      var r := Parse(f, w6, inner);
      if r.Some? then Some(r.value.(overlay := true)) else None
  }

  /** How many tunnels deep the parser goes. */
  function Depth(f: seq<byte>, v6: bool, off: nat): (n: nat)
    decreases Room(f, off)
  {
    match Peel(f, v6, off)
    case Stop(_) => 0
    case Inner(w6, inner) => 1 + Depth(f, w6, inner)
  }

  /** Up to `n` VLAN tags behind the Ethernet header. */
  function SkipTags(f: seq<byte>, eth: nat, off: nat, n: nat): (r: Option<(nat, nat)>)
    decreases n
  {
    if n == 0 || (eth != VLAN && eth != QINQ) then Some((eth, off))
    else if |f| < off + 4 then None
    else SkipTags(f, U16(f, off + 2), off + 4, n - 1)
  }

  function ParseFrame(f: seq<byte>): (r: Option<Info>) {
    if |f| < 14 then None else
    var t := SkipTags(f, U16(f, 12), 14, 4);
    if t.None? then None
    else if t.value.0 == IPV4 then Parse(f, false, t.value.1)
    else if t.value.0 == IPV6 then Parse(f, true, t.value.1)
    else None
  }

  lemma {:induction false} SkipGrows(f: seq<byte>, next: byte, cursor: nat, fragmented: bool, n: nat)
    ensures var c := SkipExtensions(f, next, cursor, fragmented, n);
            c.Reached? ==> c.cursor >= cursor
    decreases n
  {
    if n > 0 && next in {0, 43, 44, 51, 60} {
      var c := SkipOne(f, next, cursor, fragmented);
      if c.Reached? {
        SkipGrows(f, c.next, c.cursor, c.fragmented, n - 1);
      }
    }
  }

  lemma SkipAdvances(f: seq<byte>, off: nat)
    ensures |f| >= off + 40 ==>
              var c := SkipExtensions(f, f[off + 6], off + 40, false, 8);
              c.Reached? ==> c.cursor >= off + 40
  {
    if |f| >= off + 40 {
      SkipGrows(f, f[off + 6], off + 40, false, 8);
    }
  }

  // ----- The loops of the source -----

  method ReadExtension(f: seq<byte>, next: byte, cursor: nat, fragmented: bool) returns (c: Chain)
    requires next in {0, 43, 44, 51, 60}
    ensures c == SkipOne(f, next, cursor, fragmented)
  {
    if next == 44 {
      if |f| < cursor + 8 {
        return Broken;
      }
      return Reached(f[cursor], cursor + 8, true);
    }
    if |f| < cursor + 2 {
      return Broken;
    }
    var units: nat := f[cursor + 1];
    var len := if next == 51 then (units + 2) * 4 else (units + 1) * 8;
    if |f| < cursor + len {
      return Broken;
    }
    c := Reached(f[cursor], cursor + len, fragmented);
  }

  /** At most `n` extension headers. */
  method WalkHeaders(f: seq<byte>, first: byte, start: nat, n: nat) returns (c: Chain)
    ensures c == SkipExtensions(f, first, start, false, n)
  {
    var next, cursor, fragmented := first, start, false;
    var left := n;
    while left > 0
      invariant SkipExtensions(f, first, start, false, n) == SkipExtensions(f, next, cursor, fragmented, left)
    {
      if next == 50 {
        return Encrypted;
      }
      if next !in {0, 43, 44, 51, 60} {
        return Reached(next, cursor, fragmented);
      }
      var step := ReadExtension(f, next, cursor, fragmented);
      if !step.Reached? {
        return step;
      }
      next, cursor, fragmented := step.next, step.cursor, step.fragmented;
      left := left - 1;
    }
    c := Reached(next, cursor, fragmented);
  }

  method WalkExtensions(f: seq<byte>, off: nat) returns (c: Chain)
    requires |f| >= off + 40
    ensures c == SkipExtensions(f, f[off + 6], off + 40, false, 8)
  {
    c := WalkHeaders(f, f[off + 6], off + 40, 8);
  }

  method ParseIpv4(f: seq<byte>, off: nat) returns (r: Option<Info>)
    ensures r == Parse(f, false, off)
    decreases Room(f, off), 1
  {
    var layer := Peel(f, false, off);
    r := Descend(f, false, off, layer);
  }

  method ParseIpv6(f: seq<byte>, off: nat) returns (r: Option<Info>)
    ensures r == Parse(f, true, off)
    decreases Room(f, off), 1
  {
    if |f| < off + 40 {
      return None;
    }
    var c := WalkExtensions(f, off);
    var layer := After6(f, off, c);
    SkipAdvances(f, off);
    r := Descend(f, true, off, layer);
  }

  method Descend(f: seq<byte>, v6: bool, off: nat, layer: Layer) returns (r: Option<Info>)
    requires layer == Peel(f, v6, off)
    ensures r == Parse(f, v6, off)
    decreases Room(f, off), 0
  {
    match layer {
      case Stop(answer) =>
        r := answer;
      case Inner(w6, inner) =>
        if w6 {
          r := ParseIpv6(f, inner);
        } else {
          r := ParseIpv4(f, inner);
        }
        if r.Some? {
          r := Some(r.value.(overlay := true));
        }
    }
  }

  method ParseL3(f: seq<byte>) returns (r: Option<Info>)
    ensures r == ParseFrame(f)
  {
    if |f| < 14 {
      return None;
    }
    var off := 14;
    var eth := U16(f, 12);
    var i := 0;
    while i < 4
      invariant i <= 4
      invariant SkipTags(f, U16(f, 12), 14, 4) == SkipTags(f, eth, off, 4 - i)
    {
      if eth != VLAN && eth != QINQ {
        break;
      }
      if |f| < off + 4 {
        return None;
      }
      eth := U16(f, off + 2);
      off := off + 4;
      i := i + 1;
    }
    if eth == IPV4 {
      r := ParseIpv4(f, off);
    } else if eth == IPV6 {
      r := ParseIpv6(f, off);
    } else {
      r := None;
    }
  }
}
