/** The chunked transfer coding: decoder, trailer section and encoder. */
module HttpChunked {
  import opened HttpBytes
  import opened Values

  const MAX_HEADERS: nat := 64
  const MAX_HEADER_BYTES: nat := 32 * 1024
  const MAX_HEADER_VALUE_BYTES: nat := 16 * 1024
  const MAX_NAME_BYTES: nat := 128
  /** `content-length` */
  const CONTENT_LENGTH: Bytes := [99, 111, 110, 116, 101, 110, 116, 45, 108, 101, 110, 103, 116, 104]
  /** `transfer-encoding` */
  const TRANSFER_ENCODING: Bytes := [116, 114, 97, 110, 115, 102, 101, 114, 45, 101, 110, 99, 111, 100, 105, 110, 103]

  predicate IsFieldName(name: Bytes) {
    name != [] && |name| <= MAX_NAME_BYTES && forall i :: 0 <= i < |name| ==> IsTchar(name[i])
  }

  /** No control characters but tab. */
  predicate IsFieldValue(value: Bytes) {
    |value| <= MAX_HEADER_VALUE_BYTES && forall i :: 0 <= i < |value| ==> value[i] >= 32 || value[i] == HTAB
  }

  // ----- Trailers -----

  /** The verdict on one non-empty trailer line; `None` accepts it. */
  function TrailerFault(line: Bytes): (r: Option<Finding>) {
    var colon := IndexOf(line, COLON, 0);
    if colon.None? then Some(Malformed) else
    var name, value := line[..colon.value], line[colon.value + 1..];
    if !IsFieldName(name) then Some(Malformed)
    else if EqCi(name, CONTENT_LENGTH) || EqCi(name, TRANSFER_ENCODING) then Some(HeaderSmuggling)
    else if !IsFieldValue(value) then Some(Malformed)
    else if |line| > MAX_HEADER_BYTES then Some(Oversized)
    else None
  }

  /** The chunk-size text: everything before the first semicolon. */
  function SizeText(line: Bytes): (t: Bytes) {
    var i := IndexOf(line, SEMICOLON, 0);
    if i.Some? then line[..i.value] else line
  }

  /** The size a chunk header line announces: one or more hexadecimal digits that fit the machine word. */
  function ChunkSize(line: Bytes): (r: Option<nat>) {
    var t := SizeText(line);
    if t != [] && AllHex(t) && HexValue(t) <= USIZE_MAX then Some(HexValue(t)) else None
  }

  /** What the decoder asks of chunk header lines and trailer lines. */
  datatype Rules = Rules(sizeOf: Bytes -> Option<nat>, fault: Bytes -> Option<Finding>)

  const GATE: Rules := Rules(ChunkSize, TrailerFault)

  // ----- Decoder -----

  /** The offset just past the empty line that ends the trailer section. */
  function TrailersFrom(g: Rules, raw: Bytes, pos: nat, count: nat): (r: Result<nat>)
    requires pos <= |raw|
    ensures r.Ok? ==> pos < r.value <= |raw|
    decreases |raw| - pos
  {
    var e := FindCrlf(raw, pos);
    if e.None? then Err(Malformed)
    else if e.value == pos then Ok(pos + 2)
    else if count + 1 > MAX_HEADERS then Err(Oversized)
    else
      var fault := g.fault(raw[pos..e.value]);
      if fault.Some? then Err(fault.value) else TrailersFrom(g, raw, e.value + 2, count + 1)
  }

  method ParseChunkTrailers(g: Rules, raw: Bytes, start: nat) returns (r: Result<nat>)
    requires start <= |raw|
    ensures r == TrailersFrom(g, raw, start, 0)
  {
    var pos := start;
    var count := 0;
    while true
      invariant pos <= |raw| && TrailersFrom(g, raw, start, 0) == TrailersFrom(g, raw, pos, count)
      decreases |raw| - pos
    {
      var e := FindCrlf(raw, pos);
      if e.None? {
        return Err(Malformed);
      }
      var line := raw[pos..e.value];
      if line == [] {
        return Ok(e.value + 2);
      }
      count := count + 1;
      if count > MAX_HEADERS {
        return Err(Oversized);
      }
      var fault := g.fault(line);
      if fault.Some? {
        return Err(fault.value);
      }
      pos := e.value + 2;
    }
  }

  /** One round of the decoding loop at `pos`, with `have` bytes decoded so far: a fault, the end of the
      body just before `used`, or a piece of data and the position after it. */
  datatype Round = Fault(finding: Finding) | End(used: nat) | Piece(data: Bytes, next: nat)

  /** Where the trailer section ends that starts at a position, after so many lines. */
  type Ends = (nat, nat) -> Result<nat>

  function EndsOf(g: Rules, raw: Bytes): (ends: Ends) {
    (p: nat, count: nat) => if p <= |raw| then TrailersFrom(g, raw, p, count) else Err(Malformed)
  }

  function RoundBy(g: Rules, ends: Ends, raw: Bytes, max: nat, pos: nat, have: nat): (r: Round)
    ensures r.Piece? ==> pos < r.next <= |raw|
  {
    if pos > |raw| then Fault(Malformed) else
    var e := FindCrlf(raw, pos);
    if e.None? then Fault(Malformed) else
    var size := g.sizeOf(raw[pos..e.value]);
    var p := e.value + 2;
    if size.None? then Fault(Malformed)
    else if size.value == 0 then
      var t := ends(p, 0);
      if t.Ok? then End(t.value) else Fault(t.finding)
    else if size.value > max || p + size.value + 2 > |raw| then Fault(Malformed)
    else if have + size.value > max then Fault(Oversized)
    else if !IsCrlf(raw, p + size.value) then Fault(Malformed)
    else Piece(raw[p..p + size.value], p + size.value + 2)
  }

  function RoundAt(g: Rules, raw: Bytes, max: nat, pos: nat, have: nat): (r: Round) {
    RoundBy(g, EndsOf(g, raw), raw, max, pos, have)
  }

  type Rounds = (nat, nat) -> Round

  function GateRounds(raw: Bytes, max: nat): (rounds: Rounds) {
    (pos: nat, have: nat) => RoundAt(GATE, raw, max, pos, have)
  }

  /** Decoding from `pos` with `out` already decoded: the body and the number of bytes consumed. */
  function DecodeFrom(rounds: Rounds, limit: nat, pos: nat, out: Bytes): (r: Result<(Bytes, nat)>)
    decreases limit - pos
  {
    match rounds(pos, |out|)
    case Fault(f) => Err(f)
    case End(used) => Ok((out, used))
    case Piece(data, next) => if pos < next <= limit then DecodeFrom(rounds, limit, next, out + data) else Err(Malformed)
  }

  /** The body and the bytes consumed, under the gate's own rules. */
  function Decode(raw: Bytes, max: nat): (r: Result<(Bytes, nat)>) {
    DecodeFrom(GateRounds(raw, max), |raw|, 0, [])
  }

  /** The round as the source spells it. */
  method ReadRound(g: Rules, raw: Bytes, max: nat, pos: nat, have: nat) returns (r: Round)
    requires pos <= |raw|
    ensures r == RoundAt(g, raw, max, pos, have)
  {
    var e := FindCrlf(raw, pos);
    if e.None? {
      return Fault(Malformed);
    }
    var size := g.sizeOf(raw[pos..e.value]);
    if size.None? {
      return Fault(Malformed);
    }
    var p := e.value + 2;
    if size.value == 0 {
      var t := ParseChunkTrailers(g, raw, p);
      return if t.Ok? then End(t.value) else Fault(t.finding);
    }
    if size.value > max || p + size.value + 2 > |raw| {
      return Fault(Malformed);
    }
    if have + size.value > max {
      return Fault(Oversized);
    }
    if !IsCrlf(raw, p + size.value) {
      return Fault(Malformed);
    }
    r := Piece(raw[p..p + size.value], p + size.value + 2);
  }

  method DecodeChunked(raw: Bytes, max: nat) returns (r: Result<(Bytes, nat)>)
    ensures r == Decode(raw, max)
  {
    ghost var rounds := GateRounds(raw, max);
    var pos := 0;
    var out: Bytes := [];
    while true
      invariant pos <= |raw| && DecodeFrom(rounds, |raw|, 0, []) == DecodeFrom(rounds, |raw|, pos, out)
      decreases |raw| - pos
    {
      var round := ReadRound(GATE, raw, max, pos, |out|);
      assert round == rounds(pos, |out|);
      match round {
        case Fault(f) =>
          return Err(f);
        case End(used) =>
          return Ok((out, used));
        case Piece(data, next) =>
          out := out + data;
          pos := next;
      }
    }
  }

  // ----- Encoder (section 7.1 of RFC 9112) -----

  /** A chunk: its header line and its bytes. The last chunk has no bytes. */
  datatype Chunk = Chunk(line: Bytes, data: Bytes)

  ghost predicate ValidChunk(g: Rules, c: Chunk) {
    NoCrlf(c.line) && g.sizeOf(c.line) == Some(|c.data|)
  }

  ghost predicate ValidTrailer(g: Rules, line: Bytes) {
    line != [] && NoCrlf(line) && g.fault(line).None?
  }

  /** Non-empty chunks one after the other, then the last chunk and the trailers. */
  datatype Body = Last(chunk: Chunk, trailers: seq<Bytes>) | More(chunk: Chunk, rest: Body)

  ghost predicate ValidTrailers(g: Rules, lines: seq<Bytes>) {
    lines != [] ==> ValidTrailer(g, lines[0]) && ValidTrailers(g, lines[1..])
  }

  ghost predicate ValidBody(g: Rules, b: Body) {
    && ValidChunk(g, b.chunk)
    && match b
       case Last(c, trailers) => c.data == [] && |trailers| <= MAX_HEADERS && ValidTrailers(g, trailers)
       case More(c, rest) => c.data != [] && ValidBody(g, rest)
  }

  ghost function EncodeChunk(c: Chunk): (r: Bytes) {
    (c.line + CRLF) + (c.data + CRLF)
  }

  ghost function EncodeTrailers(lines: seq<Bytes>): (r: Bytes) {
    if lines == [] then CRLF else (lines[0] + CRLF) + EncodeTrailers(lines[1..])
  }

  ghost function Encode(b: Body): (r: Bytes) {
    match b
    case Last(c, trailers) => (c.line + CRLF) + EncodeTrailers(trailers)
    case More(c, rest) => EncodeChunk(c) + Encode(rest)
  }

  ghost function Data(b: Body): (r: Bytes) {
    match b
    case Last(_, _) => []
    case More(c, rest) => c.data + Data(rest)
  }

  /** The gate's chunk header lines are exactly a hexadecimal spelling of the size, in any case and with any
      leading zeros, and an optional extension set off by a semicolon. */
  lemma ChunkLineIff(line: Bytes, n: nat)
    ensures ChunkSize(line) == Some(n) <==>
              exists k :: 0 < k <= |line| && AllHex(line[..k]) && HexValue(line[..k]) == n <= USIZE_MAX
                          && (k == |line| || line[k] == SEMICOLON)
  {
    if ChunkSize(line) == Some(n) {
      assert SizeText(line) == line[..|SizeText(line)|];
    }
    if k :| 0 < k <= |line| && AllHex(line[..k]) && HexValue(line[..k]) == n <= USIZE_MAX && (k == |line| || line[k] == SEMICOLON) {
      var i := IndexOf(line, SEMICOLON, 0);
      if i.Some? && i.value < k {
        assert IsHexDigit(line[..k][i.value]);
      }
      if k < |line| {
        IndexOfIsFirst(line, SEMICOLON, 0, k);
      } else {
        assert line[..k] == line;
      }
    }
  }

  // ----- Decoding inverts encoding -----

  lemma LineBeforeTrailers(raw: Bytes, pos: nat, line: Bytes, trailers: seq<Bytes>)
    requires NoCrlf(line) && At(raw, pos, (line + CRLF) + EncodeTrailers(trailers))
    ensures pos <= |raw| && FindCrlf(raw, pos) == Some(pos + |line|) && raw[pos..pos + |line|] == line
    ensures At(raw, pos + |line| + 2, EncodeTrailers(trailers))
    ensures |(line + CRLF) + EncodeTrailers(trailers)| == |line| + 2 + |EncodeTrailers(trailers)|
  {
    AtSplit(raw, pos, line + CRLF, EncodeTrailers(trailers));
    LineEnd(raw, pos, line);
  }

  lemma NoTrailers(g: Rules, raw: Bytes, pos: nat, count: nat)
    requires At(raw, pos, CRLF)
    ensures TrailersFrom(g, raw, pos, count) == Ok(pos + 2)
  {
    AtByte(raw, pos, CRLF, 0);
    AtByte(raw, pos, CRLF, 1);
  }

  lemma TrailerRound(g: Rules, raw: Bytes, pos: nat, line: Bytes, count: nat)
    requires ValidTrailer(g, line) && At(raw, pos, line + CRLF) && count < MAX_HEADERS
    ensures TrailersFrom(g, raw, pos, count) == TrailersFrom(g, raw, pos + |line| + 2, count + 1)
  {
    LineEnd(raw, pos, line);
  }

  /** `ends` consumes the empty line, and each valid line on its own. */
  ghost predicate TrailersRead(g: Rules, at: Sight, ends: Ends) {
    && (forall p: nat, count: nat :: at(p, CRLF) ==> ends(p, count) == Ok(p + 2))
    && (forall p: nat, count: nat, line: Bytes :: ValidTrailer(g, line) && at(p, line + CRLF) && count < MAX_HEADERS ==>
          ends(p, count) == ends(p + |line| + 2, count + 1))
  }

  lemma GateReadsTrailers(g: Rules, raw: Bytes)
    ensures TrailersRead(g, SightOf(raw), EndsOf(g, raw))
  {
    forall p: nat, count: nat | At(raw, p, CRLF) ensures TrailersFrom(g, raw, p, count) == Ok(p + 2) {
      NoTrailers(g, raw, p, count);
    }
    forall p: nat, count: nat, line: Bytes | ValidTrailer(g, line) && At(raw, p, line + CRLF) && count < MAX_HEADERS
      ensures TrailersFrom(g, raw, p, count) == TrailersFrom(g, raw, p + |line| + 2, count + 1)
    {
      TrailerRound(g, raw, p, line, count);
    }
  }

  /** An encoded trailer section is consumed exactly. */
  lemma {:induction false} TrailersInvert(g: Rules, at: Sight, ends: Ends, pos: nat, lines: seq<Bytes>, count: nat)
    requires Splits(at) && TrailersRead(g, at, ends)
    requires at(pos, EncodeTrailers(lines)) && ValidTrailers(g, lines) && count + |lines| <= MAX_HEADERS
    ensures ends(pos, count) == Ok(pos + |EncodeTrailers(lines)|)
    decreases |lines|
  {
    if lines != [] {
      var line, rest := lines[0], EncodeTrailers(lines[1..]);
      assert SplitsAt(at, pos, line + CRLF, rest);
      TrailersInvert(g, at, ends, pos + |line| + 2, lines[1..], count + 1);
    }
  }

  /** Where the parts of an encoded chunk stand. */
  lemma ChunkLayout(raw: Bytes, pos: nat, c: Chunk)
    requires NoCrlf(c.line) && At(raw, pos, EncodeChunk(c))
    ensures var p := pos + |c.line| + 2;
            && pos + |EncodeChunk(c)| == p + |c.data| + 2 <= |raw|
            && FindCrlf(raw, pos) == Some(p - 2) && raw[pos..p - 2] == c.line
            && raw[p..p + |c.data|] == c.data && IsCrlf(raw, p + |c.data|)
  {
    AtSplit(raw, pos, c.line + CRLF, c.data + CRLF);
    LineEnd(raw, pos, c.line);
    var p := pos + |c.line| + 2;
    AtSplit(raw, p, c.data, CRLF);
    AtByte(raw, p + |c.data|, CRLF, 0);
    AtByte(raw, p + |c.data|, CRLF, 1);
  }

  /** What the rounds deliver: pieces of data with the positions after them, then the end. */
  datatype Trace = Stop(used: nat) | Step(data: Bytes, next: nat, tail: Trace)

  ghost function Delivered(tr: Trace): (data: Bytes) {
    if tr.Stop? then [] else tr.data + Delivered(tr.tail)
  }

  ghost function Used(tr: Trace): (n: nat) {
    if tr.Stop? then tr.used else Used(tr.tail)
  }

  ghost predicate Follows(rounds: Rounds, limit: nat, tr: Trace, pos: nat, have: nat)
    decreases tr
  {
    match tr
    case Stop(used) => rounds(pos, have) == End(used)
    case Step(data, next, tail) =>
      rounds(pos, have) == Piece(data, next) && pos < next <= limit && Follows(rounds, limit, tail, next, have + |data|)
  }

  ghost predicate Yields(r: Result<(Bytes, nat)>, data: Bytes, used: nat) {
    r.Ok? && r.value.0 == data && r.value.1 == used
  }

  /** Decoding succeeds along a trace, and collects what it delivers. */
  lemma {:induction false} DecodeAlong(rounds: Rounds, limit: nat, tr: Trace, pos: nat, out: Bytes)
    requires Follows(rounds, limit, tr, pos, |out|)
    ensures Yields(DecodeFrom(rounds, limit, pos, out), out + Delivered(tr), Used(tr))
    decreases tr
  {
    if tr.Step? {
      DecodeAlong(rounds, limit, tr.tail, tr.next, out + tr.data);
      assert out + tr.data + Delivered(tr.tail) == out + (tr.data + Delivered(tr.tail));
    } else {
      assert out + [] == out;
    }
  }

  /** And only along a trace. */
  lemma {:induction false} DecodedAlong(rounds: Rounds, limit: nat, pos: nat, out: Bytes) returns (tr: Trace)
    requires DecodeFrom(rounds, limit, pos, out).Ok?
    ensures Follows(rounds, limit, tr, pos, |out|)
    decreases limit - pos
  {
    match rounds(pos, |out|)
    case End(used) =>
      tr := Stop(used);
    case Piece(data, next) =>
      var tail := DecodedAlong(rounds, limit, next, out + data);
      tr := Step(data, next, tail);
  }

  /** What a buffer holds, as far as reading it round by round goes: which chunk stands where with room for
      its data, which last chunk, and how long their encodings are. */
  datatype Layout = Layout(chunkAt: (nat, nat, Chunk) -> bool, lastAt: (nat, Body) -> bool,
                           chunkSize: Chunk -> nat, lastSize: Body -> nat)

  ghost predicate Laid(w: Layout, b: Body, pos: nat, have: nat)
    decreases b
  {
    match b
    case Last(_, _) => w.lastAt(pos, b)
    case More(c, rest) => w.chunkAt(pos, have, c) && Laid(w, rest, pos + w.chunkSize(c), have + |c.data|)
  }

  /** The trace that a body laid out from `pos` gives rise to. */
  ghost function TraceOf(w: Layout, b: Body, pos: nat): (tr: Trace)
    decreases b
  {
    match b
    case Last(_, _) => Stop(pos + w.lastSize(b))
    case More(c, rest) => Step(c.data, pos + w.chunkSize(c), TraceOf(w, rest, pos + w.chunkSize(c)))
  }

  /** The rounds read what the layout holds, and only that. */
  ghost predicate Faithful(w: Layout, limit: nat, rounds: Rounds) {
    && (forall pos: nat, have: nat, c: Chunk :: w.chunkAt(pos, have, c) ==>
          rounds(pos, have) == Piece(c.data, pos + w.chunkSize(c)) && 0 < w.chunkSize(c) <= limit - pos)
    && (forall pos: nat, have: nat, b: Body :: w.lastAt(pos, b) ==> rounds(pos, have) == End(pos + w.lastSize(b)))
  }

  ghost predicate Grounded(w: Layout, rounds: Rounds) {
    && (forall pos: nat, have: nat :: rounds(pos, have).Piece? ==> exists c :: w.chunkAt(pos, have, c))
    && (forall pos: nat, have: nat :: rounds(pos, have).End? ==> exists b: Body :: b.Last? && w.lastAt(pos, b))
  }

  /** A body that is laid out is read round by round. */
  lemma {:induction false} LaidIsRead(w: Layout, limit: nat, rounds: Rounds, b: Body, pos: nat, have: nat)
    requires Faithful(w, limit, rounds) && Laid(w, b, pos, have)
    ensures Follows(rounds, limit, TraceOf(w, b, pos), pos, have)
    decreases b
  {
    if b.More? {
      LaidIsRead(w, limit, rounds, b.rest, pos + w.chunkSize(b.chunk), have + |b.chunk.data|);
    }
  }

  /** Whatever is read round by round is a body that is laid out. */
  lemma {:induction false} ReadIsLaid(w: Layout, limit: nat, rounds: Rounds, tr: Trace, pos: nat, have: nat) returns (b: Body)
    requires Faithful(w, limit, rounds) && Grounded(w, rounds) && Follows(rounds, limit, tr, pos, have)
    ensures Laid(w, b, pos, have) && tr == TraceOf(w, b, pos)
    decreases tr
  {
    match tr
    case Stop(_) =>
      b :| b.Last? && w.lastAt(pos, b);
    case Step(data, next, tail) =>
      var c :| w.chunkAt(pos, have, c);
      assert rounds(pos, have) == Piece(c.data, pos + w.chunkSize(c));
      var rest := ReadIsLaid(w, limit, rounds, tail, next, have + |data|);
      b := More(c, rest);
      assert TraceOf(w, b, pos) == Step(data, next, TraceOf(w, rest, next));
  }

  // ----- The layout of a buffer -----

  /** Which bytes stand where. */
  type Sight = (nat, Bytes) -> bool

  ghost predicate SplitsAt(at: Sight, i: nat, t: Bytes, u: Bytes) {
    at(i, t + u) <==> at(i, t) && at(i + |t|, u)
  }

  ghost predicate Splits(at: Sight) {
    forall i: nat, t: Bytes, u: Bytes :: SplitsAt(at, i, t, u)
  }

  ghost function LayoutOf(g: Rules, at: Sight, max: nat): (w: Layout) {
    Layout((pos: nat, have: nat, c: Chunk) =>
             ValidChunk(g, c) && c.data != [] && have + |c.data| <= max && at(pos, EncodeChunk(c)),
           (pos: nat, b: Body) => b.Last? && ValidBody(g, b) && at(pos, Encode(b)),
           (c: Chunk) => |EncodeChunk(c)|,
           (b: Body) => |Encode(b)|)
  }

  /** A body is laid out exactly where its encoding stands. */
  lemma {:induction false} EncodedIsLaid(g: Rules, at: Sight, max: nat, b: Body, pos: nat, have: nat)
    requires Splits(at) && ValidBody(g, b) && at(pos, Encode(b)) && have + |Data(b)| <= max
    ensures Laid(LayoutOf(g, at, max), b, pos, have)
    decreases b
  {
    if b.More? {
      assert SplitsAt(at, pos, EncodeChunk(b.chunk), Encode(b.rest));
      EncodedIsLaid(g, at, max, b.rest, pos + |EncodeChunk(b.chunk)|, have + |b.chunk.data|);
    }
  }

  lemma {:induction false} LaidIsEncoded(g: Rules, at: Sight, max: nat, b: Body, pos: nat, have: nat)
    requires Splits(at) && Laid(LayoutOf(g, at, max), b, pos, have) && have <= max
    ensures ValidBody(g, b) && at(pos, Encode(b)) && have + |Data(b)| <= max
    decreases b
  {
    if b.More? {
      assert SplitsAt(at, pos, EncodeChunk(b.chunk), Encode(b.rest));
      LaidIsEncoded(g, at, max, b.rest, pos + |EncodeChunk(b.chunk)|, have + |b.chunk.data|);
    }
  }

  lemma {:induction false} TraceMeaning(g: Rules, at: Sight, max: nat, b: Body, pos: nat)
    ensures Delivered(TraceOf(LayoutOf(g, at, max), b, pos)) == Data(b)
    ensures Used(TraceOf(LayoutOf(g, at, max), b, pos)) == pos + |Encode(b)|
    decreases b
  {
    if b.More? {
      TraceMeaning(g, at, max, b.rest, pos + |EncodeChunk(b.chunk)|);
    }
  }

  ghost function SightOf(raw: Bytes): (at: Sight) {
    (i: nat, t: Bytes) => At(raw, i, t)
  }

  lemma BufferSplits(raw: Bytes)
    ensures Splits(SightOf(raw))
  {
    forall i: nat, t: Bytes, u: Bytes
      ensures SplitsAt(SightOf(raw), i, t, u)
    {
      AtSplit(raw, i, t, u);
    }
  }

  ghost function GateLayout(raw: Bytes, max: nat): (w: Layout) {
    LayoutOf(GATE, SightOf(raw), max)
  }

  lemma ChunkIsRead(g: Rules, raw: Bytes, max: nat, pos: nat, have: nat, c: Chunk)
    requires ValidChunk(g, c) && c.data != [] && have + |c.data| <= max && At(raw, pos, EncodeChunk(c))
    ensures RoundAt(g, raw, max, pos, have) == Piece(c.data, pos + |EncodeChunk(c)|)
  {
    ChunkLayout(raw, pos, c);
  }

  lemma LastRound(g: Rules, ends: Ends, raw: Bytes, max: nat, pos: nat, have: nat, line: Bytes, end: nat)
    requires pos + |line| + 2 <= |raw| && FindCrlf(raw, pos) == Some(pos + |line|) && raw[pos..pos + |line|] == line
    requires g.sizeOf(line) == Some(0) && ends(pos + |line| + 2, 0) == Ok(end)
    ensures RoundBy(g, ends, raw, max, pos, have) == End(end)
  {
  }

  lemma LastIsRead(g: Rules, ends: Ends, raw: Bytes, max: nat, pos: nat, have: nat, line: Bytes, trailers: seq<Bytes>)
    requires TrailersRead(g, SightOf(raw), ends)
    requires ValidChunk(g, Chunk(line, [])) && |trailers| <= MAX_HEADERS && ValidTrailers(g, trailers)
    requires At(raw, pos, (line + CRLF) + EncodeTrailers(trailers))
    ensures RoundBy(g, ends, raw, max, pos, have) == End(pos + |line| + 2 + |EncodeTrailers(trailers)|)
  {
    LineBeforeTrailers(raw, pos, line, trailers);
    BufferSplits(raw);
    TrailersInvert(g, SightOf(raw), ends, pos + |line| + 2, trailers, 0);
    LastRound(g, ends, raw, max, pos, have, line, pos + |line| + 2 + |EncodeTrailers(trailers)|);
  }

  lemma GateIsFaithful(raw: Bytes, max: nat)
    ensures Faithful(GateLayout(raw, max), |raw|, GateRounds(raw, max))
  {
    GateReadsTrailers(GATE, raw);
    forall pos: nat, have: nat, c: Chunk |
      ValidChunk(GATE, c) && c.data != [] && have + |c.data| <= max && At(raw, pos, EncodeChunk(c))
      ensures RoundAt(GATE, raw, max, pos, have) == Piece(c.data, pos + |EncodeChunk(c)|)
    {
      ChunkIsRead(GATE, raw, max, pos, have, c);
    }
    forall pos: nat, have: nat, b: Body | b.Last? && ValidBody(GATE, b) && At(raw, pos, Encode(b))
      ensures RoundAt(GATE, raw, max, pos, have) == End(pos + |Encode(b)|)
    {
      LastIsRead(GATE, EndsOf(GATE, raw), raw, max, pos, have, b.chunk.line, b.trailers);
    }
  }

  // ----- Every accepted body is an encoding -----

  lemma {:induction false} TrailersAreEncoded(g: Rules, raw: Bytes, pos: nat, count: nat) returns (lines: seq<Bytes>)
    requires pos <= |raw| && count <= MAX_HEADERS && TrailersFrom(g, raw, pos, count).Ok?
    ensures count + |lines| <= MAX_HEADERS && ValidTrailers(g, lines)
    ensures At(raw, pos, EncodeTrailers(lines)) && TrailersFrom(g, raw, pos, count).value == pos + |EncodeTrailers(lines)|
    decreases |raw| - pos
  {
    FoundLine(raw, pos);
    var e := FindCrlf(raw, pos).value;
    if e == pos {
      lines := [];
      assert raw[pos..e] + CRLF == CRLF;
    } else {
      var rest := TrailersAreEncoded(g, raw, e + 2, count + 1);
      lines := [raw[pos..e]] + rest;
      assert lines[1..] == rest;
      AtSplit(raw, pos, raw[pos..e] + CRLF, EncodeTrailers(rest));
    }
  }

  lemma ChunkStands(raw: Bytes, pos: nat, e: nat, size: nat)
    requires pos <= e && e + 2 + size + 2 <= |raw| && At(raw, pos, raw[pos..e] + CRLF) && IsCrlf(raw, e + 2 + size)
    ensures At(raw, pos, EncodeChunk(Chunk(raw[pos..e], raw[e + 2..e + 2 + size])))
  {
    var p := e + 2;
    var line, data := raw[pos..e], raw[p..p + size];
    assert raw[p + size..p + size + 2] == CRLF;
    AtSplit(raw, p, data, CRLF);
    AtSplit(raw, pos, line + CRLF, data + CRLF);
  }

  lemma PieceIsChunk(g: Rules, raw: Bytes, max: nat, pos: nat, have: nat) returns (c: Chunk)
    requires RoundAt(g, raw, max, pos, have).Piece?
    ensures ValidChunk(g, c) && c.data != [] && have + |c.data| <= max && At(raw, pos, EncodeChunk(c))
  {
    FoundLine(raw, pos);
    var e := FindCrlf(raw, pos).value;
    var size := g.sizeOf(raw[pos..e]).value;
    c := Chunk(raw[pos..e], raw[e + 2..e + 2 + size]);
    ChunkStands(raw, pos, e, size);
  }

  lemma EndIsLast(g: Rules, raw: Bytes, max: nat, pos: nat, have: nat) returns (b: Body)
    requires RoundAt(g, raw, max, pos, have).End?
    ensures b.Last? && ValidBody(g, b) && At(raw, pos, Encode(b))
  {
    FoundLine(raw, pos);
    var e := FindCrlf(raw, pos).value;
    var lines := TrailersAreEncoded(g, raw, e + 2, 0);
    b := Last(Chunk(raw[pos..e], []), lines);
    AtSplit(raw, pos, raw[pos..e] + CRLF, EncodeTrailers(lines));
  }

  lemma GateIsGrounded(raw: Bytes, max: nat)
    ensures Grounded(GateLayout(raw, max), GateRounds(raw, max))
  {
    var w := GateLayout(raw, max);
    forall pos: nat, have: nat | RoundAt(GATE, raw, max, pos, have).Piece?
      ensures exists c :: w.chunkAt(pos, have, c)
    {
      var c := PieceIsChunk(GATE, raw, max, pos, have);
      assert w.chunkAt(pos, have, c);
    }
    forall pos: nat, have: nat | RoundAt(GATE, raw, max, pos, have).End?
      ensures exists b: Body :: b.Last? && w.lastAt(pos, b)
    {
      var b := EndIsLast(GATE, raw, max, pos, have);
      assert w.lastAt(pos, b);
    }
  }

  // ----- The decoder as a whole -----

  /** Decoding any buffer that starts with an encoded body yields the body's data and consumes exactly
      the encoding, whatever follows it. */
  lemma DecodeInvertsEncode(raw: Bytes, max: nat, b: Body)
    requires ValidBody(GATE, b) && At(raw, 0, Encode(b)) && |Data(b)| <= max
    ensures Yields(Decode(raw, max), Data(b), |Encode(b)|)
  {
    GateIsFaithful(raw, max);
    BufferSplits(raw);
    DecodeLaid(SightOf(raw), GateRounds(raw, max), |raw|, max, b);
  }

  /** Whatever the decoder accepts is the encoding of a valid body with exactly the decoded data, and the
      data never exceeds `max`. */
  lemma DecodedIsEncoded(raw: Bytes, max: nat) returns (b: Body)
    requires Decode(raw, max).Ok?
    ensures ValidBody(GATE, b) && At(raw, 0, Encode(b)) && |Data(b)| <= max
    ensures Yields(Decode(raw, max), Data(b), |Encode(b)|)
  {
    GateIsFaithful(raw, max);
    GateIsGrounded(raw, max);
    BufferSplits(raw);
    b := DecodedLaid(SightOf(raw), GateRounds(raw, max), |raw|, max);
  }

  lemma DecodeLaid(at: Sight, rounds: Rounds, limit: nat, max: nat, b: Body)
    requires Splits(at) && Faithful(LayoutOf(GATE, at, max), limit, rounds)
    requires ValidBody(GATE, b) && at(0, Encode(b)) && |Data(b)| <= max
    ensures Yields(DecodeFrom(rounds, limit, 0, []), Data(b), |Encode(b)|)
  {
    var w := LayoutOf(GATE, at, max);
    EncodedIsLaid(GATE, at, max, b, 0, 0);
    LaidIsRead(w, limit, rounds, b, 0, 0);
    TraceMeaning(GATE, at, max, b, 0);
    DecodeAlong(rounds, limit, TraceOf(w, b, 0), 0, []);
    assert [] + Data(b) == Data(b);
  }

  lemma DecodedLaid(at: Sight, rounds: Rounds, limit: nat, max: nat) returns (b: Body)
    requires Splits(at) && Faithful(LayoutOf(GATE, at, max), limit, rounds) && Grounded(LayoutOf(GATE, at, max), rounds)
    requires DecodeFrom(rounds, limit, 0, []).Ok?
    ensures ValidBody(GATE, b) && at(0, Encode(b)) && |Data(b)| <= max
    ensures Yields(DecodeFrom(rounds, limit, 0, []), Data(b), |Encode(b)|)
  {
    var tr := DecodedAlong(rounds, limit, 0, []);
    b := ReadIsLaid(LayoutOf(GATE, at, max), limit, rounds, tr, 0, 0);
    LaidIsEncoded(GATE, at, max, b, 0, 0);
    DecodeLaid(at, rounds, limit, max, b);
  }

  /** The decoder's answer depends only on the bytes it consumed. */
  lemma DecodeIsLocal(raw: Bytes, raw': Bytes, max: nat)
    requires Decode(raw, max).Ok?
    ensures Decode(raw, max).value.1 <= |raw|
    ensures raw[..Decode(raw, max).value.1] <= raw' ==> Decode(raw', max) == Decode(raw, max)
  {
    var b := DecodedIsEncoded(raw, max);
    var n := |Encode(b)|;
    if raw[..n] <= raw' {
      assert raw'[0..n] == raw[0..n];
      DecodeInvertsEncode(raw', max, b);
    }
  }
}
