/** The framing gate itself: one HTTP/1.x request per buffer, with exactly one way to delimit its body. */
module HttpRequest {
  import opened HttpBytes
  import opened HttpChunked
  import opened Values

  const MAX_TARGET_BYTES: nat := 8192
  const MAX_METHOD_BYTES: nat := 16
  /** `HTTP/1.1` */
  const HTTP11: Bytes := [72, 84, 84, 80, 47, 49, 46, 49]
  /** `HTTP/1.0` */
  const HTTP10: Bytes := [72, 84, 84, 80, 47, 49, 46, 48]
  /** `chunked` */
  const CHUNKED: Bytes := [99, 104, 117, 110, 107, 101, 100]

  datatype Field = Field(name: Bytes, value: Bytes)

  /** What the header scan has learnt about the body so far. */
  datatype Framing = Framing(length: Option<nat>, chunked: bool, count: nat)

  /** What an accepted request consists of. */
  datatype Parts = Parts(target: Bytes, headers: Bytes, body: Bytes)

  // ----- Lines -----

  predicate EndsInCr(line: Bytes) {
    line != [] && line[|line| - 1] == CR
  }

  function StripCr(line: Bytes): (r: Bytes) {
    if EndsInCr(line) then line[..|line| - 1] else line
  }

  /** A field line: a name, a colon and a value, less one leading space. */
  function FieldOf(line: Bytes): (r: Option<Field>) {
    var colon := IndexOf(line, COLON, 0);
    if colon.None? then None else
    var name, rest := line[..colon.value], line[colon.value + 1..];
    var value := if rest != [] && rest[0] == SP then rest[1..] else rest;
    if IsFieldName(name) && IsFieldValue(value) then Some(Field(name, value)) else None
  }

  datatype Start = Start(method_: Bytes, target: Bytes, v10: bool)

  predicate IsMethod(m: Bytes) {
    m != [] && |m| <= MAX_METHOD_BYTES && forall i :: 0 <= i < |m| ==> IsTchar(m[i])
  }

  predicate IsTarget(t: Bytes) {
    t != [] && |t| <= MAX_TARGET_BYTES && forall i :: 0 <= i < |t| ==> t[i] >= 0x21
  }

  /** Exactly three components with one space between them. */
  function StartOf(line: Bytes): (r: Option<Start>) {
    var parts := SplitOn(line, SP);
    if |parts| == 3 && IsMethod(parts[0]) && IsTarget(parts[1]) && (parts[2] == HTTP11 || parts[2] == HTTP10)
    then Some(Start(parts[0], parts[1], parts[2] == HTTP10))
    else None
  }

  // ----- Transfer-Encoding values -----

  /** The elements of a comma-separated list, trimmed; empty elements do not count. */
  function Elements(pieces: seq<Bytes>): (r: seq<Bytes>) {
    if pieces == [] then []
    else if Trimmed(pieces[0]) == [] then Elements(pieces[1..])
    else [Trimmed(pieces[0])] + Elements(pieces[1..])
  }

  /** The value lists exactly one coding, and it is `chunked`. */
  predicate IsChunkedCoding(value: Bytes) {
    var e := Elements(SplitOn(value, COMMA));
    |e| == 1 && EqCi(e[0], CHUNKED)
  }

  /** Token by token: every one is `chunked`, and they number one in all with the `count` before them. */
  predicate CodingsFrom(pieces: seq<Bytes>, count: nat) {
    if pieces == [] then count == 1
    else if Trimmed(pieces[0]) == [] then CodingsFrom(pieces[1..], count)
    else EqCi(Trimmed(pieces[0]), CHUNKED) && CodingsFrom(pieces[1..], count + 1)
  }

  lemma {:induction false} CodingsFromIff(pieces: seq<Bytes>, count: nat)
    ensures CodingsFrom(pieces, count) <==>
              |Elements(pieces)| + count == 1 && (Elements(pieces) != [] ==> EqCi(Elements(pieces)[0], CHUNKED))
  {
    if pieces != [] {
      CodingsFromIff(pieces[1..], if Trimmed(pieces[0]) == [] then count else count + 1);
    }
  }

  method CheckCodings(value: Bytes) returns (ok: bool)
    ensures ok == IsChunkedCoding(value)
  {
    var pieces := SplitOn(value, COMMA);
    CodingsFromIff(pieces, 0);
    var count := 0;
    var i := 0;
    while i < |pieces|
      invariant i <= |pieces| && CodingsFrom(pieces, 0) == CodingsFrom(pieces[i..], count)
    {
      var token := TrimOws(pieces[i]);
      assert pieces[i..][1..] == pieces[i + 1..];
      if token != [] {
        count := count + 1;
        if !EqCi(token, CHUNKED) {
          return false;
        }
      }
      i := i + 1;
    }
    ok := count == 1;
  }

  // ----- Header scan -----

  /** How field names and values are read. */
  datatype Terms = Terms(isLength: Bytes -> bool, isCoding: Bytes -> bool,
                         decimal: Bytes -> Option<nat>, isChunked: Bytes -> bool)

  const HTTP: Terms := Terms((n: Bytes) => EqCi(n, CONTENT_LENGTH), (n: Bytes) => EqCi(n, TRANSFER_ENCODING),
                             DecimalField, IsChunkedCoding)

  function ApplyField(t: Terms, v10: bool, fr: Framing, f: Field): (r: Result<Framing>) {
    if t.isLength(f.name) then
      var n := t.decimal(f.value);
      if n.None? then Err(Malformed)
      else if fr.length.Some? && fr.length != n then Err(HeaderSmuggling)
      else Ok(fr.(length := n))
    else if t.isCoding(f.name) then
      if v10 || fr.chunked || !t.isChunked(f.value) then Err(HeaderSmuggling) else Ok(fr.(chunked := true))
    else Ok(fr)
  }

  /** One non-empty header line. */
  function ApplyLine(t: Terms, v10: bool, fr: Framing, line: Bytes): (r: Result<Framing>) {
    if fr.count + 1 > MAX_HEADERS then Err(Oversized) else
    var f := FieldOf(line);
    if f.None? then Err(Malformed) else ApplyField(t, v10, fr.(count := fr.count + 1), f.value)
  }

  type Step = (Framing, Bytes) -> Result<Framing>

  function StepOf(t: Terms, v10: bool): (s: Step) {
    (fr: Framing, line: Bytes) => ApplyLine(t, v10, fr, line)
  }

  /** The header lines in order. Only the last may lack its CR; empty lines are skipped. */
  function Scan(step: Step, lines: seq<Bytes>, fr: Framing): (r: Result<Framing>) {
    if lines == [] then Ok(fr)
    else if !EndsInCr(lines[0]) && |lines| > 1 then Err(Malformed)
    else if StripCr(lines[0]) == [] then Scan(step, lines[1..], fr)
    else
      var r := step(fr, StripCr(lines[0]));
      if r.Err? then r else Scan(step, lines[1..], r.value)
  }

  method ApplyHeaderLine(v10: bool, fr: Framing, line: Bytes) returns (r: Result<Framing>)
    ensures r == ApplyLine(HTTP, v10, fr, line)
  {
    var next := fr.(count := fr.count + 1);
    if next.count > MAX_HEADERS {
      return Err(Oversized);
    }
    var colon := IndexOf(line, COLON, 0);
    if colon.None? {
      return Err(Malformed);
    }
    var name, value := line[..colon.value], line[colon.value + 1..];
    if value != [] && value[0] == SP {
      value := value[1..];
    }
    if !IsFieldName(name) || !IsFieldValue(value) {
      return Err(Malformed);
    }
    if EqCi(name, CONTENT_LENGTH) {
      var n := ParseDecimal(value);
      if n.None? {
        return Err(Malformed);
      }
      if next.length.Some? {
        if next.length != n {
          return Err(HeaderSmuggling);
        }
      } else {
        next := next.(length := n);
      }
    }
    if EqCi(name, TRANSFER_ENCODING) {
      if v10 || next.chunked {
        return Err(HeaderSmuggling);
      }
      var ok := CheckCodings(value);
      if !ok {
        return Err(HeaderSmuggling);
      }
      next := next.(chunked := true);
    }
    r := Ok(next);
  }

  lemma ScanUnfolds(step: Step, lines: seq<Bytes>, i: nat, fr: Framing)
    requires i < |lines|
    ensures Scan(step, lines[i..], fr) ==
              if !EndsInCr(lines[i]) && i + 1 != |lines| then Err(Malformed)
              else if StripCr(lines[i]) == [] then Scan(step, lines[i + 1..], fr)
              else
                var r := step(fr, StripCr(lines[i]));
                if r.Err? then r else Scan(step, lines[i + 1..], r.value)
  {
    assert lines[i..][1..] == lines[i + 1..];
  }

  method ScanHeaders(v10: bool, lines: seq<Bytes>) returns (r: Result<Framing>)
    ensures r == Scan(StepOf(HTTP, v10), lines, Framing(None, false, 0))
  {
    ghost var step := StepOf(HTTP, v10);
    var fr := Framing(None, false, 0);
    var i := 0;
    while i < |lines|
      invariant i <= |lines| && Scan(step, lines, Framing(None, false, 0)) == Scan(step, lines[i..], fr)
    {
      ScanUnfolds(step, lines, i, fr);
      if !EndsInCr(lines[i]) && i + 1 != |lines| {
        return Err(Malformed);
      }
      var line := StripCr(lines[i]);
      if line != [] {
        var next := ApplyHeaderLine(v10, fr, line);
        assert next == step(fr, line);
        if next.Err? {
          return next;
        }
        fr := next.value;
      }
      i := i + 1;
    }
    r := Ok(fr);
  }

  // ----- The request -----

  type Decoder = Bytes -> Result<(Bytes, nat)>

  function GateDecoder(max: nat): (d: Decoder) {
    (raw: Bytes) => Decode(raw, max)
  }

  /** The body the framing delimits; it must fill the rest of the buffer. */
  function BodyFrom(decode: Decoder, fr: Framing, raw: Bytes, max: nat): (r: Result<Bytes>) {
    if fr.chunked then
      if fr.length.Some? then Err(HeaderSmuggling) else
      var d := decode(raw);
      if d.Err? then Err(d.finding) else if d.value.1 != |raw| then Err(Malformed) else Ok(d.value.0)
    else if fr.length.Some? && (fr.length.value != |raw| || |raw| > max) then Err(Malformed)
    else if fr.length.None? && raw != [] then Err(Malformed)
    else Ok(raw)
  }

  /** What the head holds after its first line. */
  function HeadersAfter(head: Bytes, line: Bytes): (r: Bytes) {
    if |line| + 2 <= |head| then head[|line| + 2..] else []
  }

  /** Everything after the search for the blank line. */
  function ParseParts(head: Bytes, raw: Bytes, max: nat): (r: Result<Parts>) {
    var lines := SplitOn(head, LF);
    var line := StripCr(lines[0]);
    var start := StartOf(line);
    if start.None? then Err(Malformed) else
    var headers := HeadersAfter(head, line);
    var fr := Scan(StepOf(HTTP, start.value.v10), lines[1..], Framing(None, false, 0));
    if fr.Err? then Err(fr.finding) else
    var body := BodyFrom(GateDecoder(max), fr.value, raw, max);
    if body.Err? then Err(body.finding) else Ok(Parts(start.value.target, headers, body.value))
  }

  /** What comes before the first blank line and what comes after it, handed to `parts`. */
  function ParseWith(parts: Parser, req: Bytes, max: nat): (r: Result<Parts>) {
    if |req| > max then Err(Oversized) else
    var sep := FindBlankLine(req, 0);
    if sep.None? then Err(Malformed)
    else if sep.value > MAX_HEADER_BYTES then Err(Oversized)
    else parts(req[..sep.value], req[sep.value + 4..])
  }

  type Parser = (Bytes, Bytes) -> Result<Parts>

  function PartsParser(max: nat): (parts: Parser) {
    (head: Bytes, raw: Bytes) => ParseParts(head, raw, max)
  }

  function Parse(req: Bytes, max: nat): (r: Result<Parts>) {
    ParseWith(PartsParser(max), req, max)
  }

  method ParseRequest(req: Bytes, max: nat) returns (r: Result<Parts>)
    ensures r == Parse(req, max)
  {
    r := ParseBuffer(req, max, PartsParser(max));
  }

  /** The search for the blank line, with the parser for the two parts it separates. */
  method ParseBuffer(req: Bytes, max: nat, ghost parts: Parser) returns (r: Result<Parts>)
    requires parts == PartsParser(max)
    ensures r == ParseWith(parts, req, max)
  {
    if |req| > max {
      return Err(Oversized);
    }
    var sep := FindBlankLine(req, 0);
    if sep.None? {
      return Err(Malformed);
    }
    if sep.value > MAX_HEADER_BYTES {
      return Err(Oversized);
    }
    var head, raw := req[..sep.value], req[sep.value + 4..];
    r := ParseHeadAndBody(head, raw, max);
    assert r == parts(head, raw);
  }

  method ParseHeadAndBody(head: Bytes, raw: Bytes, max: nat) returns (r: Result<Parts>)
    ensures r == ParseParts(head, raw, max)
  {
    var lines := SplitOn(head, LF);
    var line := StripCr(lines[0]);
    var start := StartOf(line);
    if start.None? {
      return Err(Malformed);
    }
    var headers: Bytes := [];
    if |line| + 2 <= |head| {
      headers := head[|line| + 2..];
    }
    var fr := ScanHeaders(start.value.v10, lines[1..]);
    if fr.Err? {
      return Err(fr.finding);
    }
    var body := TakeBody(fr.value, raw, max);
    if body.Err? {
      return Err(body.finding);
    }
    r := Ok(Parts(start.value.target, headers, body.value));
  }

  method TakeBody(fr: Framing, raw: Bytes, max: nat) returns (r: Result<Bytes>)
    ensures r == BodyFrom(GateDecoder(max), fr, raw, max)
  {
    if fr.chunked && fr.length.Some? {
      return Err(HeaderSmuggling);
    }
    if fr.chunked {
      var d := DecodeChunked(raw, max);
      assert d == GateDecoder(max)(raw);
      if d.Err? {
        return Err(d.finding);
      }
      if d.value.1 != |raw| {
        return Err(Malformed);
      }
      return Ok(d.value.0);
    }
    if fr.length.Some? {
      if fr.length.value != |raw| || fr.length.value > max {
        return Err(Malformed);
      }
    } else if raw != [] {
      return Err(Malformed);
    }
    r := Ok(raw);
  }
}
