/** Requests written out as text, byte for byte as a client would, and what the gate makes of them. */
module HttpRoundTrip {
  import opened HttpBytes
  import opened HttpChunked
  import opened HttpRequest
  import opened HttpFraming
  import opened HttpPrint
  import HttpHeaders
  import opened HttpText
  import opened Values

  // ----- Text -----

  ghost function FieldText(f: Field): (r: Bytes) {
    f.name + Ascii(": ") + f.value + Ascii("\r\n")
  }

  ghost function FieldsText(fields: seq<Field>): (r: Bytes) {
    if fields == [] then [] else FieldText(fields[0]) + FieldsText(fields[1..])
  }

  ghost function RequestText(m: Message): (r: Bytes) {
    m.start.method_ + Ascii(" ") + m.start.target + Ascii(if m.start.v10 then " HTTP/1.0\r\n" else " HTTP/1.1\r\n")
    + FieldsText(m.fields) + Ascii("\r\n") + m.raw
  }

  ghost predicate IsField(f: Field) {
    IsToken(f.name, 128) && IsValueText(f.value)
  }

  /** A request whose parts are what the grammar allows them to be, with a head of at most 32 KiB. */
  ghost predicate IsRequest(m: Message) {
    && IsToken(m.start.method_, 16) && IsTargetText(m.start.target)
    && (forall f :: f in m.fields ==> IsField(f))
    && |RequestText(m)| <= 32768 + 4 + |m.raw|
  }

  ghost function LinesText(lines: seq<Bytes>): (r: Bytes) {
    if lines == [] then [] else lines[0] + Ascii("\r\n") + LinesText(lines[1..])
  }

  lemma Literals()
    ensures Ascii(" ") == [SP] && Ascii(": ") == [COLON, SP] && Ascii("\r\n") == CRLF && Ascii(":") == [COLON]
    ensures Ascii(" HTTP/1.0\r\n") == [SP] + HTTP10 + CRLF && Ascii(" HTTP/1.1\r\n") == [SP] + HTTP11 + CRLF
  {
  }

  lemma {:induction false} JoinedIsText(lines: seq<Bytes>)
    requires lines != []
    ensures Join(lines) + CRLF == LinesText(lines)
    decreases |lines|
  {
    Literals();
    if |lines| == 1 {
      assert lines[1..] == [];
    } else {
      JoinedIsText(lines[1..]);
      assert Join(lines) + CRLF == lines[0] + CRLF + (Join(lines[1..]) + CRLF);
    }
  }

  lemma {:induction false} FieldsAreLines(fields: seq<Field>)
    ensures LinesText(FieldLines(fields)) == FieldsText(fields)
  {
    if fields != [] {
      var f := fields[0];
      FieldsAreLines(fields[1..]);
      Literals();
      assert FieldLine(f) + CRLF == FieldText(f);
      assert FieldLines(fields)[1..] == FieldLines(fields[1..]);
    }
  }

  lemma StartIsLine(s: Start)
    ensures StartLine(s) + CRLF == s.method_ + Ascii(" ") + s.target + Ascii(if s.v10 then " HTTP/1.0\r\n" else " HTTP/1.1\r\n")
  {
    Literals();
  }

  /** The head with the CR LF of its last line. */
  lemma HeadIsText(m: Message)
    ensures Head(m) + CRLF == StartLine(m.start) + CRLF + FieldsText(m.fields)
  {
    var lines := [StartLine(m.start)] + FieldLines(m.fields);
    JoinedIsText(lines);
    Literals();
    assert lines[1..] == FieldLines(m.fields);
    FieldsAreLines(m.fields);
  }

  lemma PrintedIsText(m: Message)
    ensures Print(m) == RequestText(m)
  {
    HeadIsText(m);
    StartIsLine(m.start);
    Literals();
    assert Print(m) == (Head(m) + CRLF) + CRLF + m.raw;
  }

  lemma SplitRejoins(s: Bytes, b: byte)
    requires |SplitOn(s, b)| > 1
    ensures exists rest :: s == SplitOn(s, b)[0] + ([b] + rest) && SplitOn(rest, b) == SplitOn(s, b)[1..]
  {
    var i := IndexOf(s, b, 0).value;
    assert s == s[..i] + ([b] + s[i + 1..]);
  }

  lemma SplitOne(s: Bytes, b: byte)
    requires |SplitOn(s, b)| == 1
    ensures SplitOn(s, b)[0] == s
  {
  }

  lemma ThreeRejoin(line: Bytes)
    requires |SplitOn(line, SP)| == 3
    ensures var p := SplitOn(line, SP); line == p[0] + ([SP] + (p[1] + ([SP] + p[2])))
  {
    var p := SplitOn(line, SP);
    SplitRejoins(line, SP);
    var rest :| line == p[0] + ([SP] + rest) && SplitOn(rest, SP) == p[1..];
    SplitRejoins(rest, SP);
    var last :| rest == SplitOn(rest, SP)[0] + ([SP] + last) && SplitOn(last, SP) == SplitOn(rest, SP)[1..];
    SplitOne(last, SP);
  }

  /** The request lines that are read. */
  lemma StartLineIff(line: Bytes, s: Start)
    ensures StartOf(line) == Some(s) <==>
              && IsToken(s.method_, 16) && IsTargetText(s.target)
              && line + Ascii("\r\n") == s.method_ + Ascii(" ") + s.target + Ascii(if s.v10 then " HTTP/1.0\r\n" else " HTTP/1.1\r\n")
  {
    GrammarIff(s.method_);
    GrammarIff(s.target);
    StartIsLine(s);
    Literals();
    SameLine(line, StartLine(s));
    if IsMethod(s.method_) && IsTarget(s.target) {
      StartIsRead(s);
    }
    if StartOf(line) == Some(s) {
      ThreeRejoin(line);
    }
  }

  lemma SameLine(line: Bytes, other: Bytes)
    ensures line + CRLF == other + CRLF <==> line == other
  {
    if line + CRLF == other + CRLF {
      assert line == (line + CRLF)[..|line|] && other == (other + CRLF)[..|other|];
    }
  }

  lemma {:induction false} FieldsAreValid(fields: seq<Field>)
    requires forall f :: f in fields ==> IsField(f)
    ensures ValidFields(fields)
  {
    if fields != [] {
      assert fields[0] in fields;
      GrammarIff(fields[0].name);
      GrammarIff(fields[0].value);
      FieldsAreValid(fields[1..]);
    }
  }

  lemma RequestIsValid(m: Message)
    requires IsRequest(m)
    ensures ValidMessage(m) && Print(m) == RequestText(m)
  {
    GrammarIff(m.start.method_);
    GrammarIff(m.start.target);
    FieldsAreValid(m.fields);
    PrintedIsText(m);
    assert |Print(m)| == |Head(m)| + 4 + |m.raw|;
  }

  // ----- Framing fields -----

  /** Every length field is a numeral of `n`, there is one unless `n` is zero, and there is no coding. */
  ghost predicate StatesLength(fields: seq<Field>, n: nat) {
    && (forall f :: f in fields ==> !IsCodingName(f.name) && (IsLengthName(f.name) ==> IsDecimal(f.value, n)))
    && (n == 0 || exists f :: f in fields && IsLengthName(f.name))
  }

  /** Field `i` is the one that states a coding. */
  ghost predicate OnlyCoding(fields: seq<Field>, i: nat) {
    && i < |fields| && IsCodingName(fields[i].name)
    && forall j :: 0 <= j < |fields| && IsCodingName(fields[j].name) ==> j == i
  }

  /** One coding, `chunked`, and no length. */
  ghost predicate StatesChunked(fields: seq<Field>) {
    && (forall f :: f in fields ==> !IsLengthName(f.name))
    && exists i: nat :: OnlyCoding(fields, i) && IsChunkedText(fields[i].value)
  }

  lemma TermsRead(f: Field)
    ensures HTTP.isLength(f.name) <==> IsLengthName(f.name)
    ensures HTTP.isCoding(f.name) <==> IsCodingName(f.name)
    ensures HTTP.isChunked(f.value) <==> IsChunkedText(f.value)
    ensures IsLengthName(f.name) ==> !IsCodingName(f.name)
  {
    LengthNameIff(f.name);
    CodingNameIff(f.name);
    ChunkedCodingIff(f.value);
  }

  lemma {:induction false} LengthIn(fields: seq<Field>, v: Bytes)
    ensures v in Lengths(HTTP, fields) <==> exists f :: f in fields && IsLengthName(f.name) && f.value == v
  {
    if fields != [] {
      TermsRead(fields[0]);
      LengthIn(fields[1..], v);
      assert forall f :: f in fields <==> f == fields[0] || f in fields[1..];
    }
  }

  lemma {:induction false} CodingIn(fields: seq<Field>, v: Bytes)
    ensures v in Codings(HTTP, fields) <==> exists f :: f in fields && IsCodingName(f.name) && f.value == v
  {
    if fields != [] {
      TermsRead(fields[0]);
      CodingIn(fields[1..], v);
      assert forall f :: f in fields <==> f == fields[0] || f in fields[1..];
    }
  }

  lemma {:induction false} NoLengthIff(fields: seq<Field>)
    ensures Lengths(HTTP, fields) == [] <==> forall f :: f in fields ==> !IsLengthName(f.name)
  {
    if fields != [] {
      TermsRead(fields[0]);
      NoLengthIff(fields[1..]);
      assert forall f :: f in fields <==> f == fields[0] || f in fields[1..];
    }
  }

  lemma {:induction false} NoCodingIff(fields: seq<Field>)
    ensures Codings(HTTP, fields) == [] <==> forall f :: f in fields ==> !IsCodingName(f.name)
  {
    if fields != [] {
      TermsRead(fields[0]);
      NoCodingIff(fields[1..]);
      assert forall f :: f in fields <==> f == fields[0] || f in fields[1..];
    }
  }

  /** Every length value is a numeral of `n` exactly when every length field is. */
  lemma AllLengthsIff(fields: seq<Field>, n: nat)
    requires n <= 0xFFFF_FFFF_FFFF_FFFF
    ensures (forall v :: v in Lengths(HTTP, fields) ==> HTTP.decimal(v) == Some(n)) <==>
            (forall f :: f in fields && IsLengthName(f.name) ==> IsDecimal(f.value, n))
  {
    forall v: Bytes
      ensures v in Lengths(HTTP, fields) <==> exists f :: f in fields && IsLengthName(f.name) && f.value == v
      ensures HTTP.decimal(v) == Some(n) <==> IsDecimal(v, n)
    {
      LengthIn(fields, v);
      DecimalFieldIff(v, n);
    }
  }

  lemma FramedByLengthIff(fields: seq<Field>, raw: Bytes)
    requires |raw| <= 0xFFFF_FFFF_FFFF_FFFF
    ensures FramedByLength(HTTP, fields, raw) <==> StatesLength(fields, |raw|)
  {
    NoLengthIff(fields);
    NoCodingIff(fields);
    AllLengthsIff(fields, |raw|);
    var ls := Lengths(HTTP, fields);
    assert (forall i :: 0 <= i < |ls| ==> HTTP.decimal(ls[i]) == Some(|raw|)) <==>
           (forall v :: v in ls ==> HTTP.decimal(v) == Some(|raw|));
  }

  lemma {:induction false} OnlyCodingRead(fields: seq<Field>, i: nat)
    requires OnlyCoding(fields, i)
    ensures Codings(HTTP, fields) == [fields[i].value]
    decreases i
  {
    TermsRead(fields[0]);
    var rest := fields[1..];
    if i == 0 {
      NoCodingIff(rest);
      forall f | f in rest ensures !IsCodingName(f.name) {
        var j :| 0 <= j < |rest| && rest[j] == f;
        assert fields[j + 1] == f;
      }
    } else {
      assert fields[i] == rest[i - 1];
      forall j | 0 <= j < |rest| && IsCodingName(rest[j].name) ensures j == i - 1 {
        assert fields[j + 1] == rest[j];
      }
      OnlyCodingRead(rest, i - 1);
    }
  }

  lemma {:induction false} OnlyCodingFound(fields: seq<Field>) returns (i: nat)
    requires |Codings(HTTP, fields)| == 1
    ensures OnlyCoding(fields, i)
    decreases |fields|
  {
    TermsRead(fields[0]);
    var rest := fields[1..];
    if IsCodingName(fields[0].name) {
      i := 0;
      NoCodingIff(rest);
      forall j | 0 < j < |fields| ensures fields[j] in rest {
        assert fields[j] == rest[j - 1];
      }
    } else {
      i := OnlyCodingFound(rest);
      i := i + 1;
      forall j | 0 <= j < |fields| && IsCodingName(fields[j].name) ensures j == i {
        assert j > 0 && fields[j] == rest[j - 1];
      }
    }
  }

  /** The fields frame the body in chunks exactly when they say so. */
  lemma StatesChunkedIff(fields: seq<Field>)
    ensures StatesChunked(fields) <==>
              && Lengths(HTTP, fields) == [] && |Codings(HTTP, fields)| == 1
              && HTTP.isChunked(Codings(HTTP, fields)[0])
  {
    NoLengthIff(fields);
    if |Codings(HTTP, fields)| == 1 {
      var i := OnlyCodingFound(fields);
      OnlyCodingRead(fields, i);
      TermsRead(fields[i]);
    }
    if i: nat :| OnlyCoding(fields, i) && IsChunkedText(fields[i].value) {
      OnlyCodingRead(fields, i);
      TermsRead(fields[i]);
    }
  }

  // ----- Chunked bodies -----

  ghost function ChunkText(c: Chunk): (r: Bytes) {
    c.line + Ascii("\r\n") + c.data + Ascii("\r\n")
  }

  ghost function ChunksText(chunks: seq<Chunk>): (r: Bytes) {
    if chunks == [] then [] else ChunkText(chunks[0]) + ChunksText(chunks[1..])
  }

  /** The last chunk, which has no bytes, and the trailers. */
  ghost function EndText(last: Bytes, trailers: seq<Bytes>): (r: Bytes) {
    last + Ascii("\r\n") + LinesText(trailers) + Ascii("\r\n")
  }

  /** The bytes the chunks carry. */
  ghost function Payload(chunks: seq<Chunk>): (r: Bytes) {
    if chunks == [] then [] else chunks[0].data + Payload(chunks[1..])
  }

  ghost function BodyText(chunks: seq<Chunk>, last: Bytes, trailers: seq<Bytes>): (r: Bytes) {
    ChunksText(chunks) + EndText(last, trailers)
  }

  ghost predicate IsOneLine(line: Bytes) {
    forall i :: 0 <= i < |line| - 1 ==> !(line[i] == Byte('\r') && line[i + 1] == Byte('\n'))
  }

  /** A chunk: not empty, under a line that states its size. */
  ghost predicate IsChunk(c: Chunk) {
    c.data != [] && IsSizeLine(c.line, |c.data|) && IsOneLine(c.line)
  }

  ghost predicate IsBody(chunks: seq<Chunk>, last: Bytes, trailers: seq<Bytes>) {
    && (forall c :: c in chunks ==> IsChunk(c))
    && IsSizeLine(last, 0) && IsOneLine(last)
    && |trailers| <= 64 && forall line :: line in trailers ==> IsTrailerLine(line)
  }

  /** `raw` is a chunked body that carries `data`. */
  ghost predicate Carries(raw: Bytes, data: Bytes) {
    exists chunks, last, trailers ::
      IsBody(chunks, last, trailers) && raw == BodyText(chunks, last, trailers) && data == Payload(chunks)
  }

  lemma OneLineIff(line: Bytes)
    ensures NoCrlf(line) <==> IsOneLine(line)
  {
    if NoCrlf(line) {
      forall i | 0 <= i < |line| - 1 ensures !(line[i] == Byte('\r') && line[i + 1] == Byte('\n')) {
        NoCrlfAt(line, i);
      }
    }
  }

  lemma ChunkIff(c: Chunk)
    requires |c.data| <= 0xFFFF_FFFF_FFFF_FFFF
    ensures ValidChunk(GATE, c) <==> IsOneLine(c.line) && IsSizeLine(c.line, |c.data|)
  {
    OneLineIff(c.line);
    SizeLineIff(c.line, |c.data|);
  }

  lemma TrailerIsOneLine(line: Bytes)
    requires IsTrailerLine(line)
    ensures line != [] && NoCrlf(line)
  {
    var k :| 0 <= k < |line| && line[k] == Byte(':') && IsTrailerName(line[..k]) && IsValueText(line[k + 1..]);
    forall i | 0 <= i < |line| ensures line[i] != CR {
      if i < k {
        assert line[..k][i] == line[i];
        TokenByteIff(line[i]);
      } else if i > k {
        assert line[k + 1..][i - k - 1] == line[i];
      }
    }
  }

  lemma TrailerIff(line: Bytes)
    ensures ValidTrailer(GATE, line) <==> IsTrailerLine(line)
  {
    TrailerLineIff(line);
    if IsTrailerLine(line) {
      TrailerIsOneLine(line);
    }
  }

  lemma {:induction false} TrailersIff(lines: seq<Bytes>)
    ensures ValidTrailers(GATE, lines) <==> forall line :: line in lines ==> IsTrailerLine(line)
  {
    if lines != [] {
      TrailerIff(lines[0]);
      TrailersIff(lines[1..]);
      assert forall line :: line in lines <==> line == lines[0] || line in lines[1..];
    }
  }

  ghost function Chained(chunks: seq<Chunk>, last: Bytes, trailers: seq<Bytes>): (b: Body) {
    if chunks == [] then Last(Chunk(last, []), trailers) else More(chunks[0], Chained(chunks[1..], last, trailers))
  }

  lemma {:induction false} TrailersAreText(lines: seq<Bytes>)
    ensures EncodeTrailers(lines) == LinesText(lines) + Ascii("\r\n")
  {
    Literals();
    if lines != [] {
      TrailersAreText(lines[1..]);
    }
  }

  lemma EndIsText(last: Bytes, trailers: seq<Bytes>)
    ensures Encode(Last(Chunk(last, []), trailers)) == EndText(last, trailers)
  {
    Literals();
    TrailersAreText(trailers);
  }

  lemma ChunkIsText(c: Chunk)
    ensures EncodeChunk(c) == ChunkText(c)
  {
    Literals();
  }

  lemma {:induction false} ChainedIsText(chunks: seq<Chunk>, last: Bytes, trailers: seq<Bytes>)
    ensures Encode(Chained(chunks, last, trailers)) == BodyText(chunks, last, trailers)
    ensures Data(Chained(chunks, last, trailers)) == Payload(chunks)
  {
    if chunks == [] {
      EndIsText(last, trailers);
    } else {
      var rest := chunks[1..];
      ChainedIsText(rest, last, trailers);
      ChunkIsText(chunks[0]);
      assert BodyText(chunks, last, trailers) == ChunkText(chunks[0]) + BodyText(rest, last, trailers);
    }
  }

  lemma {:induction false} ChainedIff(chunks: seq<Chunk>, last: Bytes, trailers: seq<Bytes>)
    requires |Payload(chunks)| <= 0xFFFF_FFFF_FFFF_FFFF
    ensures ValidBody(GATE, Chained(chunks, last, trailers)) <==> IsBody(chunks, last, trailers)
  {
    if chunks == [] {
      ChunkIff(Chunk(last, []));
      TrailersIff(trailers);
    } else {
      var c, rest := chunks[0], chunks[1..];
      ChunkIff(c);
      ChainedIff(rest, last, trailers);
      FirstAndRest(chunks);
      assert Chained(chunks, last, trailers) == More(c, Chained(rest, last, trailers));
    }
  }

  lemma FirstAndRest(chunks: seq<Chunk>)
    requires chunks != []
    ensures (forall c :: c in chunks ==> IsChunk(c)) <==> IsChunk(chunks[0]) && forall c :: c in chunks[1..] ==> IsChunk(c)
  {
    assert chunks[0] in chunks;
    assert forall c :: c in chunks <==> c == chunks[0] || c in chunks[1..];
  }

  lemma {:induction false} Unchained(b: Body) returns (chunks: seq<Chunk>, last: Bytes, trailers: seq<Bytes>)
    requires ValidBody(GATE, b)
    ensures Chained(chunks, last, trailers) == b
  {
    match b
    case Last(c, lines) =>
      chunks, last, trailers := [], c.line, lines;
    case More(c, rest) =>
      chunks, last, trailers := Unchained(rest);
      chunks := [c] + chunks;
  }

  /** The decoder accepts exactly the chunked bodies, and its data are what they carry. */
  lemma DecodedIffCarried(raw: Bytes, max: nat, data: Bytes)
    requires |raw| <= max <= 0xFFFF_FFFF_FFFF_FFFF
    ensures Yields(Decode(raw, max), data, |raw|) <==> Carries(raw, data)
  {
    if Yields(Decode(raw, max), data, |raw|) {
      var b := DecodedIsEncoded(raw, max);
      var chunks, last, trailers := Unchained(b);
      ChainedIsText(chunks, last, trailers);
      ChainedIff(chunks, last, trailers);
      assert raw == BodyText(chunks, last, trailers);
    }
    if chunks, last, trailers :|
      IsBody(chunks, last, trailers) && raw == BodyText(chunks, last, trailers) && data == Payload(chunks)
    {
      TextIsDecoded(raw, max, chunks, last, trailers);
    }
  }

  lemma TextIsDecoded(raw: Bytes, max: nat, chunks: seq<Chunk>, last: Bytes, trailers: seq<Bytes>)
    requires |raw| <= max <= 0xFFFF_FFFF_FFFF_FFFF
    requires IsBody(chunks, last, trailers) && raw == BodyText(chunks, last, trailers)
    ensures Yields(Decode(raw, max), Payload(chunks), |raw|)
  {
    var b := Chained(chunks, last, trailers);
    ChainedIsText(chunks, last, trailers);
    DataFits(b);
    ChainedIff(chunks, last, trailers);
    assert raw[0..|raw|] == Encode(b);
    DecodeInvertsEncode(raw, max, b);
  }

  // ----- Acceptance -----

  lemma FramedByChunksIff(m: Message, max: nat)
    requires |m.raw| <= max <= 0xFFFF_FFFF_FFFF_FFFF
    ensures FramedByChunks(HTTP, GateDecoder(max), m.start.v10, m.fields, m.raw) <==>
              !m.start.v10 && StatesChunked(m.fields) && exists data :: Carries(m.raw, data)
  {
    StatesChunkedIff(m.fields);
    var d := Decode(m.raw, max);
    assert GateDecoder(max)(m.raw) == d;
    if d.Ok? && d.value.1 == |m.raw| {
      DecodedIffCarried(m.raw, max, d.value.0);
    }
    if data :| Carries(m.raw, data) {
      DecodedIffCarried(m.raw, max, data);
    }
  }

  /** A request written as text is accepted exactly when its length fields state the number of bytes that
      follow, or when it is HTTP/1.1, its one coding is `chunked`, it states no length, and a chunked body follows. */
  lemma TextAcceptedIff(m: Message, max: nat)
    requires IsRequest(m) && |m.fields| <= 64 && |RequestText(m)| <= max <= 0xFFFF_FFFF_FFFF_FFFF
    ensures Parse(RequestText(m), max).Ok? <==>
              || StatesLength(m.fields, |m.raw|)
              || (!m.start.v10 && StatesChunked(m.fields) && exists data :: Carries(m.raw, data))
  {
    RequestIsValid(m);
    PrintedIsAcceptedIff(m, max);
    FramedByLengthIff(m.fields, m.raw);
    FramedByChunksIff(m, max);
  }

  // ----- What is delivered -----

  /** The request's target, its header lines as written and the body. */
  ghost predicate Delivers(r: Result<Parts>, m: Message, body: Bytes) {
    && r.Ok? && r.value.target == m.start.target && r.value.body == body
    && (if m.fields == [] then r.value.headers == [] else r.value.headers + Ascii("\r\n") == FieldsText(m.fields))
  }

  lemma ParsedAt(parts: Parser, head: Bytes, raw: Bytes, max: nat)
    requires |head| <= MAX_HEADER_BYTES && |head| + 4 + |raw| <= max
    requires FindBlankLine(head + (CRLF + CRLF + raw), 0) == Some(|head|)
    ensures ParseWith(parts, head + (CRLF + CRLF + raw), max) == parts(head, raw)
  {
    var req := head + (CRLF + CRLF + raw);
    assert req[..|head|] == head && req[|head| + 4..] == raw;
  }

  lemma ParsePrinted(m: Message, max: nat)
    requires ValidMessage(m) && |Print(m)| <= max
    ensures Parse(Print(m), max) == ParseParts(Head(m), m.raw, max)
  {
    HeadLinesAreClean(m);
    BlankLineAfterHead([StartLine(m.start)] + FieldLines(m.fields), m.raw);
    ParsedAt(PartsParser(max), Head(m), m.raw, max);
  }

  /** The lines the parser sees in a printed head. */
  lemma PrintedLines(m: Message)
    requires ValidMessage(m)
    ensures var lines := SplitOn(Head(m), LF);
            StripCr(lines[0]) == StartLine(m.start) && lines[1..] == Marked(FieldLines(m.fields))
    ensures StartOf(StartLine(m.start)) == Some(m.start)
  {
    HeadLinesAreClean(m);
    SplitJoined([StartLine(m.start)] + FieldLines(m.fields));
    StartLineIsClean(m.start);
    HeadLines(StartLine(m.start), FieldLines(m.fields));
    StartIsRead(m.start);
  }

  lemma HeadersDelivered(m: Message, max: nat)
    requires ValidMessage(m) && Parse(Print(m), max).Ok?
    ensures var headers := Parse(Print(m), max).value.headers;
            if m.fields == [] then headers == [] else headers + Ascii("\r\n") == FieldsText(m.fields)
  {
    HttpHeaders.PrintedHeaders(m, max);
    if m.fields != [] {
      JoinedIsText(FieldLines(m.fields));
      FieldsAreLines(m.fields);
      Literals();
    }
  }

  /** A request whose length fields state the size of its body is accepted, and the body comes back. */
  lemma LengthRoundTrip(m: Message, max: nat)
    requires IsRequest(m) && |m.fields| <= 64 && |RequestText(m)| <= max <= 0xFFFF_FFFF_FFFF_FFFF
    requires StatesLength(m.fields, |m.raw|)
    ensures Delivers(Parse(RequestText(m), max), m, m.raw)
  {
    RequestIsValid(m);
    PrintedIsAcceptedIff(m, max);
    FramedByLengthIff(m.fields, m.raw);
    HeadersDelivered(m, max);
  }

  /** A request that states `chunked` is accepted with any chunked body, and what the chunks carry comes back. */
  lemma ChunkedRoundTrip(m: Message, max: nat, data: Bytes)
    requires IsRequest(m) && |m.fields| <= 64 && |RequestText(m)| <= max <= 0xFFFF_FFFF_FFFF_FFFF
    requires !m.start.v10 && StatesChunked(m.fields) && Carries(m.raw, data)
    ensures Delivers(Parse(RequestText(m), max), m, data)
  {
    RequestIsValid(m);
    PrintedIsAcceptedIff(m, max);
    FramedByChunksIff(m, max);
    StatesChunkedIff(m.fields);
    DecodedIffCarried(m.raw, max, data);
    assert GateDecoder(max)(m.raw) == Decode(m.raw, max);
    HeadersDelivered(m, max);
  }

  /** Numbers printed by division are numerals: in a length field, and on the line of a chunk in either case. */
  lemma PrintedNumbers(n: nat)
    ensures IsDecimal(Ascii(Decimal(n)), n)
    ensures IsSizeLine(Ascii(Hexadecimal(HEX_LOWER, n)), n) && IsSizeLine(Ascii(Hexadecimal(HEX_UPPER, n)), n)
  {
    assert DecimalFrom(Ascii(Decimal(n)), 0, n);
    SameLength(n);
    HexIsSizeLine(Ascii(Hexadecimal(HEX_LOWER, n)), n);
    HexIsSizeLine(Ascii(Hexadecimal(HEX_UPPER, n)), n);
  }

  lemma HexIsSizeLine(v: Bytes, n: nat)
    requires v != [] && SpellsHex(v, n)
    ensures IsSizeLine(v, n)
  {
    assert v[0..] == v && v[..|v|] == v;
    assert HexFrom(v, 0, n);
  }

  // ----- Smuggling -----

  /** Every length field states a number that fits the machine word. */
  ghost predicate StatesNumbers(fields: seq<Field>) {
    forall f :: f in fields && IsLengthName(f.name) ==> exists n: nat :: n <= 0xFFFF_FFFF_FFFF_FFFF && IsDecimal(f.value, n)
  }

  ghost predicate TwoLengths(fields: seq<Field>) {
    exists f, g, n: nat, k: nat ::
      && f in fields && IsLengthName(f.name) && IsDecimal(f.value, n)
      && g in fields && IsLengthName(g.name) && IsDecimal(g.value, k) && n != k
  }

  ghost predicate LengthAndCoding(fields: seq<Field>) {
    (exists f :: f in fields && IsLengthName(f.name)) && exists f :: f in fields && IsCodingName(f.name)
  }

  ghost predicate BadCoding(v10: bool, fields: seq<Field>) {
    exists f :: f in fields && IsCodingName(f.name) && (v10 || !IsChunkedText(f.value))
  }

  ghost predicate TwoCodings(fields: seq<Field>) {
    exists i, j :: 0 <= i < j < |fields| && IsCodingName(fields[i].name) && IsCodingName(fields[j].name)
  }

  lemma {:induction false} ScanMarked(step: Step, lines: seq<Bytes>, fr: Framing)
    requires AllClean(lines)
    ensures Scan(step, Marked(lines), fr) == Fold(step, lines, fr)
    decreases |lines|
  {
    if |lines| == 1 {
      assert !EndsInCr(lines[0]) && lines[1..] == [];
    } else if lines != [] {
      var line := lines[0];
      assert Marked(lines)[1..] == Marked(lines[1..]);
      assert StripCr(line + [CR]) == line;
      var r := step(fr, line);
      if r.Ok? {
        ScanMarked(step, lines[1..], r.value);
      }
    }
  }

  /** A step over field lines applies the fields. */
  ghost predicate Applies(step: Step, apply: (Framing, Field) -> Result<Framing>) {
    forall fr: Framing, f: Field :: IsFieldName(f.name) && IsFieldValue(f.value) && fr.count < MAX_HEADERS ==>
      step(fr, FieldLine(f)) == apply(fr, f)
  }

  function Applying(t: Terms, v10: bool): (apply: (Framing, Field) -> Result<Framing>) {
    (fr: Framing, f: Field) => ApplyField(t, v10, fr.(count := fr.count + 1), f)
  }

  lemma StepIsApply(t: Terms, v10: bool, fr: Framing, line: Bytes, f: Field)
    requires FieldOf(line) == Some(f) && fr.count < MAX_HEADERS
    ensures StepOf(t, v10)(fr, line) == Applying(t, v10)(fr, f)
  {
  }

  lemma StepApplies(t: Terms, v10: bool)
    ensures Applies(StepOf(t, v10), Applying(t, v10))
  {
    var step, apply := StepOf(t, v10), Applying(t, v10);
    forall fr: Framing, f: Field | IsFieldName(f.name) && IsFieldValue(f.value) && fr.count < MAX_HEADERS
      ensures step(fr, FieldLine(f)) == apply(fr, f)
    {
      FieldIsRead(f);
      StepIsApply(t, v10, fr, FieldLine(f), f);
    }
  }

  lemma FoldUnfolds(step: Step, line: Bytes, lines: seq<Bytes>, fr: Framing)
    ensures var r := step(fr, line);
            Fold(step, [line] + lines, fr) == if r.Err? then r else Fold(step, lines, r.value)
  {
    assert ([line] + lines)[1..] == lines;
  }

  lemma FoldFieldsUnfolds(t: Terms, v10: bool, apply: (Framing, Field) -> Result<Framing>, fields: seq<Field>, fr: Framing)
    requires fields != [] && apply == Applying(t, v10)
    ensures var r := apply(fr, fields[0]);
            && FoldFields(t, v10, fields, fr) == (if r.Err? then r else FoldFields(t, v10, fields[1..], r.value))
            && (r.Ok? ==> r.value.count == fr.count + 1)
  {
  }

  lemma {:induction false} FoldIsExact(t: Terms, v10: bool, step: Step, apply: (Framing, Field) -> Result<Framing>,
                                       fields: seq<Field>, fr: Framing)
    requires Applies(step, apply) && apply == Applying(t, v10)
    requires ValidFields(fields) && fr.count + |fields| <= MAX_HEADERS
    ensures Fold(step, FieldLines(fields), fr) == FoldFields(t, v10, fields, fr)
    decreases |fields|
  {
    if fields != [] {
      var f, rest := fields[0], fields[1..];
      FoldUnfolds(step, FieldLine(f), FieldLines(rest), fr);
      FoldFieldsUnfolds(t, v10, apply, fields, fr);
      var r := apply(fr, f);
      if r.Ok? {
        FoldIsExact(t, v10, step, apply, rest, r.value);
      }
    }
  }

  /** With numbers in all length fields, the scan of a printed head faults for smuggling or not at all. */
  lemma {:induction false} OnlySmuggling(t: Terms, v10: bool, fields: seq<Field>, fr: Framing)
    requires forall f :: f in fields && t.isLength(f.name) ==> t.decimal(f.value).Some?
    ensures FoldFields(t, v10, fields, fr).Ok? || FoldFields(t, v10, fields, fr) == Err(HeaderSmuggling)
    decreases |fields|
  {
    if fields != [] {
      assert fields[0] in fields;
      var r := ApplyField(t, v10, fr.(count := fr.count + 1), fields[0]);
      if r.Ok? {
        OnlySmuggling(t, v10, fields[1..], r.value);
      }
    }
  }

  lemma NumberIsRead(fields: seq<Field>, f: Field, n: nat)
    requires StatesNumbers(fields) && f in fields && IsLengthName(f.name) && IsDecimal(f.value, n)
    ensures HTTP.decimal(f.value) == Some(n)
  {
    var k: nat :| k <= 0xFFFF_FFFF_FFFF_FFFF && IsDecimal(f.value, k);
    DecimalDenotes(f.value, k);
    DecimalDenotes(f.value, n);
    DecimalFieldIff(f.value, n);
  }

  lemma NumbersAreRead(fields: seq<Field>)
    requires StatesNumbers(fields)
    ensures forall f :: f in fields && HTTP.isLength(f.name) ==> HTTP.decimal(f.value).Some?
  {
    forall f | f in fields && HTTP.isLength(f.name) ensures HTTP.decimal(f.value).Some? {
      TermsRead(f);
      var n: nat :| n <= 0xFFFF_FFFF_FFFF_FFFF && IsDecimal(f.value, n);
      DecimalFieldIff(f.value, n);
    }
  }

  /** The scan of a printed head is the fold over its fields. */
  lemma PrintedScan(m: Message)
    requires ValidMessage(m) && |m.fields| <= MAX_HEADERS
    ensures Scan(StepOf(HTTP, m.start.v10), Marked(FieldLines(m.fields)), NOTHING) == FoldFields(HTTP, m.start.v10, m.fields, NOTHING)
  {
    FieldLinesAreClean(m.fields);
    ScanMarked(StepOf(HTTP, m.start.v10), FieldLines(m.fields), NOTHING);
    StepApplies(HTTP, m.start.v10);
    FoldIsExact(HTTP, m.start.v10, StepOf(HTTP, m.start.v10), Applying(HTTP, m.start.v10), m.fields, NOTHING);
  }

  lemma PartsVerdict(head: Bytes, raw: Bytes, max: nat, line: Bytes, lines: seq<Bytes>, start: Start, fr: Result<Framing>)
    requires StripCr(SplitOn(head, LF)[0]) == line && SplitOn(head, LF)[1..] == lines && StartOf(line) == Some(start)
    requires Scan(StepOf(HTTP, start.v10), lines, NOTHING) == fr
    ensures fr.Err? ==> ParseParts(head, raw, max) == Err(fr.finding)
    ensures fr.Ok? && fr.value.chunked && fr.value.length.Some? ==> ParseParts(head, raw, max) == Err(HeaderSmuggling)
  {
  }

  lemma PrintedVerdict(m: Message, max: nat)
    requires ValidMessage(m) && |Print(m)| <= max && |m.fields| <= MAX_HEADERS
    ensures var fr := FoldFields(HTTP, m.start.v10, m.fields, NOTHING);
            && (fr.Err? ==> Parse(Print(m), max) == Err(fr.finding))
            && (fr.Ok? && fr.value.chunked && fr.value.length.Some? ==> Parse(Print(m), max) == Err(HeaderSmuggling))
  {
    ParsePrinted(m, max);
    PrintedLines(m);
    PrintedScan(m);
    PartsVerdict(Head(m), m.raw, max, StartLine(m.start), Marked(FieldLines(m.fields)), m.start,
                 FoldFields(HTTP, m.start.v10, m.fields, NOTHING));
  }

  lemma LengthsDiffer(t: Terms, ls: seq<Bytes>, u: Bytes, w: Bytes)
    requires u in ls && w in ls && t.decimal(u) != t.decimal(w)
    ensures !LengthsAgree(t, ls, None)
  {
    if LengthsAgree(t, ls, None) {
      AgreeingLengths(t, ls, None, t.decimal(ls[0]).value);
    }
  }

  lemma TwoLengthsDisagree(fields: seq<Field>)
    requires TwoLengths(fields) && StatesNumbers(fields)
    ensures !LengthsAgree(HTTP, Lengths(HTTP, fields), None)
  {
    var f, g, n: nat, k: nat :|
      && f in fields && IsLengthName(f.name) && IsDecimal(f.value, n)
      && g in fields && IsLengthName(g.name) && IsDecimal(g.value, k) && n != k;
    LengthIn(fields, f.value);
    LengthIn(fields, g.value);
    NumberIsRead(fields, f, n);
    NumberIsRead(fields, g, k);
    LengthsDiffer(HTTP, Lengths(HTTP, fields), f.value, g.value);
  }

  lemma BadCodingDisagrees(v10: bool, fields: seq<Field>)
    requires BadCoding(v10, fields) || TwoCodings(fields)
    ensures !CodingsAgree(HTTP, v10, Codings(HTTP, fields), false)
  {
    if |Codings(HTTP, fields)| == 1 {
      var i := OnlyCodingFound(fields);
      OnlyCodingRead(fields, i);
      TermsRead(fields[i]);
      assert BadCoding(v10, fields);
      var f :| f in fields && IsCodingName(f.name) && (v10 || !IsChunkedText(f.value));
      assert f == fields[i];
    } else {
      NoCodingIff(fields);
    }
  }

  /** A request with two different lengths, with a length and a coding, with two codings, or with a coding that
      is not `chunked` or not in HTTP/1.1 is rejected as smuggling, whatever its body and its other fields. */
  lemma SmugglingIsRejected(m: Message, max: nat)
    requires IsRequest(m) && |m.fields| <= 64 && |RequestText(m)| <= max && StatesNumbers(m.fields)
    requires TwoLengths(m.fields) || LengthAndCoding(m.fields) || TwoCodings(m.fields) || BadCoding(m.start.v10, m.fields)
    ensures Parse(RequestText(m), max) == Err(HeaderSmuggling)
  {
    RequestIsValid(m);
    PrintedVerdict(m, max);
    NumbersAreRead(m.fields);
    OnlySmuggling(HTTP, m.start.v10, m.fields, NOTHING);
    FoldFieldsIff(HTTP, m.start.v10, m.fields, NOTHING);
    if TwoLengths(m.fields) {
      TwoLengthsDisagree(m.fields);
    } else if TwoCodings(m.fields) || BadCoding(m.start.v10, m.fields) {
      BadCodingDisagrees(m.start.v10, m.fields);
    } else {
      NoLengthIff(m.fields);
      NoCodingIff(m.fields);
    }
  }
}
