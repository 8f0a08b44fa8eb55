/** The header bytes that the gate hands on with an accepted request. */
module HttpHeaders {
  import opened HttpBytes
  import opened HttpChunked
  import opened HttpRequest
  import opened HttpFraming
  import opened HttpPrint
  import opened Values

  /** The header section: everything in the head behind its first line. */
  function HeaderSection(head: Bytes): (r: Bytes) {
    var i := IndexOf(head, LF, 0);
    if i.Some? then head[i.value + 1..] else []
  }

  /** The first line ends in a bare LF, and a header section follows it. */
  predicate BareFirstLine(head: Bytes) {
    var i := IndexOf(head, LF, 0);
    i.Some? && i.value + 1 < |head| && (i.value == 0 || head[i.value - 1] != CR)
  }

  /** What the parser takes for the header section: it counts two bytes for the end of the first line, whether there
      is a CR or not. */
  function Taken(head: Bytes): (r: Bytes) {
    HeadersAfter(head, StripCr(SplitOn(head, LF)[0]))
  }

  /** The bytes taken are the header section, unless the first line ends in a bare LF: then the first byte of the
      section is lost. */
  lemma TakenIff(head: Bytes)
    ensures Taken(head) == HeaderSection(head) <==> !BareFirstLine(head)
    ensures BareFirstLine(head) ==> HeaderSection(head) != [] && Taken(head) == HeaderSection(head)[1..]
  {
    var i := IndexOf(head, LF, 0);
    if i.Some? {
      var first := head[..i.value];
      assert SplitOn(head, LF)[0] == first;
      assert EndsInCr(first) <==> i.value > 0 && head[i.value - 1] == CR;
      if BareFirstLine(head) {
        assert head[i.value + 1..][1..] == head[i.value + 2..];
        assert |Taken(head)| != |HeaderSection(head)|;
      }
    }
  }

  /** The part of an accepted buffer before the blank line. */
  function HeadOf(req: Bytes): (r: Bytes) {
    var sep := FindBlankLine(req, 0);
    if sep.Some? then req[..sep.value] else []
  }

  lemma TakenWith(parts: Parser, req: Bytes, max: nat)
    requires forall head, raw :: parts(head, raw).Ok? ==> parts(head, raw).value.headers == Taken(head)
    requires ParseWith(parts, req, max).Ok?
    ensures ParseWith(parts, req, max).value.headers == Taken(HeadOf(req))
  {
  }

  lemma AcceptedTakes(req: Bytes, max: nat)
    requires Parse(req, max).Ok?
    ensures Parse(req, max).value.headers == Taken(HeadOf(req))
  {
    TakenWith(PartsParser(max), req, max);
  }

  /** The header bytes of an accepted request are exactly its header section if and only if the first line does not
      end in a bare LF before a header section; else they lack the section's first byte. */
  lemma HeadersExactIff(req: Bytes, max: nat)
    requires Parse(req, max).Ok?
    ensures Parse(req, max).value.headers == HeaderSection(HeadOf(req)) <==> !BareFirstLine(HeadOf(req))
    ensures BareFirstLine(HeadOf(req)) ==>
              HeaderSection(HeadOf(req)) == [HeaderSection(HeadOf(req))[0]] + Parse(req, max).value.headers
  {
    AcceptedTakes(req, max);
    TakenIff(HeadOf(req));
  }

  // ----- Printed requests -----

  lemma JoinedSection(start: Bytes, fields: seq<Bytes>)
    requires AllClean([start] + fields)
    ensures HeaderSection(Join([start] + fields)) == Join(fields) && !BareFirstLine(Join([start] + fields))
  {
    var lines := [start] + fields;
    assert lines[1..] == fields;
    if fields == [] {
      assert IndexOf(start, LF, 0).None?;
    } else {
      var head, n := Join(lines), |start|;
      assert head == start + (CRLF + Join(fields));
      assert head[n] == CR && head[n + 1] == LF;
      IndexOfAfter(head, LF, n + 1);
      assert head[n + 2..] == Join(fields);
    }
  }

  /** A printed request's header bytes come back as printed. */
  lemma PrintedHeaders(m: Message, max: nat)
    requires ValidMessage(m) && Parse(Print(m), max).Ok?
    ensures Parse(Print(m), max).value.headers == Join(FieldLines(m.fields))
  {
    HeadLinesAreClean(m);
    BlankLineAfterHead([StartLine(m.start)] + FieldLines(m.fields), m.raw);
    assert Print(m)[..|Head(m)|] == Head(m);
    JoinedSection(StartLine(m.start), FieldLines(m.fields));
    HeadersExactIff(Print(m), max);
  }

  // ----- A request that loses a header byte -----

  /** `GET / HTTP/1.1`, a bare LF, `A:b` and a blank line. */
  function BareExample(): (req: Bytes) {
    BareStart() + ([LF] + ([65, COLON, 98] + (CRLF + CRLF)))
  }

  function BareStart(): (line: Bytes) {
    [71, 69, 84] + ([SP] + ([47] + ([SP] + HTTP11)))
  }

  lemma BareStartIsRead()
    ensures Clean(BareStart()) && StartOf(BareStart()) == Some(Start([71, 69, 84], [47], false))
  {
    var s := Start([71, 69, 84], [47], false);
    assert BareStart() == StartLine(s);
    StartLineIsClean(s);
    StartIsRead(s);
  }

  lemma BareBlankLine(start: Bytes, line: Bytes)
    requires Clean(start) && Clean(line)
    ensures var req := start + ([LF] + (line + (CRLF + CRLF)));
            FindBlankLine(req, 0) == Some(|start| + 1 + |line|) && HeadOf(req) == start + ([LF] + line)
  {
    var req, n := start + ([LF] + (line + (CRLF + CRLF))), |start| + 1 + |line|;
    assert IsBlankLine(req, n);
    FindBlankLineIsFirst(req, 0, n);
    forall i | 0 <= i < n ensures req[i] != CR {
      if i > |start| {
        assert req[i] == line[i - |start| - 1];
      }
    }
    assert req[..n] == start + ([LF] + line);
  }

  lemma OneFieldLine(line: Bytes, f: Field)
    requires Clean(line) && FieldOf(line) == Some(f)
    ensures Stripped([line]) == Some([line]) && FieldsOf([line]) == Some([f])
  {
    assert [line][1..] == [];
    StrippedMarked([line]);
    FieldsOfCons(line, f, [], []);
    assert [line] + [] == [line] && [f] + [] == [f];
  }

  lemma BareSplit(start: Bytes, line: Bytes)
    requires Clean(start) && Clean(line)
    ensures SplitOn(start + ([LF] + line), LF) == [start] + [line]
  {
    SplitFirst(start, LF, line);
    SplitNone(line, LF);
  }

  lemma BareSection(start: Bytes, line: Bytes)
    requires Clean(start) && Clean(line)
    ensures BareFirstLine(start + ([LF] + line)) && HeaderSection(start + ([LF] + line)) == line
  {
    var head := start + ([LF] + line);
    assert head[|start|] == LF && head[|start| - 1] == start[|start| - 1];
    IndexOfAfter(head, LF, |start|);
    assert head[|start| + 1..] == line;
  }

  lemma BareHead(start: Bytes, line: Bytes, s: Start, f: Field)
    requires Clean(start) && Clean(line) && StartOf(start) == Some(s) && FieldOf(line) == Some(f)
    ensures DissectHead(start + ([LF] + line)) == Some((s, [f]))
  {
    BareSplit(start, line);
    OneFieldLine(line, f);
    assert ([start] + [line])[1..] == [line] && StripCr(start) == start;
  }

  lemma PlainField(t: Terms, f: Field)
    requires !t.isLength(f.name) && !t.isCoding(f.name)
    ensures Lengths(t, [f]) == [] && Codings(t, [f]) == []
  {
    assert [f][1..] == [];
    assert Lengths(t, []) == [] && Codings(t, []) == [];
  }

  lemma PlainFieldFrames(t: Terms, decode: Decoder, v10: bool, f: Field)
    requires !t.isLength(f.name) && !t.isCoding(f.name)
    ensures WellFramed(t, decode, v10, [f], [])
  {
    PlainField(t, f);
    assert FramedByLength(t, [f], []);
  }

  /** Every request whose one header line follows a bare LF is accepted and loses the line's first byte. */
  lemma BareLineLosesByte(start: Bytes, line: Bytes, s: Start, f: Field, max: nat)
    requires Clean(start) && Clean(line) && StartOf(start) == Some(s) && FieldOf(line) == Some(f)
    requires !HTTP.isLength(f.name) && !HTTP.isCoding(f.name) && |start| + |line| + 5 <= max
    requires |start| + 1 + |line| <= MAX_HEADER_BYTES
    ensures var req := start + ([LF] + (line + (CRLF + CRLF)));
            && Parse(req, max).Ok? && Parse(req, max).value.headers == line[1..]
            && HeaderSection(HeadOf(req)) == line
  {
    var req := start + ([LF] + (line + (CRLF + CRLF)));
    BareHead(start, line, s, f);
    BareDissected(start, line, s, f);
    PlainFieldFrames(HTTP, GateDecoder(max), s.v10, f);
    AcceptedIffWellFramed(req, max);
    BareBlankLine(start, line);
    BareSection(start, line);
    AcceptedTakes(req, max);
    TakenIff(HeadOf(req));
  }

  lemma ExampleField(line: Bytes)
    requires line == [65, COLON, 98]
    ensures Clean(line) && FieldOf(line) == Some(Field([65], [98])) && line[1..] == [COLON, 98]
  {
    IndexOfAfter(line, COLON, 1);
    assert line[..1] == [65] && line[2..] == [98];
  }

  /** The gate accepts the example, and hands on `:b` for its header section `A:b`. */
  lemma BareExampleLosesByte(max: nat)
    requires max >= 22
    ensures Parse(BareExample(), max).Ok? && Parse(BareExample(), max).value.headers == [COLON, 98]
    ensures HeaderSection(HeadOf(BareExample())) == [65, COLON, 98]
  {
    var line := [65, COLON, 98];
    BareStartIsRead();
    ExampleField(line);
    BareLineLosesByte(BareStart(), line, Start([71, 69, 84], [47], false), Field([65], [98]), max);
  }

  lemma Regroup(a: Bytes, b: Bytes, c: Bytes, d: Bytes)
    ensures a + (b + (c + d)) == (a + (b + c)) + (d + [])
  {
    assert b + (c + d) == (b + c) + d;
    assert d + [] == d;
  }

  lemma BareDissected(start: Bytes, line: Bytes, s: Start, f: Field)
    requires Clean(start) && Clean(line) && |start| + 1 + |line| <= MAX_HEADER_BYTES
    requires DissectHead(start + ([LF] + line)) == Some((s, [f]))
    ensures Dissect(start + ([LF] + (line + (CRLF + CRLF)))) == Some(Message(s, [f], []))
  {
    BareBlankLine(start, line);
    var head := start + ([LF] + line);
    Regroup(start, [LF], line, CRLF + CRLF);
    DissectAt(DissectHead, head, Message(s, [f], []));
  }
}
