/** Writing a request out, and reading it back. */
module HttpPrint {
  import opened HttpBytes
  import opened HttpChunked
  import opened HttpRequest
  import opened HttpFraming
  import opened Values

  ghost function StartLine(s: Start): (r: Bytes) {
    s.method_ + ([SP] + (s.target + ([SP] + (if s.v10 then HTTP10 else HTTP11))))
  }

  ghost function FieldLine(f: Field): (r: Bytes) {
    f.name + ([COLON] + ([SP] + f.value))
  }

  ghost function FieldLines(fields: seq<Field>): (r: seq<Bytes>)
    ensures |r| == |fields|
  {
    if fields == [] then [] else [FieldLine(fields[0])] + FieldLines(fields[1..])
  }

  /** Lines with CR LF between them. */
  ghost function Join(lines: seq<Bytes>): (r: Bytes) {
    if lines == [] then []
    else if |lines| == 1 then lines[0]
    else lines[0] + (CRLF + Join(lines[1..]))
  }

  ghost function Head(m: Message): (r: Bytes) {
    Join([StartLine(m.start)] + FieldLines(m.fields))
  }

  ghost function Print(m: Message): (r: Bytes) {
    Head(m) + (CRLF + CRLF + m.raw)
  }

  ghost predicate ValidFields(fields: seq<Field>) {
    fields != [] ==> IsFieldName(fields[0].name) && IsFieldValue(fields[0].value) && ValidFields(fields[1..])
  }

  /** Every part is what the grammar allows it to be, and the head is not too large. */
  ghost predicate ValidMessage(m: Message) {
    && IsMethod(m.start.method_) && IsTarget(m.start.target) && ValidFields(m.fields)
    && |Head(m)| <= MAX_HEADER_BYTES
  }

  // ----- Clean lines -----

  /** Not empty, and neither CR nor LF in it. */
  ghost predicate Clean(line: Bytes) {
    line != [] && forall i :: 0 <= i < |line| ==> line[i] != CR && line[i] != LF
  }

  ghost predicate AllClean(lines: seq<Bytes>) {
    lines != [] ==> Clean(lines[0]) && AllClean(lines[1..])
  }

  lemma TcharIsVisible(b: byte)
    requires IsTchar(b)
    ensures b != CR && b != LF && b != SP && b != COLON
  {
  }

  lemma FieldLineIsClean(f: Field)
    requires IsFieldName(f.name) && IsFieldValue(f.value)
    ensures Clean(FieldLine(f))
  {
    var line := FieldLine(f);
    forall i | 0 <= i < |line| ensures line[i] != CR && line[i] != LF {
      if i < |f.name| {
        TcharIsVisible(f.name[i]);
      } else if i >= |f.name| + 2 {
        assert line[i] == f.value[i - |f.name| - 2];
      }
    }
  }

  lemma {:induction false} FieldLinesAreClean(fields: seq<Field>)
    requires ValidFields(fields)
    ensures AllClean(FieldLines(fields))
  {
    if fields != [] {
      FieldLineIsClean(fields[0]);
      FieldLinesAreClean(fields[1..]);
      assert FieldLines(fields)[1..] == FieldLines(fields[1..]);
    }
  }

  lemma StartLineIsClean(s: Start)
    requires IsMethod(s.method_) && IsTarget(s.target)
    ensures Clean(StartLine(s))
  {
    var line, m, n := StartLine(s), |s.method_|, |s.target|;
    var v := if s.v10 then HTTP10 else HTTP11;
    forall i | 0 <= i < |line| ensures line[i] != CR && line[i] != LF {
      if i < m {
        TcharIsVisible(s.method_[i]);
      } else if m < i < m + 1 + n {
        assert line[i] == s.target[i - m - 1];
      } else if i > m + 1 + n {
        assert line[i] == v[i - m - n - 2];
      }
    }
  }

  // ----- Lines are found again -----

  lemma IndexOfAfter(s: Bytes, b: byte, k: nat)
    requires k < |s| && s[k] == b && forall i :: 0 <= i < k ==> s[i] != b
    ensures IndexOf(s, b, 0) == Some(k)
  {
    IndexOfIsFirst(s, b, 0, k);
  }

  lemma SplitFirst(a: Bytes, b: byte, rest: Bytes)
    requires forall i :: 0 <= i < |a| ==> a[i] != b
    ensures SplitOn(a + ([b] + rest), b) == [a] + SplitOn(rest, b)
  {
    var s := a + ([b] + rest);
    IndexOfAfter(s, b, |a|);
    assert s[..|a|] == a && s[|a| + 1..] == rest;
  }

  lemma SplitNone(a: Bytes, b: byte)
    requires forall i :: 0 <= i < |a| ==> a[i] != b
    ensures SplitOn(a, b) == [a]
  {
    assert IndexOf(a, b, 0).None?;
  }

  /** Every line but the last with the CR that the split leaves on it. */
  ghost function Marked(lines: seq<Bytes>): (r: seq<Bytes>)
    ensures |r| == |lines|
  {
    if lines == [] then [] else if |lines| == 1 then lines else [lines[0] + [CR]] + Marked(lines[1..])
  }

  lemma {:induction false} SplitJoined(lines: seq<Bytes>)
    requires lines != [] && AllClean(lines)
    ensures SplitOn(Join(lines), LF) == Marked(lines)
    decreases |lines|
  {
    if |lines| == 1 {
      SplitNone(lines[0], LF);
    } else {
      var rest := Join(lines[1..]);
      assert lines[0] + (CRLF + rest) == (lines[0] + [CR]) + ([LF] + rest);
      SplitFirst(lines[0] + [CR], LF, rest);
      SplitJoined(lines[1..]);
    }
  }

  lemma StrippedCons(line: Bytes, lines: seq<Bytes>, rest: seq<Bytes>)
    requires Clean(line) && Stripped(lines) == Some(rest)
    ensures Stripped([line + [CR]] + lines) == Some([line] + rest)
  {
    assert ([line + [CR]] + lines)[1..] == lines;
    assert StripCr(line + [CR]) == line;
  }

  lemma {:induction false} StrippedMarked(lines: seq<Bytes>)
    requires AllClean(lines)
    ensures Stripped(Marked(lines)) == Some(lines)
    decreases |lines|
  {
    if |lines| == 1 {
      assert !EndsInCr(lines[0]) && lines[1..] == [];
      assert [lines[0]] + [] == lines;
    } else if lines != [] {
      StrippedMarked(lines[1..]);
      StrippedCons(lines[0], Marked(lines[1..]), lines[1..]);
      assert [lines[0]] + lines[1..] == lines;
    }
  }

  /** No blank line starts inside joined clean lines. */
  lemma {:induction false} NoBlankInside(s: Bytes, pos: nat, lines: seq<Bytes>, i: nat)
    requires lines != [] && AllClean(lines) && At(s, pos, Join(lines)) && pos <= i < pos + |Join(lines)|
    ensures !IsBlankLine(s, i)
    decreases |lines|
  {
    var line := lines[0];
    if |lines| == 1 {
      AtByte(s, pos, line, i - pos);
    } else {
      var rest := Join(lines[1..]);
      AtSplit(s, pos, line, CRLF + rest);
      AtSplit(s, pos + |line|, CRLF, rest);
      var next := pos + |line| + 2;
      if i < pos + |line| {
        AtByte(s, pos, line, i - pos);
      } else if i < next {
        FirstIsNotCr(lines[1..]);
        AtByte(s, next, rest, 0);
        AtByte(s, pos + |line|, CRLF, i - pos - |line|);
      } else {
        NoBlankInside(s, next, lines[1..], i);
      }
    }
  }

  lemma FirstIsNotCr(lines: seq<Bytes>)
    requires lines != [] && AllClean(lines)
    ensures Join(lines) != [] && Join(lines)[0] != CR
  {
  }

  lemma BlankLineAfterHead(lines: seq<Bytes>, raw: Bytes)
    requires lines != [] && AllClean(lines)
    ensures FindBlankLine(Join(lines) + (CRLF + CRLF + raw), 0) == Some(|Join(lines)|)
  {
    var head := Join(lines);
    var s := head + (CRLF + CRLF + raw);
    assert IsBlankLine(s, |head|);
    FindBlankLineIsFirst(s, 0, |head|);
    var i := FindBlankLine(s, 0).value;
    if i < |head| {
      assert s[0..0 + |head|] == head;
      NoBlankInside(s, 0, lines, i);
    }
  }

  // ----- Parts are found again -----

  lemma FieldIsRead(f: Field)
    requires IsFieldName(f.name) && IsFieldValue(f.value)
    ensures FieldOf(FieldLine(f)) == Some(f)
  {
    var line := FieldLine(f);
    forall i | 0 <= i < |f.name| ensures line[i] != COLON {
      TcharIsVisible(f.name[i]);
    }
    IndexOfAfter(line, COLON, |f.name|);
    assert line[..|f.name|] == f.name && line[|f.name| + 1..] == [SP] + f.value;
    assert ([SP] + f.value)[1..] == f.value;
  }

  lemma FieldsOfCons(line: Bytes, f: Field, lines: seq<Bytes>, fields: seq<Field>)
    requires FieldOf(line) == Some(f) && FieldsOf(lines) == Some(fields)
    ensures FieldsOf([line] + lines) == Some([f] + fields)
  {
    assert ([line] + lines)[1..] == lines;
  }

  lemma {:induction false} FieldsAreRead(fields: seq<Field>)
    requires ValidFields(fields)
    ensures FieldsOf(FieldLines(fields)) == Some(fields)
  {
    if fields != [] {
      FieldIsRead(fields[0]);
      FieldsAreRead(fields[1..]);
      FieldsOfCons(FieldLine(fields[0]), fields[0], FieldLines(fields[1..]), fields[1..]);
      assert [fields[0]] + fields[1..] == fields;
    }
  }

  ghost predicate NoSpace(a: Bytes) {
    forall i :: 0 <= i < |a| ==> a[i] != SP
  }

  lemma SplitThree(a: Bytes, b: Bytes, c: Bytes)
    requires NoSpace(a) && NoSpace(b) && NoSpace(c)
    ensures SplitOn(a + ([SP] + (b + ([SP] + c))), SP) == [a, b, c]
  {
    SplitFirst(a, SP, b + ([SP] + c));
    SplitFirst(b, SP, c);
    SplitNone(c, SP);
  }

  lemma StartIsRead(s: Start)
    requires IsMethod(s.method_) && IsTarget(s.target)
    ensures StartOf(StartLine(s)) == Some(s)
  {
    var v := if s.v10 then HTTP10 else HTTP11;
    forall i | 0 <= i < |s.method_| ensures s.method_[i] != SP {
      TcharIsVisible(s.method_[i]);
    }
    SplitThree(s.method_, s.target, v);
    assert HTTP10[7] != HTTP11[7];
  }

  lemma HeadIsRead(m: Message)
    requires ValidMessage(m)
    ensures DissectHead(Head(m)) == Some((m.start, m.fields))
  {
    var start, fields := StartLine(m.start), FieldLines(m.fields);
    var lines := [start] + fields;
    HeadLinesAreClean(m);
    SplitJoined(lines);
    assert lines[1..] == fields;
    StrippedMarked(fields);
    HeadLines(start, fields);
    StartIsRead(m.start);
    FieldsAreRead(m.fields);
  }

  lemma HeadLinesAreClean(m: Message)
    requires ValidMessage(m)
    ensures AllClean([StartLine(m.start)] + FieldLines(m.fields))
  {
    StartLineIsClean(m.start);
    FieldLinesAreClean(m.fields);
    assert ([StartLine(m.start)] + FieldLines(m.fields))[1..] == FieldLines(m.fields);
  }

  lemma HeadLines(start: Bytes, fields: seq<Bytes>)
    requires Clean(start)
    ensures StripCr(Marked([start] + fields)[0]) == start && Marked([start] + fields)[1..] == Marked(fields)
  {
    assert ([start] + fields)[1..] == fields;
    assert StripCr(start + [CR]) == start;
    assert !EndsInCr(start);
  }

  // ----- Round trip -----

  lemma DissectAt(headOf: Bytes -> Option<(Start, seq<Field>)>, head: Bytes, m: Message)
    requires |head| <= MAX_HEADER_BYTES && headOf(head) == Some((m.start, m.fields))
    requires FindBlankLine(head + (CRLF + CRLF + m.raw), 0) == Some(|head|)
    ensures DissectWith(headOf, head + (CRLF + CRLF + m.raw)) == Some(m)
  {
    var s := head + (CRLF + CRLF + m.raw);
    assert s[..|head|] == head && s[|head| + 4..] == m.raw;
  }

  /** Reading a printed request gives the request back. */
  lemma DissectInvertsPrint(m: Message)
    requires ValidMessage(m)
    ensures Dissect(Print(m)) == Some(m)
  {
    HeadLinesAreClean(m);
    BlankLineAfterHead([StartLine(m.start)] + FieldLines(m.fields), m.raw);
    HeadIsRead(m);
    DissectAt(DissectHead, Head(m), m);
  }

  /** A printed request is accepted exactly when it fits the buffer and its fields frame the bytes after the
      blank line; its target and the body the framing denotes come back. */
  lemma PrintedIsAcceptedIff(m: Message, max: nat)
    requires ValidMessage(m)
    ensures var r := Parse(Print(m), max);
            && (r.Ok? <==> |Print(m)| <= max && WellFramed(HTTP, GateDecoder(max), m.start.v10, m.fields, m.raw))
            && (r.Ok? ==> r.value.target == m.start.target
                          && r.value.body == BodyOf(HTTP, GateDecoder(max), m.fields, m.raw))
  {
    DissectInvertsPrint(m);
    AcceptedIffWellFramed(Print(m), max);
  }

  lemma {:induction false} DataFits(b: Body)
    ensures |Data(b)| <= |Encode(b)|
  {
    if b.More? {
      DataFits(b.rest);
    }
  }

  /** A request written with its body in chunks is accepted, and the body comes back. */
  lemma ChunkedRequestRoundTrip(m: Message, b: Body, max: nat)
    requires ValidMessage(m) && |Print(m)| <= max && |m.fields| <= MAX_HEADERS
    requires m.raw == Encode(b) && ValidBody(GATE, b)
    requires !m.start.v10 && Lengths(HTTP, m.fields) == []
    requires |Codings(HTTP, m.fields)| == 1 && IsChunkedCoding(Codings(HTTP, m.fields)[0])
    ensures Parse(Print(m), max).Ok?
    ensures Parse(Print(m), max).value.target == m.start.target && Parse(Print(m), max).value.body == Data(b)
  {
    DataFits(b);
    assert m.raw[0..|m.raw|] == Encode(b);
    DecodeInvertsEncode(m.raw, max, b);
    ChunksFrame(HTTP, GateDecoder(max), m, Data(b));
    PrintedIsAcceptedIff(m, max);
  }

  lemma ChunksFrame(t: Terms, decode: Decoder, m: Message, data: Bytes)
    requires !m.start.v10 && |m.fields| <= MAX_HEADERS && Lengths(t, m.fields) == []
    requires |Codings(t, m.fields)| == 1 && t.isChunked(Codings(t, m.fields)[0])
    requires Yields(decode(m.raw), data, |m.raw|)
    ensures WellFramed(t, decode, m.start.v10, m.fields, m.raw) && BodyOf(t, decode, m.fields, m.raw) == data
  {
    assert FramedByChunks(t, decode, m.start.v10, m.fields, m.raw);
  }
}
