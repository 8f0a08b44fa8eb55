/** What the gate accepts: exactly the well-framed requests, one to a buffer. */
module HttpFraming {
  import opened HttpBytes
  import opened HttpChunked
  import opened HttpRequest
  import opened Values

  // ----- Requests as they read, before any question of framing -----

  /** A request taken apart: its start line, its header fields in order and the bytes after the blank line. */
  datatype Message = Message(start: Start, fields: seq<Field>, raw: Bytes)

  /** The non-empty header lines without their CR; none when a line before the last has no CR. */
  function Stripped(lines: seq<Bytes>): (r: Option<seq<Bytes>>) {
    if lines == [] then Some([])
    else if !EndsInCr(lines[0]) && |lines| > 1 then None
    else
      var rest := Stripped(lines[1..]);
      if rest.None? then None
      else if StripCr(lines[0]) == [] then rest
      else Some([StripCr(lines[0])] + rest.value)
  }

  function FieldsOf(lines: seq<Bytes>): (r: Option<seq<Field>>)
    ensures r.Some? ==> |r.value| == |lines|
  {
    if lines == [] then Some([])
    else
      var f, rest := FieldOf(lines[0]), FieldsOf(lines[1..]);
      if f.None? || rest.None? then None else Some([f.value] + rest.value)
  }

  function DissectHead(head: Bytes): (r: Option<(Start, seq<Field>)>) {
    var lines := SplitOn(head, LF);
    var start, rest := StartOf(StripCr(lines[0])), Stripped(lines[1..]);
    if start.None? || rest.None? then None else
    var fields := FieldsOf(rest.value);
    if fields.None? then None else Some((start.value, fields.value))
  }

  function DissectWith(headOf: Bytes -> Option<(Start, seq<Field>)>, req: Bytes): (r: Option<Message>) {
    var sep := FindBlankLine(req, 0);
    if sep.None? || sep.value > MAX_HEADER_BYTES then None else
    var h := headOf(req[..sep.value]);
    if h.None? then None else Some(Message(h.value.0, h.value.1, req[sep.value + 4..]))
  }

  /** The grammar alone: a head of bounded size up to the first blank line, and the rest. */
  function Dissect(req: Bytes): (r: Option<Message>) {
    DissectWith(DissectHead, req)
  }

  // ----- Well-framed requests -----

  /** The values of the Content-Length fields, in order. */
  ghost function Lengths(t: Terms, fields: seq<Field>): (r: seq<Bytes>) {
    if fields == [] then []
    else (if t.isLength(fields[0].name) then [fields[0].value] else []) + Lengths(t, fields[1..])
  }

  /** The values of the Transfer-Encoding fields, in order. */
  ghost function Codings(t: Terms, fields: seq<Field>): (r: seq<Bytes>) {
    if fields == [] then []
    else (if !t.isLength(fields[0].name) && t.isCoding(fields[0].name) then [fields[0].value] else [])
         + Codings(t, fields[1..])
  }

  /** No coding, and every Content-Length field states the number of bytes that follow: none, without one. */
  ghost predicate FramedByLength(t: Terms, fields: seq<Field>, raw: Bytes) {
    && Codings(t, fields) == []
    && (forall i :: 0 <= i < |Lengths(t, fields)| ==> t.decimal(Lengths(t, fields)[i]) == Some(|raw|))
    && (Lengths(t, fields) == [] ==> raw == [])
  }

  /** One Transfer-Encoding field naming `chunked` once, no Content-Length, not HTTP/1.0, and the rest of the
      buffer is one complete chunked body. */
  ghost predicate FramedByChunks(t: Terms, decode: Decoder, v10: bool, fields: seq<Field>, raw: Bytes) {
    && !v10 && Lengths(t, fields) == []
    && |Codings(t, fields)| == 1 && t.isChunked(Codings(t, fields)[0])
    && decode(raw).Ok? && decode(raw).value.1 == |raw|
  }

  ghost predicate WellFramed(t: Terms, decode: Decoder, v10: bool, fields: seq<Field>, raw: Bytes) {
    |fields| <= MAX_HEADERS && (FramedByLength(t, fields, raw) || FramedByChunks(t, decode, v10, fields, raw))
  }

  /** The body a well-framed request carries. */
  ghost function BodyOf(t: Terms, decode: Decoder, fields: seq<Field>, raw: Bytes): (r: Bytes)
    requires Codings(t, fields) != [] ==> decode(raw).Ok?
  {
    if Codings(t, fields) == [] then raw else decode(raw).value.0
  }

  // ----- The scan as a fold over the fields -----

  function Fold(step: Step, lines: seq<Bytes>, fr: Framing): (r: Result<Framing>) {
    if lines == [] then Ok(fr)
    else
      var r := step(fr, lines[0]);
      if r.Err? then r else Fold(step, lines[1..], r.value)
  }

  lemma {:induction false} ScanIsFold(step: Step, lines: seq<Bytes>, fr: Framing)
    ensures Scan(step, lines, fr).Ok? <==> Stripped(lines).Some? && Fold(step, Stripped(lines).value, fr).Ok?
    ensures Scan(step, lines, fr).Ok? ==> Scan(step, lines, fr) == Fold(step, Stripped(lines).value, fr)
  {
    if lines != [] && (EndsInCr(lines[0]) || |lines| == 1) {
      var line := StripCr(lines[0]);
      if line == [] {
        ScanIsFold(step, lines[1..], fr);
      } else {
        var r := step(fr, line);
        if r.Ok? {
          ScanIsFold(step, lines[1..], r.value);
        }
        if Stripped(lines[1..]).Some? {
          var rest := Stripped(lines[1..]).value;
          assert ([line] + rest)[1..] == rest;
        }
      }
    }
  }

  function FoldFields(t: Terms, v10: bool, fields: seq<Field>, fr: Framing): (r: Result<Framing>) {
    if fields == [] then Ok(fr)
    else
      var r := ApplyField(t, v10, fr.(count := fr.count + 1), fields[0]);
      if r.Err? then r else FoldFields(t, v10, fields[1..], r.value)
  }

  /** Folding lines is folding their fields, as long as there are not too many. */
  lemma {:induction false} FoldIsFoldFields(t: Terms, v10: bool, lines: seq<Bytes>, fr: Framing)
    requires fr.count <= MAX_HEADERS
    ensures Fold(StepOf(t, v10), lines, fr).Ok? <==>
              && FieldsOf(lines).Some? && fr.count + |lines| <= MAX_HEADERS
              && FoldFields(t, v10, FieldsOf(lines).value, fr).Ok?
    ensures Fold(StepOf(t, v10), lines, fr).Ok? ==>
              Fold(StepOf(t, v10), lines, fr) == FoldFields(t, v10, FieldsOf(lines).value, fr)
    decreases |lines|
  {
    if lines != [] {
      var f := FieldOf(lines[0]);
      if f.Some? && fr.count < MAX_HEADERS {
        var r := ApplyField(t, v10, fr.(count := fr.count + 1), f.value);
        assert StepOf(t, v10)(fr, lines[0]) == r;
        if r.Ok? {
          FoldIsFoldFields(t, v10, lines[1..], r.value);
        }
        if FieldsOf(lines[1..]).Some? {
          var rest := FieldsOf(lines[1..]).value;
          assert ([f.value] + rest)[1..] == rest;
        }
      }
    }
  }

  /** Lengths that are numbers and agree with each other and with `prev`. */
  ghost predicate LengthsAgree(t: Terms, values: seq<Bytes>, prev: Option<nat>) {
    values == [] ||
    (t.decimal(values[0]).Some? && (prev.None? || prev == t.decimal(values[0])) && LengthsAgree(t, values[1..], t.decimal(values[0])))
  }

  ghost predicate CodingsAgree(t: Terms, v10: bool, values: seq<Bytes>, seen: bool) {
    values == [] || (!v10 && !seen && |values| == 1 && t.isChunked(values[0]))
  }

  /** The fold in terms of the length values and the coding values alone. */
  lemma {:induction false} FoldFieldsIff(t: Terms, v10: bool, fields: seq<Field>, fr: Framing)
    ensures FoldFields(t, v10, fields, fr).Ok? <==>
              LengthsAgree(t, Lengths(t, fields), fr.length) && CodingsAgree(t, v10, Codings(t, fields), fr.chunked)
    ensures FoldFields(t, v10, fields, fr).Ok? ==>
              var out := FoldFields(t, v10, fields, fr).value;
              && out.length == (if Lengths(t, fields) == [] then fr.length else t.decimal(Lengths(t, fields)[0]))
              && out.chunked == (fr.chunked || Codings(t, fields) != [])
    decreases |fields|
  {
    if fields != [] {
      var f, rest := fields[0], fields[1..];
      var next := fr.(count := fr.count + 1);
      if t.isLength(f.name) {
        assert Lengths(t, fields) == [f.value] + Lengths(t, rest) && Codings(t, fields) == Codings(t, rest);
        assert ([f.value] + Lengths(t, rest))[1..] == Lengths(t, rest);
        FoldFieldsIff(t, v10, rest, next.(length := t.decimal(f.value)));
      } else if t.isCoding(f.name) {
        assert Lengths(t, fields) == Lengths(t, rest) && Codings(t, fields) == [f.value] + Codings(t, rest);
        FoldFieldsIff(t, v10, rest, next.(chunked := true));
      } else {
        assert Lengths(t, fields) == Lengths(t, rest) && Codings(t, fields) == Codings(t, rest);
        FoldFieldsIff(t, v10, rest, next);
      }
    }
  }

  /** Agreeing lengths all state the same number. */
  lemma {:induction false} AgreeingLengths(t: Terms, values: seq<Bytes>, prev: Option<nat>, n: nat)
    requires prev.None? || prev == Some(n)
    requires values != [] ==> t.decimal(values[0]) == Some(n)
    ensures LengthsAgree(t, values, prev) <==> forall i :: 0 <= i < |values| ==> t.decimal(values[i]) == Some(n)
    decreases |values|
  {
    if values != [] {
      var rest := values[1..];
      if rest != [] {
        if t.decimal(rest[0]) == Some(n) {
          AgreeingLengths(t, rest, Some(n), n);
          assert forall i :: 0 <= i < |rest| ==> rest[i] == values[i + 1];
        } else {
          assert t.decimal(values[1]) != Some(n);
        }
      }
    }
  }

  // ----- Acceptance -----

  ghost const NOTHING: Framing := Framing(None, false, 0)

  lemma ScanIff(t: Terms, v10: bool, lines: seq<Bytes>)
    ensures var r := Scan(StepOf(t, v10), lines, NOTHING);
            r.Ok? <==>
              && Stripped(lines).Some? && FieldsOf(Stripped(lines).value).Some?
              && var fields := FieldsOf(Stripped(lines).value).value;
                 |fields| <= MAX_HEADERS && FoldFields(t, v10, fields, NOTHING).Ok?
    ensures var r := Scan(StepOf(t, v10), lines, NOTHING);
            r.Ok? ==> r == FoldFields(t, v10, FieldsOf(Stripped(lines).value).value, NOTHING)
  {
    ScanIsFold(StepOf(t, v10), lines, NOTHING);
    if Stripped(lines).Some? {
      FoldIsFoldFields(t, v10, Stripped(lines).value, NOTHING);
    }
  }

  /** The body is delimited exactly when the fields frame it. */
  lemma FramingIff(t: Terms, decode: Decoder, v10: bool, fields: seq<Field>, raw: Bytes, max: nat)
    requires |raw| <= max && |fields| <= MAX_HEADERS
    ensures var fr := FoldFields(t, v10, fields, NOTHING);
            fr.Ok? && BodyFrom(decode, fr.value, raw, max).Ok? <==> WellFramed(t, decode, v10, fields, raw)
    ensures var fr := FoldFields(t, v10, fields, NOTHING);
            WellFramed(t, decode, v10, fields, raw) ==>
              BodyFrom(decode, fr.value, raw, max) == Ok(BodyOf(t, decode, fields, raw))
  {
    FoldFieldsIff(t, v10, fields, NOTHING);
    var ls := Lengths(t, fields);
    if ls != [] && t.decimal(ls[0]) == Some(|raw|) {
      AgreeingLengths(t, ls, None, |raw|);
    }
  }

  ghost predicate Agree(r: Result<Parts>, d: Option<(Start, seq<Field>)>, t: Terms, decode: Decoder, raw: Bytes) {
    && (r.Ok? <==> d.Some? && WellFramed(t, decode, d.value.0.v10, d.value.1, raw))
    && (r.Ok? ==> r.value.target == d.value.0.target && r.value.body == BodyOf(t, decode, d.value.1, raw))
  }

  lemma PartsIff(head: Bytes, raw: Bytes, max: nat)
    requires |raw| <= max
    ensures Agree(ParseParts(head, raw, max), DissectHead(head), HTTP, GateDecoder(max), raw)
  {
    PartsIffBy(HTTP, GateDecoder(max), head, raw, max);
  }

  /** Acceptance in the two halves the parser works in, whatever the vocabulary and the chunk decoder. */
  lemma PartsIffBy(t: Terms, decode: Decoder, head: Bytes, raw: Bytes, max: nat)
    requires |raw| <= max
    ensures var lines := SplitOn(head, LF);
            var start, d := StartOf(StripCr(lines[0])), DissectHead(head);
            start.Some? ==>
              var fr := Scan(StepOf(t, start.value.v10), lines[1..], NOTHING);
              && (fr.Ok? && BodyFrom(decode, fr.value, raw, max).Ok? <==>
                    d.Some? && WellFramed(t, decode, start.value.v10, d.value.1, raw))
              && (fr.Ok? && BodyFrom(decode, fr.value, raw, max).Ok? ==>
                    BodyFrom(decode, fr.value, raw, max).value == BodyOf(t, decode, d.value.1, raw))
  {
    var lines := SplitOn(head, LF);
    var start, rest := StartOf(StripCr(lines[0])), Stripped(lines[1..]);
    if start.Some? {
      ScanIff(t, start.value.v10, lines[1..]);
      if rest.Some? && FieldsOf(rest.value).Some? {
        var fields := FieldsOf(rest.value).value;
        if |fields| <= MAX_HEADERS {
          FramingIff(t, decode, start.value.v10, fields, raw, max);
        }
      }
    }
  }

  lemma AcceptedWith(parts: Parser, headOf: Bytes -> Option<(Start, seq<Field>)>,
                     t: Terms, decode: Decoder, req: Bytes, max: nat)
    requires forall head, raw :: |raw| <= max ==> Agree(parts(head, raw), headOf(head), t, decode, raw)
    ensures var d, r := DissectWith(headOf, req), ParseWith(parts, req, max);
            && (r.Ok? <==> |req| <= max && d.Some?
                           && WellFramed(t, decode, d.value.start.v10, d.value.fields, d.value.raw))
            && (r.Ok? ==> r.value.target == d.value.start.target
                          && r.value.body == BodyOf(t, decode, d.value.fields, d.value.raw))
  {
  }

  /** The gate accepts a buffer exactly when it is no longer than allowed, reads as a request, and the request
      is well framed; it then delivers the request's target and the body that the framing denotes. */
  lemma AcceptedIffWellFramed(req: Bytes, max: nat)
    ensures var d, r := Dissect(req), Parse(req, max);
            && (r.Ok? <==> |req| <= max && d.Some?
                           && WellFramed(HTTP, GateDecoder(max), d.value.start.v10, d.value.fields, d.value.raw))
            && (r.Ok? ==> r.value.target == d.value.start.target
                          && r.value.body == BodyOf(HTTP, GateDecoder(max), d.value.fields, d.value.raw))
  {
    var parts := PartsParser(max);
    forall head: Bytes, raw: Bytes | |raw| <= max
      ensures Agree(parts(head, raw), DissectHead(head), HTTP, GateDecoder(max), raw)
    {
      PartsIff(head, raw, max);
    }
    AcceptedWith(parts, DissectHead, HTTP, GateDecoder(max), req, max);
  }

  // ----- One request per buffer -----

  lemma BlankLineStays(x: Bytes, y: Bytes)
    requires FindBlankLine(x, 0).Some?
    ensures FindBlankLine(x + y, 0) == FindBlankLine(x, 0)
  {
    var i := FindBlankLine(x, 0).value;
    assert IsBlankLine(x + y, i);
    FindBlankLineIsFirst(x + y, 0, i);
    var j := FindBlankLine(x + y, 0).value;
    assert IsBlankLine(x, j);
    FindBlankLineIsFirst(x, 0, j);
  }

  lemma DissectExtends(x: Bytes, y: Bytes)
    requires Dissect(x).Some?
    ensures Dissect(x + y) == Some(Dissect(x).value.(raw := Dissect(x).value.raw + y))
  {
    BlankLineStays(x, y);
    var sep := FindBlankLine(x, 0).value;
    assert (x + y)[..sep] == x[..sep];
    assert (x + y)[sep + 4..] == x[sep + 4..] + y;
  }

  /** No extension of a well-framed rest of the buffer is well framed by the same fields. */
  lemma FramingIsExact(t: Terms, max: nat, v10: bool, fields: seq<Field>, raw: Bytes, more: Bytes)
    requires WellFramed(t, GateDecoder(max), v10, fields, raw) && more != []
    ensures !WellFramed(t, GateDecoder(max), v10, fields, raw + more)
  {
    if FramedByChunks(t, GateDecoder(max), v10, fields, raw) {
      assert GateDecoder(max)(raw) == Decode(raw, max);
      DecodeIsLocal(raw, raw + more, max);
      assert raw[..|raw|] == raw;
      assert GateDecoder(max)(raw + more) == Decode(raw + more, max);
    } else if Lengths(t, fields) != [] {
      assert t.decimal(Lengths(t, fields)[0]) == Some(|raw|);
    }
  }

  /** An accepted buffer followed by anything at all is not accepted: a verdict never covers a second request. */
  lemma OneRequestPerBuffer(req: Bytes, more: Bytes, max: nat)
    requires Parse(req, max).Ok? && more != []
    ensures Parse(req + more, max).Err?
  {
    AcceptedIffWellFramed(req, max);
    AcceptedIffWellFramed(req + more, max);
    DissectExtends(req, more);
    var m := Dissect(req).value;
    FramingIsExact(HTTP, max, m.start.v10, m.fields, m.raw, more);
  }

  /** The accepted language is prefix-free. */
  lemma AcceptedIsPrefixFree(x: Bytes, y: Bytes, max: nat)
    requires Parse(x, max).Ok? && Parse(y, max).Ok? && x <= y
    ensures x == y
  {
    if x != y {
      assert y == x + y[|x|..];
      OneRequestPerBuffer(x, y[|x|..], max);
    }
  }
}
