/** Byte strings as the HTTP framing gate reads them: searches, splits, numbers and escapes. */
module HttpBytes {
  import opened Values

  type Bytes = seq<byte>

  const HTAB: byte := 9
  const LF: byte := 10
  const CR: byte := 13
  const SP: byte := 32
  const PERCENT: byte := 37
  const COMMA: byte := 44
  const COLON: byte := 58
  const SEMICOLON: byte := 59
  const CRLF: Bytes := [CR, LF]
  const USIZE_MAX: nat := 0xFFFF_FFFF_FFFF_FFFF

  datatype Finding = Oversized | Malformed | HeaderSmuggling

  datatype Result<+T> = Ok(value: T) | Err(finding: Finding)

  predicate IsDigit(b: byte) { 48 <= b <= 57 }
  predicate IsUpper(b: byte) { 65 <= b <= 90 }
  predicate IsLower(b: byte) { 97 <= b <= 122 }

  /** Characters allowed in a token (section 5.6.2 of RFC 9110). */
  predicate IsTchar(b: byte) {
    || IsDigit(b) || IsUpper(b) || IsLower(b)
    || b in {33, 35, 36, 37, 38, 39, 42, 43, 45, 46, 94, 95, 96, 124, 126}
  }

  predicate IsHexDigit(b: byte) {
    IsDigit(b) || 65 <= b <= 70 || 97 <= b <= 102
  }

  function Nibble(b: byte): (n: nat)
    requires IsHexDigit(b)
    ensures n < 16
  {
    if IsDigit(b) then b - 48 else if b <= 70 then b - 55 else b - 87
  }

  function Lower(b: byte): (r: byte) {
    if IsUpper(b) then b + 32 else b
  }

  /** Equality up to ASCII case. */
  predicate EqCi(a: Bytes, b: Bytes) {
    |a| == |b| && forall i :: 0 <= i < |a| ==> Lower(a[i]) == Lower(b[i])
  }

  /** First position of `b` in `s` from `i` on. */
  function IndexOf(s: Bytes, b: byte, i: nat): (r: Option<nat>)
    requires i <= |s|
    ensures r.Some? ==> i <= r.value < |s| && s[r.value] == b
    decreases |s| - i
  {
    if i == |s| then None else if s[i] == b then Some(i) else IndexOf(s, b, i + 1)
  }

  /** The found position is the first: nothing before it matches, and nothing at all if none is found. */
  lemma {:induction false} IndexOfIsFirst(s: Bytes, b: byte, i: nat, j: nat)
    requires i <= j < |s| && s[j] == b && i <= |s|
    ensures IndexOf(s, b, i).Some? && IndexOf(s, b, i).value <= j
    decreases |s| - i
  {
    if i < j && s[i] != b {
      IndexOfIsFirst(s, b, i + 1, j);
    }
  }

  /** The pieces of `s` between occurrences of `b`; one piece when there are none. */
  function SplitOn(s: Bytes, b: byte): (r: seq<Bytes>)
    ensures |r| > 0
    decreases |s|
  {
    var i := IndexOf(s, b, 0);
    if i.None? then [s] else [s[..i.value]] + SplitOn(s[i.value + 1..], b)
  }

  predicate IsCrlf(s: Bytes, i: nat) {
    i + 2 <= |s| && s[i] == CR && s[i + 1] == LF
  }

  /** First CR LF in `s` from `i` on. */
  function FindCrlf(s: Bytes, i: nat): (r: Option<nat>)
    requires i <= |s|
    ensures r.Some? ==> i <= r.value && IsCrlf(s, r.value)
    decreases |s| - i
  {
    if i == |s| then None else if IsCrlf(s, i) then Some(i) else FindCrlf(s, i + 1)
  }

  lemma {:induction false} FindCrlfIsFirst(s: Bytes, i: nat, j: nat)
    requires i <= j && IsCrlf(s, j)
    ensures FindCrlf(s, i).Some? && FindCrlf(s, i).value <= j
    decreases |s| - i
  {
    if i < j && !IsCrlf(s, i) {
      FindCrlfIsFirst(s, i + 1, j);
    }
  }

  /** CR LF CR LF starts at `i`. */
  predicate IsBlankLine(s: Bytes, i: nat) {
    IsCrlf(s, i) && IsCrlf(s, i + 2)
  }

  /** First CR LF CR LF in `s` from `i` on. */
  function FindBlankLine(s: Bytes, i: nat): (r: Option<nat>)
    requires i <= |s|
    ensures r.Some? ==> i <= r.value && IsBlankLine(s, r.value)
    decreases |s| - i
  {
    if i == |s| then None else if IsBlankLine(s, i) then Some(i) else FindBlankLine(s, i + 1)
  }

  lemma {:induction false} FindBlankLineIsFirst(s: Bytes, i: nat, j: nat)
    requires i <= j && IsBlankLine(s, j)
    ensures FindBlankLine(s, i).Some? && FindBlankLine(s, i).value <= j
    decreases |s| - i
  {
    if i < j && !IsBlankLine(s, i) {
      FindBlankLineIsFirst(s, i + 1, j);
    }
  }

  // ----- Numbers -----

  predicate AllDigits(v: Bytes) {
    forall i :: 0 <= i < |v| ==> IsDigit(v[i])
  }

  function DecimalValue(v: Bytes): (n: nat)
    requires AllDigits(v)
  {
    if v == [] then 0 else DecimalValue(v[..|v| - 1]) * 10 + (v[|v| - 1] - 48)
  }

  predicate AllHex(v: Bytes) {
    forall i :: 0 <= i < |v| ==> IsHexDigit(v[i])
  }

  function HexValue(v: Bytes): (n: nat)
    requires AllHex(v)
  {
    if v == [] then 0 else HexValue(v[..|v| - 1]) * 16 + Nibble(v[|v| - 1])
  }

  /** The number a decimal field denotes, when it is one and fits the machine word. */
  function DecimalField(v: Bytes): (r: Option<nat>) {
    if v != [] && AllDigits(v) && DecimalValue(v) <= USIZE_MAX then Some(DecimalValue(v)) else None
  }

  /** A longer digit string denotes at least as much. */
  lemma {:induction false} DecimalGrows(v: Bytes, i: nat)
    requires AllDigits(v) && i <= |v|
    ensures DecimalValue(v[..i]) <= DecimalValue(v)
    decreases |v| - i
  {
    if i < |v| {
      assert v[..i + 1][..i] == v[..i];
      DecimalGrows(v, i + 1);
    } else {
      assert v[..i] == v;
    }
  }

  /** Digit by digit with overflow checks: succeeds exactly when the digits denote a machine word. */
  method ParseDecimal(v: Bytes) returns (r: Option<nat>)
    ensures r == DecimalField(v)
  {
    if v == [] {
      return None;
    }
    var n := 0;
    var i := 0;
    while i < |v|
      invariant i <= |v| && AllDigits(v[..i]) && n == DecimalValue(v[..i]) <= USIZE_MAX
    {
      if !IsDigit(v[i]) {
        return None;
      }
      assert v[..i + 1][..i] == v[..i];
      assert AllDigits(v[..i + 1]);
      if n * 10 > USIZE_MAX || n * 10 + (v[i] - 48) > USIZE_MAX {
        if AllDigits(v) {
          DecimalGrows(v, i + 1);
        }
        return None;
      }
      n := n * 10 + (v[i] - 48);
      i := i + 1;
    }
    assert v[..|v|] == v;
    r := Some(n);
  }

  // ----- Optional whitespace -----

  predicate IsOws(b: byte) { b == SP || b == HTAB }

  function TrimLeft(v: Bytes): (r: Bytes) {
    if v != [] && IsOws(v[0]) then TrimLeft(v[1..]) else v
  }

  function TrimRight(v: Bytes): (r: Bytes) {
    if v != [] && IsOws(v[|v| - 1]) then TrimRight(v[..|v| - 1]) else v
  }

  function Trimmed(v: Bytes): (r: Bytes) {
    TrimRight(TrimLeft(v))
  }

  method TrimOws(v: Bytes) returns (r: Bytes)
    ensures r == Trimmed(v)
  {
    r := v;
    while r != [] && IsOws(r[0])
      invariant TrimLeft(r) == TrimLeft(v)
      decreases |r|
    {
      r := r[1..];
    }
    ghost var left := r;
    while r != [] && IsOws(r[|r| - 1])
      invariant TrimRight(r) == TrimRight(left)
      decreases |r|
    {
      r := r[..|r| - 1];
    }
  }

  predicate AllOws(v: Bytes) {
    forall i :: 0 <= i < |v| ==> IsOws(v[i])
  }

  lemma {:induction false} TrimLeftMeaning(v: Bytes) returns (i: nat)
    ensures i <= |v| && TrimLeft(v) == v[i..] && AllOws(v[..i]) && (i < |v| ==> !IsOws(v[i]))
  {
    i := 0;
    while i < |v| && IsOws(v[i])
      invariant i <= |v| && AllOws(v[..i]) && TrimLeft(v) == TrimLeft(v[i..])
    {
      assert v[i..][1..] == v[i + 1..];
      i := i + 1;
    }
  }

  lemma {:induction false} TrimRightMeaning(v: Bytes) returns (j: nat)
    ensures j <= |v| && TrimRight(v) == v[..j] && AllOws(v[j..]) && (0 < j ==> !IsOws(v[j - 1]))
  {
    j := |v|;
    assert v[..j] == v;
    while 0 < j && IsOws(v[j - 1])
      invariant j <= |v| && AllOws(v[j..]) && TrimRight(v) == TrimRight(v[..j])
    {
      assert v[..j][..j - 1] == v[..j - 1];
      j := j - 1;
    }
  }

  /** Trimming takes whitespace off both ends and nothing else: the rest has none at its ends. */
  lemma TrimmedMeaning(v: Bytes) returns (i: nat, j: nat)
    ensures i <= j <= |v| && Trimmed(v) == v[i..j]
    ensures AllOws(v[..i]) && AllOws(v[j..])
    ensures i < j ==> !IsOws(v[i]) && !IsOws(v[j - 1])
  {
    i := TrimLeftMeaning(v);
    var k := TrimRightMeaning(v[i..]);
    j := i + k;
    assert v[i..][..k] == v[i..j] && v[i..][k..] == v[j..];
  }

  // ----- Percent escapes -----

  function Decoded(s: Bytes): (r: Bytes)
    decreases |s|
  {
    if s == [] then []
    else if s[0] == PERCENT && |s| > 2 && IsHexDigit(s[1]) && IsHexDigit(s[2]) then
      [Nibble(s[1]) * 16 + Nibble(s[2])] + Decoded(s[3..])
    else [s[0]] + Decoded(s[1..])
  }

  method PercentDecode(input: Bytes) returns (r: Bytes)
    ensures r == Decoded(input)
  {
    r := [];
    var index := 0;
    assert input[0..] == input;
    while index < |input|
      invariant index <= |input| && Decoded(input) == r + Decoded(input[index..])
    {
      DecodedUnfolds(input, index, r);
      if input[index] == PERCENT && index + 2 < |input| && IsHexDigit(input[index + 1]) && IsHexDigit(input[index + 2]) {
        r := r + [Nibble(input[index + 1]) * 16 + Nibble(input[index + 2])];
        index := index + 3;
      } else {
        r := r + [input[index]];
        index := index + 1;
      }
    }
  }

  lemma DecodedUnfolds(s: Bytes, i: nat, done: Bytes)
    requires i < |s|
    ensures done + Decoded(s[i..]) ==
              if s[i] == PERCENT && i + 2 < |s| && IsHexDigit(s[i + 1]) && IsHexDigit(s[i + 2])
              then done + [Nibble(s[i + 1]) * 16 + Nibble(s[i + 2])] + Decoded(s[i + 3..])
              else done + [s[i]] + Decoded(s[i + 1..])
  {
    var rest := s[i..];
    if s[i] == PERCENT && i + 2 < |s| && IsHexDigit(s[i + 1]) && IsHexDigit(s[i + 2]) {
      assert rest[3..] == s[i + 3..];
    } else {
      assert rest[1..] == s[i + 1..];
    }
  }

  /** How one byte may be written: as itself unless it is the escape, or as an escape in either case. */
  datatype Spelling = Literal | Escaped(hi: byte, lo: byte)

  ghost predicate Spells(sp: Spelling, b: byte) {
    match sp
    case Literal => b != PERCENT
    case Escaped(hi, lo) => IsHexDigit(hi) && IsHexDigit(lo) && Nibble(hi) * 16 + Nibble(lo) == b
  }

  ghost function Written(text: Bytes, spelling: seq<Spelling>): (r: Bytes)
    requires |text| == |spelling|
  {
    if text == [] then []
    else (match spelling[0] case Literal => [text[0]] case Escaped(hi, lo) => [PERCENT, hi, lo]) + Written(text[1..], spelling[1..])
  }

  /** Decoding undoes every percent-encoding of a text. */
  lemma {:induction false} UnescapeInvertsEscape(text: Bytes, spelling: seq<Spelling>)
    requires |text| == |spelling| && forall i :: 0 <= i < |text| ==> Spells(spelling[i], text[i])
    ensures Decoded(Written(text, spelling)) == text
  {
    if text != [] {
      UnescapeInvertsEscape(text[1..], spelling[1..]);
      var w := Written(text, spelling);
      assert Spells(spelling[0], text[0]);
      assert w[if spelling[0].Literal? then 1 else 3..] == Written(text[1..], spelling[1..]);
    }
  }

  // ----- Substrings -----

  /** `t` stands in `s` at position `i`. */
  ghost predicate At(s: Bytes, i: nat, t: Bytes) {
    i + |t| <= |s| && s[i..i + |t|] == t
  }

  lemma AtSplit(s: Bytes, i: nat, t: Bytes, u: Bytes)
    ensures At(s, i, t + u) <==> At(s, i, t) && At(s, i + |t|, u)
  {
    if At(s, i, t + u) {
      assert s[i..i + |t|] == s[i..i + |t + u|][..|t|];
      assert s[i + |t|..i + |t| + |u|] == s[i..i + |t + u|][|t|..];
    }
    if At(s, i, t) && At(s, i + |t|, u) {
      assert s[i..i + |t + u|] == s[i..i + |t|] + s[i + |t|..i + |t| + |u|];
    }
  }

  lemma AtByte(s: Bytes, i: nat, t: Bytes, k: nat)
    requires At(s, i, t) && k < |t|
    ensures s[i + k] == t[k]
  {
    assert s[i + k] == s[i..i + |t|][k];
  }

  /** `t` contains no complete CR LF. */
  ghost predicate NoCrlf(t: Bytes) {
    FindCrlf(t, 0).None?
  }

  lemma NoCrlfAt(t: Bytes, j: nat)
    requires NoCrlf(t)
    ensures !IsCrlf(t, j)
  {
    if IsCrlf(t, j) {
      FindCrlfIsFirst(t, 0, j);
    }
  }

  /** A line is found where it ends. */
  lemma LineEnd(s: Bytes, i: nat, line: Bytes)
    requires At(s, i, line + CRLF) && NoCrlf(line)
    ensures i <= |s| && FindCrlf(s, i) == Some(i + |line|)
    ensures s[i..i + |line|] == line
  {
    AtSplit(s, i, line, CRLF);
    var e := i + |line|;
    AtByte(s, e, CRLF, 0);
    AtByte(s, e, CRLF, 1);
    FindCrlfIsFirst(s, i, e);
    var f := FindCrlf(s, i).value;
    if f < e {
      AtByte(s, i, line, f - i);
      if f + 1 < e {
        AtByte(s, i, line, f + 1 - i);
        NoCrlfAt(line, f - i);
      }
    }
  }

  /** The line before a found CR LF. */
  lemma FoundLine(s: Bytes, i: nat)
    requires i <= |s| && FindCrlf(s, i).Some?
    ensures var line := s[i..FindCrlf(s, i).value]; NoCrlf(line) && At(s, i, line + CRLF)
  {
    var e := FindCrlf(s, i).value;
    var line := s[i..e];
    if FindCrlf(line, 0).Some? {
      FindCrlfIsFirst(s, i, i + FindCrlf(line, 0).value);
    }
    assert s[i..e + 2] == line + CRLF;
  }
}
