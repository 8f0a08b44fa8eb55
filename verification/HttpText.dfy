/** HTTP text as the standards spell it: names letter by letter, numbers digit by digit. Nothing here uses the
    constants or the number readers of the gate; the lemmas show that the gate reads exactly this text. */
module HttpText {
  import opened HttpBytes
  import opened HttpChunked
  import opened HttpRequest
  import opened Values

  /** The byte of an ASCII character. */
  function Byte(c: char): (b: byte) {
    if c as int < 128 then c as int else '?' as int
  }

  function Ascii(s: string): (r: Bytes)
    ensures |r| == |s|
  {
    seq(|s|, i requires 0 <= i < |s| => Byte(s[i]))
  }

  /** `v` is `lower`, with any of its letters as in `upper`. */
  ghost predicate Spelled(v: Bytes, lower: string, upper: string) {
    |v| == |lower| == |upper| && forall i :: 0 <= i < |v| ==> v[i] == Byte(lower[i]) || v[i] == Byte(upper[i])
  }

  ghost predicate IsLengthName(name: Bytes) {
    Spelled(name, "content-length", "CONTENT-LENGTH")
  }

  ghost predicate IsCodingName(name: Bytes) {
    Spelled(name, "transfer-encoding", "TRANSFER-ENCODING")
  }

  ghost predicate IsChunkedName(value: Bytes) {
    Spelled(value, "chunked", "CHUNKED")
  }

  // ----- Names -----

  /** `c` is a letter in lower case with its two spellings, or no letter and spelled in one way. */
  ghost predicate TwoCases(c: byte, lower: char, upper: char) {
    && c == Byte(lower)
    && (if IsLower(c) then Byte(upper) + 32 == c else !IsUpper(c) && Byte(upper) == c)
  }

  lemma CasesMatch(b: byte, c: byte, lower: char, upper: char)
    requires TwoCases(c, lower, upper)
    ensures Lower(b) == Lower(c) <==> b == Byte(lower) || b == Byte(upper)
  {
  }

  lemma MatchIff(v: Bytes, name: Bytes, lower: string, upper: string)
    requires |name| == |lower| == |upper|
    requires forall i :: 0 <= i < |name| ==> TwoCases(name[i], lower[i], upper[i])
    ensures EqCi(v, name) <==> Spelled(v, lower, upper)
  {
    if |v| == |name| {
      forall i | 0 <= i < |v|
        ensures Lower(v[i]) == Lower(name[i]) <==> v[i] == Byte(lower[i]) || v[i] == Byte(upper[i])
      {
        CasesMatch(v[i], name[i], lower[i], upper[i]);
      }
    }
  }

  lemma LengthNameIff(v: Bytes)
    ensures EqCi(v, CONTENT_LENGTH) <==> IsLengthName(v)
  {
    MatchIff(v, CONTENT_LENGTH, "content-length", "CONTENT-LENGTH");
  }

  lemma CodingNameIff(v: Bytes)
    ensures EqCi(v, TRANSFER_ENCODING) <==> IsCodingName(v)
  {
    MatchIff(v, TRANSFER_ENCODING, "transfer-encoding", "TRANSFER-ENCODING");
  }

  lemma ChunkedNameIff(v: Bytes)
    ensures EqCi(v, CHUNKED) <==> IsChunkedName(v)
  {
    MatchIff(v, CHUNKED, "chunked", "CHUNKED");
  }

  // ----- Numbers -----

  const DECIMAL := "0123456789"
  const HEX_LOWER := "0123456789abcdef"
  const HEX_UPPER := "0123456789ABCDEF"

  /** `n` in decimal, by division. */
  function Decimal(n: nat): (s: string)
    ensures s != []
  {
    if n < 10 then [DECIMAL[n]] else Decimal(n / 10) + [DECIMAL[n % 10]]
  }

  /** `n` in hexadecimal with the given digits, by division. */
  function Hexadecimal(digits: string, n: nat): (s: string)
    requires |digits| == 16
    ensures s != []
  {
    if n < 16 then [digits[n]] else Hexadecimal(digits, n / 16) + [digits[n % 16]]
  }

  ghost predicate AllZero(v: Bytes) {
    forall i :: 0 <= i < |v| ==> v[i] == Byte('0')
  }

  /** `v` after its first `k` bytes is `n` in decimal, and those are zeros. */
  ghost predicate DecimalFrom(v: Bytes, k: nat, n: nat) {
    k < |v| && AllZero(v[..k]) && v[k..] == Ascii(Decimal(n))
  }

  /** A decimal numeral of `n`, with any leading zeros. */
  ghost predicate IsDecimal(v: Bytes, n: nat) {
    exists k: nat :: DecimalFrom(v, k, n)
  }

  /** `t` is `n` in hexadecimal, each digit in either case. */
  ghost predicate SpellsHex(t: Bytes, n: nat) {
    Spelled(t, Hexadecimal(HEX_LOWER, n), Hexadecimal(HEX_UPPER, n))
  }

  /** `v` after its first `k` bytes is `n` in hexadecimal, and those are zeros. */
  ghost predicate HexFrom(v: Bytes, k: nat, n: nat) {
    k < |v| && AllZero(v[..k]) && SpellsHex(v[k..], n)
  }

  /** A hexadecimal numeral of `n`, with any leading zeros and each digit in either case. */
  ghost predicate IsHexadecimal(v: Bytes, n: nat) {
    exists k: nat :: HexFrom(v, k, n)
  }

  lemma DecimalDigit(b: byte, d: nat)
    requires d < 10
    ensures b == Byte(DECIMAL[d]) <==> IsDigit(b) && b - 48 == d
  {
  }

  lemma HexDigit(b: byte, d: nat)
    requires d < 16
    ensures b == Byte(HEX_LOWER[d]) || b == Byte(HEX_UPPER[d]) <==> IsHexDigit(b) && Nibble(b) == d
  {
  }

  lemma DecimalGrowsBy(v: Bytes, b: byte, n: nat)
    requires AllDigits(v) && IsDigit(b) && DecimalValue(v) == n
    ensures AllDigits(v + [b]) && DecimalValue(v + [b]) == n * 10 + (b - 48)
  {
    var w := v + [b];
    forall i | 0 <= i < |w| ensures IsDigit(w[i]) {
      if i < |v| {
        assert w[i] == v[i];
      }
    }
    assert w[..|w| - 1] == v;
  }

  lemma HexGrowsBy(v: Bytes, b: byte, n: nat)
    requires AllHex(v) && IsHexDigit(b) && HexValue(v) == n
    ensures AllHex(v + [b]) && HexValue(v + [b]) == n * 16 + Nibble(b)
  {
    var w := v + [b];
    forall i | 0 <= i < |w| ensures IsHexDigit(w[i]) {
      if i < |v| {
        assert w[i] == v[i];
      }
    }
    assert w[..|w| - 1] == v;
  }

  /** Zeros denote zero. */
  lemma {:induction false} ZerosDenoteZero(v: Bytes)
    requires AllZero(v)
    ensures AllDigits(v) && DecimalValue(v) == 0 && AllHex(v) && HexValue(v) == 0
  {
    if v != [] {
      ZerosDenoteZero(v[..|v| - 1]);
    }
  }

  lemma AsciiAppend(s: string, c: char)
    ensures Ascii(s + [c]) == Ascii(s) + [Byte(c)]
  {
  }

  /** A printed number is read back, whatever zeros come before it. */
  lemma {:induction false} DecimalIsRead(zeros: Bytes, n: nat)
    requires AllZero(zeros)
    ensures var v := zeros + Ascii(Decimal(n)); v != [] && AllDigits(v) && DecimalValue(v) == n
    decreases n
  {
    var b := Byte(DECIMAL[n % 10]);
    DecimalDigit(b, n % 10);
    if n < 10 {
      ZerosDenoteZero(zeros);
      assert Ascii(Decimal(n)) == [b];
      DecimalGrowsBy(zeros, b, 0);
    } else {
      DecimalIsRead(zeros, n / 10);
      AsciiAppend(Decimal(n / 10), DECIMAL[n % 10]);
      var v := zeros + Ascii(Decimal(n / 10));
      assert zeros + Ascii(Decimal(n)) == v + [b];
      DecimalGrowsBy(v, b, n / 10);
    }
  }

  /** One more digit after zeros alone. */
  lemma AfterZeros(u: Bytes, k: nat, b: byte)
    requires |u| == k + 1 && AllZero(u[..k]) && u[k] == Byte('0')
    ensures var v := u + [b]; AllZero(v[..k + 1]) && v[k + 1..] == [b]
  {
    forall i | 0 <= i < k ensures u[i] == Byte('0') {
      assert u[..k][i] == u[i];
    }
  }

  lemma OneDigit(d: nat)
    requires d < 10
    ensures Ascii(Decimal(d)) == [Byte(DECIMAL[d])]
  {
  }

  lemma MoreDigits(n: nat, m: nat, d: nat)
    requires n > 0 && d < 10 && m == n * 10 + d
    ensures Ascii(Decimal(m)) == Ascii(Decimal(n)) + [Byte(DECIMAL[d])]
  {
    assert m / 10 == n && m % 10 == d;
    AsciiAppend(Decimal(n), DECIMAL[d]);
  }

  lemma DecimalStep(u: Bytes, b: byte, k: nat, n: nat, m: nat) returns (j: nat)
    requires DecimalFrom(u, k, n) && IsDigit(b) && m == n * 10 + (b - 48)
    ensures DecimalFrom(u + [b], j, m)
  {
    DecimalDigit(b, b - 48);
    var v := u + [b];
    if n == 0 {
      OneDigit(0);
      OneDigit(m);
      assert u[k..][0] == u[k];
      AfterZeros(u, k, b);
      j := k + 1;
    } else {
      MoreDigits(n, m, b - 48);
      assert v[k..] == u[k..] + [b] && v[..k] == u[..k];
      j := k;
    }
  }

  /** A digit string is the printed number it denotes, after zeros. */
  lemma {:induction false} DecimalIsWritten(v: Bytes, n: nat) returns (k: nat)
    requires v != [] && AllDigits(v) && DecimalValue(v) == n
    ensures DecimalFrom(v, k, n)
    decreases |v|
  {
    var u, b := v[..|v| - 1], v[|v| - 1];
    if u == [] {
      k := 0;
      DecimalDigit(b, n);
      OneDigit(n);
      assert v[0..] == [b];
    } else {
      k := DecimalIsWritten(u, DecimalValue(u));
      k := DecimalStep(u, b, k, DecimalValue(u), n);
      assert u + [b] == v;
    }
  }

  lemma DecimalDenotes(v: Bytes, n: nat)
    requires IsDecimal(v, n)
    ensures v != [] && AllDigits(v) && DecimalValue(v) == n
  {
    var k: nat :| DecimalFrom(v, k, n);
    DecimalIsRead(v[..k], n);
    assert v == v[..k] + v[k..];
  }

  /** The length fields that state `n` are exactly the decimal numerals of `n` that fit the machine word. */
  lemma DecimalFieldIff(v: Bytes, n: nat)
    ensures DecimalField(v) == Some(n) <==> IsDecimal(v, n) && n <= 0xFFFF_FFFF_FFFF_FFFF
  {
    if IsDecimal(v, n) {
      DecimalDenotes(v, n);
    } else if v != [] && AllDigits(v) {
      var k := DecimalIsWritten(v, DecimalValue(v));
    }
  }

  lemma SpelledLast(v: Bytes, b: byte, lower: string, upper: string, l: char, u: char)
    requires |lower| == |upper|
    ensures Spelled(v + [b], lower + [l], upper + [u]) <==> Spelled(v, lower, upper) && (b == Byte(l) || b == Byte(u))
  {
    var w := v + [b];
    if Spelled(w, lower + [l], upper + [u]) {
      assert w[|v|] == b;
      forall i | 0 <= i < |v| ensures v[i] == Byte(lower[i]) || v[i] == Byte(upper[i]) {
        assert w[i] == v[i];
      }
    }
  }

  lemma SpelledOne(b: byte, l: char, u: char)
    ensures Spelled([b], [l], [u]) <==> b == Byte(l) || b == Byte(u)
  {
    assert [b][0] == b;
  }

  lemma HexOne(b: byte, n: nat)
    requires n < 16
    ensures SpellsHex([b], n) <==> IsHexDigit(b) && Nibble(b) == n
  {
    SpelledOne(b, HEX_LOWER[n], HEX_UPPER[n]);
    HexDigit(b, n);
  }

  lemma HexMore(v: Bytes, b: byte, n: nat)
    requires n >= 16
    ensures SpellsHex(v + [b], n) <==> SpellsHex(v, n / 16) && IsHexDigit(b) && Nibble(b) == n % 16
  {
    var d := n % 16;
    SameLength(n / 16);
    SpelledLast(v, b, Hexadecimal(HEX_LOWER, n / 16), Hexadecimal(HEX_UPPER, n / 16), HEX_LOWER[d], HEX_UPPER[d]);
    HexDigit(b, d);
  }

  lemma {:induction false} SameLength(n: nat)
    ensures |Hexadecimal(HEX_LOWER, n)| == |Hexadecimal(HEX_UPPER, n)|
  {
    if n >= 16 {
      SameLength(n / 16);
    }
  }

  lemma {:induction false} HexIsRead(zeros: Bytes, t: Bytes, n: nat)
    requires AllZero(zeros) && SpellsHex(t, n)
    ensures var v := zeros + t; v != [] && AllHex(v) && HexValue(v) == n
    decreases n
  {
    var u, b := t[..|t| - 1], t[|t| - 1];
    assert t == u + [b];
    if n < 16 {
      assert t == [b];
      HexOne(b, n);
      HexAfterZeros(zeros, b);
    } else {
      HexMore(u, b, n);
      HexIsRead(zeros, u, n / 16);
      HexGrowsBy(zeros + u, b, n / 16);
      assert zeros + t == zeros + u + [b];
    }
  }

  lemma HexAfterZeros(zeros: Bytes, b: byte)
    requires AllZero(zeros) && IsHexDigit(b)
    ensures AllHex(zeros + [b]) && HexValue(zeros + [b]) == Nibble(b)
  {
    ZerosDenoteZero(zeros);
    HexGrowsBy(zeros, b, 0);
  }

  lemma HexStep(u: Bytes, b: byte, k: nat, n: nat, m: nat) returns (j: nat)
    requires HexFrom(u, k, n) && IsHexDigit(b) && m == n * 16 + Nibble(b)
    ensures HexFrom(u + [b], j, m)
  {
    if n == 0 {
      ZeroDigit(u[k..]);
      assert u[k..][0] == u[k];
      AfterZeros(u, k, b);
      HexOne(b, m);
      j := k + 1;
    } else {
      HexShift(u, b, k, n, m);
      j := k;
    }
  }

  lemma HexShift(u: Bytes, b: byte, k: nat, n: nat, m: nat)
    requires HexFrom(u, k, n) && n > 0 && IsHexDigit(b) && m == n * 16 + Nibble(b)
    ensures HexFrom(u + [b], k, m)
  {
    assert m / 16 == n && m % 16 == Nibble(b);
    HexMore(u[k..], b, m);
    var v := u + [b];
    assert v[k..] == u[k..] + [b] && v[..k] == u[..k];
  }

  lemma {:induction false} HexIsWritten(v: Bytes, n: nat) returns (k: nat)
    requires v != [] && AllHex(v) && HexValue(v) == n
    ensures HexFrom(v, k, n)
    decreases |v|
  {
    var u, b := v[..|v| - 1], v[|v| - 1];
    if u == [] {
      k := 0;
      HexOne(b, n);
      assert v[0..] == [b];
    } else {
      k := HexIsWritten(u, HexValue(u));
      k := HexStep(u, b, k, HexValue(u), n);
      assert u + [b] == v;
    }
  }

  lemma ZeroDigit(t: Bytes)
    requires SpellsHex(t, 0)
    ensures t == [Byte('0')]
  {
    assert Hexadecimal(HEX_LOWER, 0) == ['0'] && Hexadecimal(HEX_UPPER, 0) == ['0'];
    assert t[0] == Byte('0');
  }

  /** The hexadecimal strings that denote `n` are exactly its numerals. */
  lemma HexValueIff(v: Bytes, n: nat)
    ensures v != [] && AllHex(v) && HexValue(v) == n <==> IsHexadecimal(v, n)
  {
    if k: nat :| HexFrom(v, k, n) {
      HexIsRead(v[..k], v[k..], n);
      assert v == v[..k] + v[k..];
    } else if v != [] && AllHex(v) {
      var k := HexIsWritten(v, HexValue(v));
    }
  }

  /** A size line: a hexadecimal numeral of `n`, and an extension set off by a semicolon or none. */
  ghost predicate IsSizeLine(line: Bytes, n: nat) {
    exists k :: 0 < k <= |line| && IsHexadecimal(line[..k], n) && (k == |line| || line[k] == Byte(';'))
  }

  /** The chunk header lines that announce `n` bytes are exactly the size lines of `n`. */
  lemma SizeLineIff(line: Bytes, n: nat)
    ensures ChunkSize(line) == Some(n) <==> IsSizeLine(line, n) && n <= 0xFFFF_FFFF_FFFF_FFFF
  {
    ChunkLineIff(line, n);
    forall k | 0 < k <= |line|
      ensures AllHex(line[..k]) && HexValue(line[..k]) == n <==> IsHexadecimal(line[..k], n)
    {
      HexValueIff(line[..k], n);
    }
  }

  // ----- Percent escapes -----

  /** One byte of a text as a client may write it: as itself, unless it is the percent sign, or as a percent
      sign and two hexadecimal digits in either case. */
  ghost predicate IsWriting(sp: Spelling, b: byte) {
    match sp
    case Literal => b != Byte('%')
    case Escaped(hi, lo) =>
      && (hi == Byte(HEX_LOWER[b / 16]) || hi == Byte(HEX_UPPER[b / 16]))
      && (lo == Byte(HEX_LOWER[b % 16]) || lo == Byte(HEX_UPPER[b % 16]))
  }

  ghost function Percent(text: Bytes, spelling: seq<Spelling>): (r: Bytes)
    requires |text| == |spelling|
  {
    if text == [] then []
    else (match spelling[0] case Literal => [text[0]] case Escaped(hi, lo) => [Byte('%'), hi, lo])
         + Percent(text[1..], spelling[1..])
  }

  lemma {:induction false} PercentIsWritten(text: Bytes, spelling: seq<Spelling>)
    requires |text| == |spelling|
    ensures Percent(text, spelling) == Written(text, spelling)
  {
    if text != [] {
      PercentIsWritten(text[1..], spelling[1..]);
    }
  }

  lemma WritingSpells(sp: Spelling, b: byte)
    requires IsWriting(sp, b)
    ensures Spells(sp, b)
  {
    if sp.Escaped? {
      HexDigit(sp.hi, b / 16);
      HexDigit(sp.lo, b % 16);
    }
  }

  /** Decoding undoes every percent-encoding written in hexadecimal by division. */
  lemma PercentRoundTrip(text: Bytes, spelling: seq<Spelling>)
    requires |text| == |spelling| && forall i :: 0 <= i < |text| ==> IsWriting(spelling[i], text[i])
    ensures Decoded(Percent(text, spelling)) == text
  {
    forall i | 0 <= i < |text| ensures Spells(spelling[i], text[i]) {
      WritingSpells(spelling[i], text[i]);
    }
    UnescapeInvertsEscape(text, spelling);
    PercentIsWritten(text, spelling);
  }

  // ----- Grammar -----

  /** A token character (section 5.6.2 of RFC 9110). */
  ghost predicate IsTokenByte(b: byte) {
    || Byte('0') <= b <= Byte('9') || Byte('A') <= b <= Byte('Z') || Byte('a') <= b <= Byte('z')
    || b in Ascii("!#$%&'*+-.^_`|~")
  }

  ghost predicate IsToken(v: Bytes, limit: nat) {
    0 < |v| <= limit && forall i :: 0 <= i < |v| ==> IsTokenByte(v[i])
  }

  /** Neither control characters nor spaces. */
  ghost predicate IsTargetText(v: Bytes) {
    0 < |v| <= 8192 && forall i :: 0 <= i < |v| ==> v[i] > Byte(' ')
  }

  /** No control characters but tab. */
  ghost predicate IsValueText(v: Bytes) {
    |v| <= 16384 && forall i :: 0 <= i < |v| ==> v[i] >= Byte(' ') || v[i] == Byte('\t')
  }

  lemma TokenByteIff(b: byte)
    ensures IsTchar(b) <==> IsTokenByte(b)
  {
    var others := Ascii("!#$%&'*+-.^_`|~");
    assert others == [33, 35, 36, 37, 38, 39, 42, 43, 45, 46, 94, 95, 96, 124, 126];
  }

  lemma TokensAgree(v: Bytes)
    ensures (forall i :: 0 <= i < |v| ==> IsTchar(v[i])) <==> (forall i :: 0 <= i < |v| ==> IsTokenByte(v[i]))
  {
    forall i | 0 <= i < |v| ensures IsTchar(v[i]) <==> IsTokenByte(v[i]) {
      TokenByteIff(v[i]);
    }
  }

  /** The gate's grammar in the words of the standard. */
  lemma GrammarIff(v: Bytes)
    ensures IsMethod(v) <==> IsToken(v, 16)
    ensures IsFieldName(v) <==> IsToken(v, 128)
    ensures IsTarget(v) <==> IsTargetText(v)
    ensures IsFieldValue(v) <==> IsValueText(v)
  {
    TokensAgree(v);
  }

  /** `line` is a field: a token, a colon, and a value after one optional space. */
  ghost predicate IsFieldLine(line: Bytes, f: Field, k: nat) {
    && k < |line| && line[k] == Byte(':') && f.name == line[..k] && IsToken(f.name, 128) && IsValueText(f.value)
    && line[k + 1..] == if k + 1 < |line| && line[k + 1] == Byte(' ') then [Byte(' ')] + f.value else f.value
  }

  /** The header lines that are read as fields. */
  lemma FieldLineIff(line: Bytes, f: Field)
    ensures FieldOf(line) == Some(f) <==> exists k: nat :: IsFieldLine(line, f, k)
  {
    GrammarIff(f.name);
    GrammarIff(f.value);
    var colon := IndexOf(line, COLON, 0);
    if FieldOf(line) == Some(f) {
      assert IsFieldLine(line, f, colon.value);
    }
    if k: nat :| IsFieldLine(line, f, k) {
      ColonAfterToken(line, k);
      assert ([Byte(' ')] + f.value)[1..] == f.value;
    }
  }

  /** A trailer line: a field, other than the two that frame the body. */
  ghost predicate IsTrailerLine(line: Bytes) {
    exists k :: 0 <= k < |line| && line[k] == Byte(':') && IsTrailerName(line[..k]) && IsValueText(line[k + 1..])
  }

  ghost predicate IsTrailerName(name: Bytes) {
    IsToken(name, 128) && !IsLengthName(name) && !IsCodingName(name)
  }

  lemma TokenHasNoColon(v: Bytes)
    requires IsToken(v, 128)
    ensures forall i :: 0 <= i < |v| ==> v[i] != COLON
  {
    forall i | 0 <= i < |v| ensures v[i] != COLON {
      TokenByteIff(v[i]);
    }
  }

  /** The first colon of a line comes after the token before any colon. */
  lemma ColonAfterToken(line: Bytes, k: nat)
    requires k < |line| && line[k] == Byte(':') && IsToken(line[..k], 128)
    ensures IndexOf(line, COLON, 0) == Some(k)
  {
    TokenHasNoColon(line[..k]);
    forall i | 0 <= i < k ensures line[i] != COLON {
      assert line[..k][i] == line[i];
    }
    IndexOfIsFirst(line, COLON, 0, k);
  }

  lemma NameIff(name: Bytes)
    ensures IsTrailerName(name) <==> IsFieldName(name) && !EqCi(name, CONTENT_LENGTH) && !EqCi(name, TRANSFER_ENCODING)
  {
    GrammarIff(name);
    LengthNameIff(name);
    CodingNameIff(name);
  }

  /** The trailer lines the gate lets pass. */
  lemma TrailerLineIff(line: Bytes)
    ensures TrailerFault(line).None? <==> IsTrailerLine(line)
  {
    var colon := IndexOf(line, COLON, 0);
    if colon.Some? {
      NameIff(line[..colon.value]);
      GrammarIff(line[colon.value + 1..]);
    }
    if IsTrailerLine(line) {
      var k :| 0 <= k < |line| && line[k] == Byte(':') && IsTrailerName(line[..k]) && IsValueText(line[k + 1..]);
      ColonAfterToken(line, k);
      assert |line| == k + 1 + |line[k + 1..]|;
    }
  }

  /** A trailer that states a length or a coding is smuggling, whatever its value. */
  lemma FramingTrailerIsSmuggling(line: Bytes, k: nat)
    requires k < |line| && line[k] == Byte(':') && (IsLengthName(line[..k]) || IsCodingName(line[..k])) && IsToken(line[..k], 128)
    ensures TrailerFault(line) == Some(HeaderSmuggling)
  {
    ColonAfterToken(line, k);
    GrammarIff(line[..k]);
    LengthNameIff(line[..k]);
    CodingNameIff(line[..k]);
  }

  // ----- Lists of codings -----

  /** Spaces, tabs and commas: what may stand around the elements of a list. */
  ghost predicate IsPadding(v: Bytes) {
    forall i :: 0 <= i < |v| ==> v[i] == Byte(' ') || v[i] == Byte('\t') || v[i] == Byte(',')
  }

  ghost predicate ChunkedWithin(v: Bytes, i: nat, j: nat) {
    i <= j <= |v| && IsPadding(v[..i]) && IsChunkedName(v[i..j]) && IsPadding(v[j..])
  }

  /** `chunked` once, and no other element. */
  ghost predicate IsChunkedText(v: Bytes) {
    exists i: nat, j: nat :: ChunkedWithin(v, i, j)
  }

  lemma BlankIff(v: Bytes)
    ensures Trimmed(v) == [] <==> AllOws(v)
  {
    var i, j := TrimmedMeaning(v);
    if i == j {
      assert v == v[..i] + v[i..];
    } else {
      assert !IsOws(v[i]);
    }
  }

  lemma OwsAround(v: Bytes, i: nat, j: nat)
    requires i <= j <= |v| && AllOws(v[..i]) && AllOws(v[j..])
    ensures forall x :: 0 <= x < i || j <= x < |v| ==> IsOws(v[x])
  {
    forall x | 0 <= x < i || j <= x < |v| ensures IsOws(v[x]) {
      assert x < i ==> v[..i][x] == v[x];
      assert x >= j ==> v[j..][x - j] == v[x];
    }
  }

  lemma TrimmedIs(v: Bytes, i: nat, j: nat)
    requires i < j <= |v| && AllOws(v[..i]) && AllOws(v[j..]) && !IsOws(v[i]) && !IsOws(v[j - 1])
    ensures Trimmed(v) == v[i..j]
  {
    var i', j' := TrimmedMeaning(v);
    OwsAround(v, i, j);
    OwsAround(v, i', j');
  }

  ghost predicate NoComma(v: Bytes) {
    forall i :: 0 <= i < |v| ==> v[i] != Byte(',')
  }

  lemma PaddingInOneElement(v: Bytes)
    requires NoComma(v)
    ensures IsPadding(v) <==> AllOws(v)
  {
  }

  lemma PaddingSplits(v: Bytes, c: nat)
    requires c < |v| && v[c] == Byte(',')
    ensures IsPadding(v) <==> IsPadding(v[..c]) && IsPadding(v[c + 1..])
  {
    var p, rest := v[..c], v[c + 1..];
    if IsPadding(p) && IsPadding(rest) {
      forall i | 0 <= i < |v| ensures v[i] == Byte(' ') || v[i] == Byte('\t') || v[i] == Byte(',') {
        assert i < c ==> v[i] == p[i];
        assert i > c ==> v[i] == rest[i - c - 1];
      }
    }
  }

  lemma FirstComma(v: Bytes)
    ensures var c := IndexOf(v, COMMA, 0);
            if c.None? then NoComma(v) && SplitOn(v, COMMA) == [v]
            else NoComma(v[..c.value]) && SplitOn(v, COMMA) == [v[..c.value]] + SplitOn(v[c.value + 1..], COMMA)
  {
    forall i | 0 <= i < |v| && v[i] == COMMA ensures IndexOf(v, COMMA, 0).Some? && IndexOf(v, COMMA, 0).value <= i {
      IndexOfIsFirst(v, COMMA, 0, i);
    }
  }

  /** Once `chunked` has been seen, only padding may follow. */
  lemma {:induction false} PaddingIff(v: Bytes)
    ensures CodingsFrom(SplitOn(v, COMMA), 1) <==> IsPadding(v)
    decreases |v|
  {
    FirstComma(v);
    var c := IndexOf(v, COMMA, 0);
    if c.None? {
      BlankIff(v);
      PaddingInOneElement(v);
      assert [v][1..] == [];
    } else {
      var p, rest := v[..c.value], v[c.value + 1..];
      BlankIff(p);
      PaddingInOneElement(p);
      PaddingSplits(v, c.value);
      PaddingIff(rest);
      CodingsFromIff(SplitOn(rest, COMMA), 2);
      assert ([p] + SplitOn(rest, COMMA))[1..] == SplitOn(rest, COMMA);
    }
  }

  lemma ChunkedIsOneElement(v: Bytes)
    requires IsChunkedName(v)
    ensures |v| == 7 && NoComma(v) && !IsOws(v[0]) && !IsOws(v[6])
  {
    forall i | 0 <= i < |v| ensures v[i] != Byte(',') {
      assert v[i] == Byte("chunked"[i]) || v[i] == Byte("CHUNKED"[i]);
    }
  }

  lemma ElementIff(v: Bytes)
    requires NoComma(v)
    ensures EqCi(Trimmed(v), CHUNKED) <==> IsChunkedText(v)
  {
    var i, j := TrimmedMeaning(v);
    ChunkedNameIff(v[i..j]);
    if EqCi(Trimmed(v), CHUNKED) {
      PaddingInOneElement(v[..i]);
      PaddingInOneElement(v[j..]);
      assert ChunkedWithin(v, i, j);
    }
    if a: nat, b: nat :| ChunkedWithin(v, a, b) {
      ChunkedIsOneElement(v[a..b]);
      assert v[a..b][0] == v[a] && v[a..b][6] == v[b - 1];
      PaddingInOneElement(v[..a]);
      PaddingInOneElement(v[b..]);
      TrimmedIs(v, a, b);
    }
  }

  lemma NoCommaWithin(v: Bytes, i: nat, j: nat)
    requires ChunkedWithin(v, i, j)
    ensures forall x :: i <= x < j ==> v[x] != Byte(',')
  {
    ChunkedIsOneElement(v[i..j]);
    forall x | i <= x < j ensures v[x] != Byte(',') {
      assert v[i..j][x - i] == v[x];
    }
  }

  lemma ChunkedAfter(v: Bytes, c: nat, i: nat, j: nat)
    requires c < i <= j <= |v| && v[c] == Byte(',')
    ensures ChunkedWithin(v, i, j) <==> IsPadding(v[..c]) && ChunkedWithin(v[c + 1..], i - c - 1, j - c - 1)
  {
    var rest := v[c + 1..];
    PaddingSplits(v[..i], c);
    assert v[..i][..c] == v[..c] && v[..i][c + 1..] == rest[..i - c - 1];
    assert rest[i - c - 1..j - c - 1] == v[i..j] && rest[j - c - 1..] == v[j..];
  }

  lemma ChunkedBefore(v: Bytes, c: nat, i: nat, j: nat)
    requires i <= j <= c < |v| && v[c] == Byte(',')
    ensures ChunkedWithin(v, i, j) <==> ChunkedWithin(v[..c], i, j) && IsPadding(v[c + 1..])
  {
    var p := v[..c];
    PaddingSplits(v[j..], c - j);
    assert v[j..][..c - j] == p[j..] && v[j..][c - j + 1..] == v[c + 1..];
    assert p[i..j] == v[i..j] && p[..i] == v[..i];
  }

  /** In a list of two parts `chunked` stands in one of them, and the other is padding. */
  lemma ChunkedSplits(v: Bytes, c: nat)
    requires c < |v| && v[c] == Byte(',')
    ensures IsChunkedText(v) <==>
              || (IsPadding(v[..c]) && IsChunkedText(v[c + 1..]))
              || (IsChunkedText(v[..c]) && IsPadding(v[c + 1..]))
  {
    var p, rest := v[..c], v[c + 1..];
    if i: nat, j: nat :| ChunkedWithin(v, i, j) {
      NoCommaWithin(v, i, j);
      if c < i {
        ChunkedAfter(v, c, i, j);
      } else {
        ChunkedBefore(v, c, i, j);
      }
    }
    if i: nat, j: nat :| IsPadding(p) && ChunkedWithin(rest, i, j) {
      ChunkedAfter(v, c, i + c + 1, j + c + 1);
    }
    if i: nat, j: nat :| ChunkedWithin(p, i, j) && IsPadding(rest) {
      ChunkedBefore(v, c, i, j);
    }
  }

  lemma {:induction false} ListIff(v: Bytes)
    ensures CodingsFrom(SplitOn(v, COMMA), 0) <==> IsChunkedText(v)
    decreases |v|
  {
    FirstComma(v);
    var c := IndexOf(v, COMMA, 0);
    if c.None? {
      ElementIff(v);
      assert [v][1..] == [];
    } else {
      var p, rest := v[..c.value], v[c.value + 1..];
      ElementIff(p);
      BlankIff(p);
      PaddingInOneElement(p);
      ChunkedSplits(v, c.value);
      ListIff(rest);
      PaddingIff(rest);
      assert ([p] + SplitOn(rest, COMMA))[1..] == SplitOn(rest, COMMA);
    }
  }

  /** The coding lists the gate lets pass are exactly `chunked`, in any case, and padding around it. */
  lemma ChunkedCodingIff(v: Bytes)
    ensures IsChunkedCoding(v) <==> IsChunkedText(v)
  {
    ListIff(v);
    CodingsFromIff(SplitOn(v, COMMA), 0);
  }
}
