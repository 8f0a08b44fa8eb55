/** The command-line client reading one newline-terminated reply of bounded size from a buffered stream. */
module LineReader {
  import opened HttpBytes
  import opened Values

  const MAX_IPC_RESPONSE_BYTES: nat := 1_048_576

  datatype Reply = Line(text: Bytes) | NotUtf8 | TooLong | Closed

  /** The bytes still to come, whatever the pieces they arrive in. */
  ghost function Flat(chunks: seq<Bytes>): (r: Bytes) {
    if chunks == [] then [] else chunks[0] + Flat(chunks[1..])
  }

  predicate NonEmpty(chunks: seq<Bytes>) {
    forall i :: 0 <= i < |chunks| ==> chunks[i] != []
  }

  /** A stream that hands out its bytes in pieces of its own choosing. */
  class Reader {
    var chunks: seq<Bytes>
    /** All the bytes still to come. */
    ghost var rest: Bytes

    ghost predicate Valid()
      reads this
    {
      NonEmpty(chunks) && rest == Flat(chunks)
    }

    constructor (chunks: seq<Bytes>)
      requires NonEmpty(chunks)
      ensures Valid() && rest == Flat(chunks)
    {
      this.chunks, rest := chunks, Flat(chunks);
    }

    /** The next piece without taking it; empty only at the end of the stream. */
    method FillBuf() returns (available: Bytes)
      requires Valid()
      ensures available <= rest && (available == [] ==> rest == [])
      ensures available != [] ==> chunks != [] && available == chunks[0]
    {
      available := if chunks == [] then [] else chunks[0];
    }

    /** Takes bytes from the front of the piece last handed out. */
    method Consume(n: nat)
      requires Valid() && chunks != [] && n <= |chunks[0]| <= |rest|
      modifies this
      ensures Valid() && rest == old(rest)[n..]
    {
      assert rest[n..] == chunks[0][n..] + Flat(chunks[1..]);
      rest := rest[n..];
      chunks := if n == |chunks[0]| then chunks[1..] else [chunks[0][n..]] + chunks[1..];
    }
  }

  /** What a client must get from a stream of these bytes: the first line if it ends within the limit. */
  ghost function Outcome(s: Bytes, limit: nat, isUtf8: Bytes -> bool): (r: Reply) {
    var i := IndexOf(s, LF, 0);
    if i.Some? && i.value < limit then
      if isUtf8(s[..i.value + 1]) then Line(s[..i.value + 1]) else NotUtf8
    else if |s| >= limit then TooLong
    else Closed
  }

  /** No newline in `a`, so the first one of `a + b` is the first one of `b`. */
  lemma {:induction false} IndexOfSkips(s: Bytes, i: nat, k: nat)
    requires i <= k <= |s| && forall j :: i <= j < k ==> s[j] != LF
    ensures IndexOf(s, LF, i) == IndexOf(s, LF, k)
    decreases k - i
  {
    if i < k {
      IndexOfSkips(s, i + 1, k);
    }
  }

  lemma IndexOfNone(s: Bytes, i: nat, j: nat)
    requires i <= j < |s| && (IndexOf(s, LF, i).None? || j < IndexOf(s, LF, i).value)
    ensures s[j] != LF
  {
    if s[j] == LF {
      IndexOfIsFirst(s, LF, i, j);
    }
  }

  /** `text` was taken off the front of `all`, and `left` is the rest. */
  ghost predicate Takes(all: Bytes, text: Bytes, left: Bytes) {
    |text| <= |all| && text == all[..|text|] && left == all[|text|..]
  }

  /** What one piece decides, if anything; `Found(end)`: a newline is its last byte but the first `end`. */
  datatype Look = Found(end: nat) | Overflow | GoOn

  method Inspect(available: Bytes, remaining: nat, ghost s: Bytes, ghost base: nat) returns (l: Look)
    requires base + |available| <= |s| && s[base..base + |available|] == available
    ensures l.Found? ==> 0 < l.end <= |available| && l.end <= remaining && IndexOf(s, LF, base) == Some(base + l.end - 1)
    ensures l.Overflow? ==> |available| >= remaining && IndexOf(s, LF, base) == IndexOf(s, LF, base + remaining)
    ensures l.GoOn? ==> |available| < remaining && IndexOf(s, LF, base) == IndexOf(s, LF, base + |available|)
  {
    var n := if |available| <= remaining then |available| else remaining;
    var inspect := available[..n];
    assert s[base..base + n] == inspect;
    var newline := IndexOf(inspect, LF, 0);
    if newline.Some? {
      NewlineFound(s, base, inspect);
      return Found(newline.value + 1);
    }
    NoNewline(s, base, inspect);
    l := if |available| >= remaining then Overflow else GoOn;
  }

  /** Takes `n` bytes of the piece last handed out over into the response. */
  method Take(reader: Reader, response: Bytes, available: Bytes, n: nat, ghost s: Bytes) returns (r: Bytes)
    requires reader.Valid() && Takes(s, response, reader.rest) && available <= reader.rest && n <= |available|
    requires reader.chunks != [] && available == reader.chunks[0]
    modifies reader
    ensures reader.Valid() && Takes(s, r, reader.rest) && |r| == |response| + n
    ensures |reader.rest| == |old(reader.rest)| - n
  {
    TakesMore(s, response, reader.rest, available[..n]);
    r := response + available[..n];
    reader.Consume(n);
  }

  /** The reply depends on the bytes alone, not on how they arrive: the first line is taken from the stream and
      nothing behind it, whether or not it is UTF-8; or the limit or the end of the stream is reported when there
      is no such line. */
  method ReadResponseLine(reader: Reader, isUtf8: Bytes -> bool) returns (r: Reply)
    requires reader.Valid()
    modifies reader
    ensures reader.Valid() && r == Outcome(old(reader.rest), 1_048_576, isUtf8)
    ensures r.Line? ==> Takes(old(reader.rest), r.text, reader.rest)
    ensures r.NotUtf8? ==> Takes(old(reader.rest), FirstLine(old(reader.rest)), reader.rest)
    ensures r.Closed? ==> reader.rest == []
  {
    r := ReadLineWithin(reader, MAX_IPC_RESPONSE_BYTES, isUtf8);
  }

  method ReadLineWithin(reader: Reader, limit: nat, isUtf8: Bytes -> bool) returns (r: Reply)
    requires reader.Valid() && limit > 0
    modifies reader
    ensures reader.Valid() && r == Outcome(old(reader.rest), limit, isUtf8)
    ensures r.Line? ==> Takes(old(reader.rest), r.text, reader.rest)
    ensures r.NotUtf8? ==> Takes(old(reader.rest), FirstLine(old(reader.rest)), reader.rest)
    ensures r.Closed? ==> reader.rest == []
  {
    ghost var s := reader.rest;
    var response: Bytes := [];
    while true
      invariant reader.Valid() && Reading(s, response, reader.rest, limit)
      decreases |reader.rest|
    {
      var available := reader.FillBuf();
      if available == [] {
        EndIsClosed(s, response, isUtf8, limit);
        return Closed;
      }
      PieceStands(s, response, reader.rest, available);
      var look := Inspect(available, limit - |response|, s, |response|);
      match look {
        case Found(end) =>
          response := Take(reader, response, available, end, s);
          FirstLineIs(s, response, reader.rest, isUtf8, limit);
          return if isUtf8(response) then Line(response) else NotUtf8;
        case Overflow =>
          OverflowIsTooLong(s, response, available, isUtf8, limit);
          return TooLong;
        case GoOn =>
          response := Take(reader, response, available, |available|, s);
      }
    }
  }

  /** Everything through the first newline. */
  ghost function FirstLine(s: Bytes): (r: Bytes) {
    var i := IndexOf(s, LF, 0);
    if i.Some? then s[..i.value + 1] else []
  }

  lemma FirstLineIs(s: Bytes, text: Bytes, left: Bytes, isUtf8: Bytes -> bool, limit: nat)
    requires Takes(s, text, left) && 0 < |text| <= limit && IndexOf(s, LF, 0) == Some(|text| - 1)
    ensures FirstLine(s) == text && Outcome(s, limit, isUtf8) == if isUtf8(text) then Line(text) else NotUtf8
  {
  }

  /** So far `response` was taken, without a newline and below the limit. */
  ghost predicate Reading(s: Bytes, response: Bytes, left: Bytes, limit: nat) {
    Takes(s, response, left) && |response| < limit && IndexOf(s, LF, 0) == IndexOf(s, LF, |response|)
  }

  lemma EndIsClosed(s: Bytes, response: Bytes, isUtf8: Bytes -> bool, limit: nat)
    requires Reading(s, response, [], limit)
    ensures Outcome(s, limit, isUtf8) == Closed
  {
  }

  lemma OverflowIsTooLong(s: Bytes, response: Bytes, piece: Bytes, isUtf8: Bytes -> bool, limit: nat)
    requires |response| < limit <= |response| + |piece| <= |s| && IndexOf(s, LF, 0) == IndexOf(s, LF, limit)
    ensures Outcome(s, limit, isUtf8) == TooLong
  {
  }

  lemma PieceStands(s: Bytes, response: Bytes, left: Bytes, piece: Bytes)
    requires Takes(s, response, left) && piece <= left
    ensures |response| + |piece| <= |s| && s[|response|..|response| + |piece|] == piece
  {
  }

  lemma TakesMore(s: Bytes, response: Bytes, left: Bytes, piece: Bytes)
    requires Takes(s, response, left) && piece <= left
    ensures Takes(s, response + piece, left[|piece|..])
  {
  }

  lemma NewlineFound(s: Bytes, base: nat, inspect: Bytes)
    requires base + |inspect| <= |s| && s[base..base + |inspect|] == inspect
    requires IndexOf(inspect, LF, 0).Some?
    ensures IndexOf(s, LF, base) == Some(base + IndexOf(inspect, LF, 0).value)
  {
    var n := IndexOf(inspect, LF, 0).value;
    forall j | base <= j < base + n ensures s[j] != LF {
      assert s[j] == inspect[j - base];
      IndexOfNone(inspect, 0, j - base);
    }
    assert s[base + n] == inspect[n];
    IndexOfSkips(s, base, base + n);
  }

  lemma NoNewline(s: Bytes, base: nat, inspect: Bytes)
    requires base + |inspect| <= |s| && s[base..base + |inspect|] == inspect
    requires IndexOf(inspect, LF, 0).None?
    ensures IndexOf(s, LF, base) == IndexOf(s, LF, base + |inspect|)
  {
    forall j | base <= j < base + |inspect| ensures s[j] != LF {
      assert s[j] == inspect[j - base];
      IndexOfNone(inspect, 0, j - base);
    }
    IndexOfSkips(s, base, base + |inspect|);
  }

  ghost predicate NoNewlineBefore(s: Bytes, n: nat) {
    forall j :: 0 <= j < n && j < |s| ==> s[j] != LF
  }

  ghost predicate FirstNewline(s: Bytes, n: nat) {
    n < |s| && s[n] == LF && NoNewlineBefore(s, n)
  }

  /** The three outcomes, by the bytes: a line that ends within the limit, too many bytes without one, or the
      end of the stream before either. */
  lemma OutcomeMeaning(s: Bytes, limit: nat, isUtf8: Bytes -> bool)
    ensures Outcome(s, limit, isUtf8).TooLong? <==> |s| >= limit && NoNewlineBefore(s, limit)
    ensures Outcome(s, limit, isUtf8).Closed? <==> |s| < limit && NoNewlineBefore(s, |s|)
    ensures forall n: nat :: FirstNewline(s, n) && n < limit ==>
              Outcome(s, limit, isUtf8) == if isUtf8(s[..n + 1]) then Line(s[..n + 1]) else NotUtf8
  {
    var i := IndexOf(s, LF, 0);
    forall j | 0 <= j < |s| && (i.None? || j < i.value) ensures s[j] != LF {
      IndexOfNone(s, 0, j);
    }
    forall n: nat | FirstNewline(s, n) ensures i == Some(n) {
      IndexOfIsFirst(s, LF, 0, n);
    }
  }
}
