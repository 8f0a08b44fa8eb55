/** The decaying count-min sketch over one flat counter array. */
module Sketch {
  import opened Words

  const ROWS: nat := 4
  const COLS: nat := 65536
  const GOLDEN: nat := 0x9E37_79B9_7F4A_7C15

  type Key = k: nat | k < U64

  function RowHash(row: nat, key: Key): (h: Key) {
    var salt := (row + 1) * GOLDEN % U64;
    Xor(key, salt) * GOLDEN % U64
  }

  function Column(row: nat, key: Key): (c: nat)
    ensures c < COLS
  {
    RowHash(row, key) % COLS
  }

  function Index(row: nat, key: Key): (i: nat)
    requires row < ROWS
    ensures i < ROWS * COLS
  {
    row * COLS + Column(row, key)
  }

  datatype Op = Inc(key: Key) | Decay

  /** The decayed count of all keys congruent to `c` modulo 65,536, in a wrapping 64-bit counter. */
  function Tally(history: seq<Op>, c: nat): (n: Key) {
    if history == [] then 0
    else
      var n := Tally(history[..|history| - 1], c);
      match history[|history| - 1]
      case Inc(key) => if key % COLS == c then (n + 1) % U64 else n
      case Decay => n / 2
  }

  /** Increments since the last decay. */
  function Pending(history: seq<Op>): (n: nat) {
    if history == [] || history[|history| - 1] == Decay then 0
    else 1 + Pending(history[..|history| - 1])
  }

  /** Each counter that some key of its row maps to holds the tally of that key's residue. */
  ghost predicate Follows(counts: seq<nat>, history: seq<Op>) {
    && |counts| == ROWS * COLS
    && forall row: nat, key: Key :: row < ROWS ==> counts[Index(row, key)] == Tally(history, key % COLS)
  }

  /** Half-way through an increment of `key`: the rows before `row` are done. */
  ghost predicate Bumped(counts: seq<nat>, history: seq<Op>, key: Key, row: nat) {
    && |counts| == ROWS * COLS
    && forall r: nat, k: Key :: r < ROWS ==> counts[Index(r, k)] == AfterRow(history, key, row, r, k)
  }

  function AfterRow(history: seq<Op>, key: Key, row: nat, r: nat, k: Key): (n: nat) {
    if r < row && k % COLS == key % COLS then (Tally(history, k % COLS) + 1) % U64 else Tally(history, k % COLS)
  }

  class DecayingSketch {
    var counts: array<nat>
    var insertedSinceDecay: nat
    ghost var history: seq<Op>

    ghost predicate Valid()
      reads this, counts
    {
      insertedSinceDecay == Pending(history) % U64 && Follows(counts[..], history)
    }

    constructor ()
      ensures Valid() && fresh(counts) && history == []
    {
      counts := new nat[ROWS * COLS](i => 0);
      insertedSinceDecay := 0;
      history := [];
    }

    method Increment(key: Key)
      requires Valid()
      modifies this, counts
      ensures Valid() && counts == old(counts)
      ensures history == old(history) + [Inc(key)]
    {
      var row := 0;
      while row < ROWS
        invariant row <= ROWS && counts == old(counts)
        invariant history == old(history) && insertedSinceDecay == old(insertedSinceDecay)
        invariant Bumped(counts[..], history, key, row)
      {
        BumpRow(counts[..], history, key, row);
        Bump(Index(row, key));
        row := row + 1;
      }
      BumpedAll(counts[..], history, key);
      insertedSinceDecay := (insertedSinceDecay + 1) % U64;
      history := history + [Inc(key)];
      assert history[..|history| - 1] == old(history);
    }

    /** One counter, wrapping at the machine word. */
    method Bump(idx: nat)
      requires idx < counts.Length
      modifies counts
      ensures counts[..] == old(counts[..])[idx := (old(counts[idx]) + 1) % U64]
    {
      counts[idx] := (counts[idx] + 1) % U64;
    }

    method Estimate(key: Key) returns (r: nat)
      requires Valid()
      ensures r == Tally(history, key % COLS)
      ensures forall t: nat :: Paced(history, t) && 2 * t < U64 ==> OwnCount(history, key) <= r
    {
      r := U64 - 1;
      var row := 0;
      while row < ROWS
        invariant row <= ROWS
        invariant r == if row == 0 then U64 - 1 else Tally(history, key % COLS)
      {
        assert counts[..][Index(row, key)] == Tally(history, key % COLS);
        var v := counts[Index(row, key)];
        if v < r {
          r := v;
        }
        row := row + 1;
      }
      forall t: nat | Paced(history, t) && 2 * t < U64 ensures OwnCount(history, key) <= r {
        NeverUndercounts(history, key, t);
      }
    }

    method DecayAll()
      requires Valid()
      modifies this, counts
      ensures Valid() && counts == old(counts)
      ensures history == old(history) + [Decay]
    {
      ghost var before := counts[..];
      var i := 0;
      while i < counts.Length
        invariant i <= counts.Length && counts == old(counts) && history == old(history)
        invariant forall j :: 0 <= j < counts.Length ==> counts[j] == if j < i then before[j] / 2 else before[j]
      {
        counts[i] := counts[i] / 2;
        i := i + 1;
      }
      HalvedAll(before, counts[..], history);
      insertedSinceDecay := 0;
      history := history + [Decay];
    }
  }

  // ----- Counters -----

  /** Two keys share a counter exactly when they are congruent and the row is the same. */
  lemma SameCounterIff(r: nat, k: Key, row: nat, key: Key)
    requires r < ROWS && row < ROWS
    ensures Index(r, k) == Index(row, key) <==> r == row && k % COLS == key % COLS
  {
    SameColumnIffCongruent(row, k, key);
    RowsApart(r, Column(r, k), row, Column(row, key));
  }

  lemma RowsApart(r: nat, c: nat, row: nat, d: nat)
    requires c < COLS && d < COLS
    ensures r * COLS + c == row * COLS + d <==> r == row && c == d
  {
  }

  lemma BumpRow(counts: seq<nat>, history: seq<Op>, key: Key, row: nat)
    requires Bumped(counts, history, key, row) && row < ROWS
    ensures Bumped(counts[Index(row, key) := (counts[Index(row, key)] + 1) % U64], history, key, row + 1)
  {
    var after := counts[Index(row, key) := (counts[Index(row, key)] + 1) % U64];
    forall r: nat, k: Key | r < ROWS ensures after[Index(r, k)] == AfterRow(history, key, row + 1, r, k) {
      SameCounterIff(r, k, row, key);
      assert counts[Index(r, k)] == AfterRow(history, key, row, r, k);
    }
  }

  lemma BumpedAll(counts: seq<nat>, history: seq<Op>, key: Key)
    requires Bumped(counts, history, key, ROWS)
    ensures Follows(counts, history + [Inc(key)])
  {
    var h := history + [Inc(key)];
    assert h[..|h| - 1] == history;
    forall r: nat, k: Key | r < ROWS ensures counts[Index(r, k)] == Tally(h, k % COLS) {
      assert counts[Index(r, k)] == AfterRow(history, key, ROWS, r, k);
    }
  }

  lemma HalvedAll(before: seq<nat>, after: seq<nat>, history: seq<Op>)
    requires Follows(before, history) && |after| == |before|
    requires forall j :: 0 <= j < |after| ==> after[j] == before[j] / 2
    ensures Follows(after, history + [Decay])
  {
    var h := history + [Decay];
    assert h[..|h| - 1] == history;
    forall r: nat, k: Key | r < ROWS ensures after[Index(r, k)] == Tally(h, k % COLS) {
      assert before[Index(r, k)] == Tally(history, k % COLS);
    }
  }

  // ----- Column maps -----

  lemma Doubled(a: nat, p: nat, h: nat, l: nat)
    requires a / 2 == p * h + l
    ensures a == (2 * p) * h + (2 * l + a % 2)
  {
    assert (2 * p) * h == 2 * (p * h);
  }

  lemma {:induction false} SplitWord(a: nat, s: nat)
    ensures a == Pow2(s) * Shr(a, s) + Low(a, s)
    decreases s
  {
    if s > 0 {
      SplitWord(a / 2, s - 1);
      Doubled(a, Pow2(s - 1), Shr(a / 2, s - 1), Low(a / 2, s - 1));
    }
  }

  lemma RemainderIs(a: nat, q: int, r: nat)
    requires a == COLS * q + r && r < COLS
    ensures a % COLS == r
  {
  }

  lemma LowIsRemainder(a: nat, s: nat)
    requires s == 16
    ensures Low(a, s) == a % COLS
  {
    Powers();
    SplitWord(a, s);
    RemainderIs(a, Shr(a, s), Low(a, s));
  }

  lemma WrapKeepsResidue(x: nat)
    ensures x % U64 % COLS == x % COLS
  {
    var q, y := x / U64, x % U64;
    assert x == U64 * q + y;
    RemainderIs(x, 0x1_0000_0000_0000 * q + y / COLS, y % COLS);
  }

  lemma ProductResidue(x: nat, c: nat)
    ensures x * c % COLS == x % COLS * c % COLS
  {
    var q, r := x / COLS, x % COLS;
    assert x * c == COLS * (q * c) + r * c by {
      assert x == COLS * q + r;
    }
    RemainderIs(x * c, q * c + r * c / COLS, r * c % COLS);
  }

  /** Multiplying by the odd constant is invertible on 16-bit residues. */
  lemma GoldenInvertible(r: nat)
    requires r < COLS
    ensures r * GOLDEN % COLS * 0x733d % COLS == r
  {
    ProductResidue(r * GOLDEN, 0x733d);
    var m := GOLDEN * 0x733d / COLS;
    assert GOLDEN * 0x733d == COLS * m + 1;
    assert r * GOLDEN * 0x733d == COLS * (r * m) + r;
    RemainderIs(r * GOLDEN * 0x733d, r * m, r);
  }

  lemma XorResidue(a: nat, b: nat)
    ensures Xor(a, b) % COLS == Xor(a % COLS, b % COLS)
  {
    var s := 16;
    LowIsRemainder(a, s);
    LowIsRemainder(b, s);
    LowIsRemainder(Xor(a, b), s);
    XorLow(a, b, s);
  }

  /** A column depends on the key through the salted low 16 bits only. */
  lemma ColumnFromResidue(row: nat, key: Key)
    ensures Column(row, key) == Xor(key % COLS, (row + 1) * GOLDEN % U64 % COLS) * GOLDEN % COLS
  {
    var salt := (row + 1) * GOLDEN % U64;
    WrapKeepsResidue(Xor(key, salt) * GOLDEN);
    ProductResidue(Xor(key, salt), GOLDEN);
    XorResidue(key, salt);
  }

  /** Each row's column map is a bijection of the low 16 bits: two keys share a column exactly when they
      are congruent modulo 65,536, in every row alike. */
  lemma SameColumnIffCongruent(row: nat, k: Key, j: Key)
    ensures Column(row, k) == Column(row, j) <==> k % COLS == j % COLS
  {
    var salt := (row + 1) * GOLDEN % U64;
    var s := salt % COLS;
    ColumnFromResidue(row, k);
    ColumnFromResidue(row, j);
    XorResidue(k, salt);
    XorResidue(j, salt);
    GoldenInvertible(Xor(k % COLS, s));
    GoldenInvertible(Xor(j % COLS, s));
    XorCancels(k % COLS, s);
    XorCancels(j % COLS, s);
  }

  // ----- What the tally means -----

  /** The decayed count of the keys congruent to `c`, without wrap-around. */
  function DecayedCount(history: seq<Op>, c: nat): (n: nat) {
    if history == [] then 0
    else
      var n := DecayedCount(history[..|history| - 1], c);
      match history[|history| - 1]
      case Inc(key) => if key % COLS == c then n + 1 else n
      case Decay => n / 2
  }

  /** The decayed count of one key alone. */
  function OwnCount(history: seq<Op>, key: Key): (n: nat) {
    if history == [] then 0
    else
      var n := OwnCount(history[..|history| - 1], key);
      match history[|history| - 1]
      case Inc(k) => if k == key then n + 1 else n
      case Decay => n / 2
  }

  /** Decays are frequent enough: never more than `t` increments between two of them. */
  ghost predicate Paced(history: seq<Op>, t: nat) {
    history == [] || (Paced(history[..|history| - 1], t) && Pending(history) <= t)
  }

  /** The column of a key counts at least the key itself. */
  lemma {:induction false} ColumnCoversKey(history: seq<Op>, key: Key)
    ensures OwnCount(history, key) <= DecayedCount(history, key % COLS)
  {
    if history != [] {
      ColumnCoversKey(history[..|history| - 1], key);
    }
  }

  /** With at most `t` increments between decays no counter exceeds `2t`, and below the wrap-around
      point the stored counter is the true decayed count. */
  lemma {:induction false} TallyIsBounded(history: seq<Op>, c: nat, t: nat)
    requires Paced(history, t) && 2 * t < U64
    ensures Tally(history, c) == DecayedCount(history, c) <= t + Pending(history) <= 2 * t
  {
    if history != [] {
      TallyIsBounded(history[..|history| - 1], c, t);
    }
  }

  /** With such decays an estimate never falls below the key's own decayed count. */
  lemma NeverUndercounts(history: seq<Op>, key: Key, t: nat)
    requires Paced(history, t) && 2 * t < U64
    ensures OwnCount(history, key) <= Tally(history, key % COLS)
  {
    TallyIsBounded(history, key % COLS, t);
    ColumnCoversKey(history, key);
  }
}
