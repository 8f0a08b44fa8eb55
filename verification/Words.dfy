/** Machine words as natural numbers: exclusive or, shifts and low bits. */
module Words {

  const U32: nat := 0x1_0000_0000
  const U64: nat := 0x1_0000_0000_0000_0000

  function Xor(a: nat, b: nat): (r: nat) {
    if a == 0 && b == 0 then 0 else 2 * Xor(a / 2, b / 2) + (a + b) % 2
  }

  function Pow2(s: nat): (r: nat)
    ensures r > 0
  {
    if s == 0 then 1 else 2 * Pow2(s - 1)
  }

  /** The word shifted right by `s` bits. */
  function Shr(a: nat, s: nat): (r: nat)
    decreases s
  {
    if s == 0 then a else Shr(a / 2, s - 1)
  }

  /** The low `s` bits of the word. */
  function Low(a: nat, s: nat): (r: nat)
    ensures r <= a && r < Pow2(s)
    decreases s
  {
    if s == 0 then 0 else 2 * Low(a / 2, s - 1) + a % 2
  }

  lemma XorBits(a: nat, b: nat)
    ensures Xor(a, b) / 2 == Xor(a / 2, b / 2)
    ensures Xor(a, b) % 2 == (a + b) % 2
  {
  }

  lemma {:induction false} XorZero(a: nat)
    ensures Xor(a, 0) == a
  {
    if a > 0 {
      XorZero(a / 2);
    }
  }

  lemma {:induction false} XorZeroLeft(a: nat)
    ensures Xor(0, a) == a
  {
    if a > 0 {
      XorZeroLeft(a / 2);
    }
  }

  lemma {:induction false} XorSelf(a: nat)
    ensures Xor(a, a) == 0
  {
    if a > 0 {
      XorSelf(a / 2);
    }
  }

  lemma SameBits(x: nat, y: nat)
    requires x / 2 == y / 2 && x % 2 == y % 2
    ensures x == y
  {
  }

  lemma Parity(a: nat, b: nat, c: nat, x: nat, y: nat)
    requires x % 2 == (a + b) % 2 && y % 2 == (b + c) % 2
    ensures (x + c) % 2 == (a + y) % 2
  {
  }

  lemma {:induction false} XorAssoc(a: nat, b: nat, c: nat)
    ensures Xor(Xor(a, b), c) == Xor(a, Xor(b, c))
    decreases a + b + c
  {
    if a > 0 || b > 0 || c > 0 {
      var x, y := Xor(a, b), Xor(b, c);
      var l, r := Xor(x, c), Xor(a, y);
      assert l / 2 == r / 2 by {
        XorAssoc(a / 2, b / 2, c / 2);
        XorBits(a, b);
        XorBits(b, c);
        XorBits(x, c);
        XorBits(a, y);
      }
      assert l % 2 == r % 2 by {
        XorBits(a, b);
        XorBits(b, c);
        Parity(a, b, c, x, y);
        XorBits(x, c);
        XorBits(a, y);
      }
      SameBits(l, r);
    }
  }

  /** Applying the same word twice cancels. */
  lemma XorCancels(a: nat, b: nat)
    ensures Xor(Xor(a, b), b) == a
  {
    XorAssoc(a, b, b);
    XorSelf(b);
    XorZero(a);
  }

  lemma XorIsZeroIff(a: nat, b: nat)
    ensures Xor(a, b) == 0 <==> a == b
  {
    XorSelf(b);
    XorCancels(a, b);
    XorCancels(b, b);
  }

  lemma {:induction false} XorShr(a: nat, b: nat, s: nat)
    ensures Shr(Xor(a, b), s) == Xor(Shr(a, s), Shr(b, s))
    decreases s
  {
    if s > 0 {
      XorShr(a / 2, b / 2, s - 1);
      XorBits(a, b);
    }
  }

  lemma {:induction false} ShrShr(a: nat, s: nat, u: nat)
    ensures Shr(Shr(a, s), u) == Shr(a, s + u)
    decreases s
  {
    if s > 0 {
      ShrShr(a / 2, s - 1, u);
    }
  }

  lemma {:induction false} ShrSmall(a: nat, s: nat)
    ensures Shr(a, s) == 0 <==> a < Pow2(s)
    ensures Shr(a, s) <= a
    decreases s
  {
    if s > 0 {
      ShrSmall(a / 2, s - 1);
    }
  }

  /** Exclusive or stays inside the word. */
  lemma XorInWord(a: nat, b: nat, s: nat)
    requires a < Pow2(s) && b < Pow2(s)
    ensures Xor(a, b) < Pow2(s)
  {
    ShrSmall(a, s);
    ShrSmall(b, s);
    ShrSmall(Xor(a, b), s);
    XorShr(a, b, s);
  }

  /** Exclusive or works bit by bit, so its low bits come from the low bits of its arguments. */
  lemma {:induction false} XorLow(a: nat, b: nat, s: nat)
    ensures Low(Xor(a, b), s) == Xor(Low(a, s), Low(b, s))
    decreases s
  {
    if s > 0 {
      XorLow(a / 2, b / 2, s - 1);
      var x, y, z := Low(a, s), Low(b, s), Low(Xor(a, b), s);
      assert z / 2 == Low(Xor(a / 2, b / 2), s - 1) && z % 2 == (a + b) % 2 by {
        XorBits(a, b);
      }
      assert x / 2 == Low(a / 2, s - 1) && y / 2 == Low(b / 2, s - 1);
      SumParity(a, b, x, y);
      XorFromBits(x, y, z);
    }
  }

  lemma XorFromBits(x: nat, y: nat, z: nat)
    requires z / 2 == Xor(x / 2, y / 2) && z % 2 == (x + y) % 2
    ensures z == Xor(x, y)
  {
    XorBits(x, y);
    SameBits(z, Xor(x, y));
  }

  lemma SumParity(a: nat, b: nat, x: nat, y: nat)
    requires x % 2 == a % 2 && y % 2 == b % 2
    ensures (x + y) % 2 == (a + b) % 2
  {
  }

  /** Clearing the low `s` bits keeps exactly what a shift by `s` keeps. */
  lemma {:induction false} SameHighBits(a: nat, b: nat, s: nat)
    ensures a - Low(a, s) == b - Low(b, s) <==> Shr(a, s) == Shr(b, s)
    decreases s
  {
    if s > 0 {
      SameHighBits(a / 2, b / 2, s - 1);
    }
  }

  lemma DoubleProduct(q: nat, p: nat)
    ensures q * (2 * p) == 2 * (q * p)
  {
  }

  /** The high bits of half a word and one more bit below its low bits. */
  lemma OneMoreBit(a: nat, high: nat, low: nat)
    requires a / 2 == high + low
    ensures a == 2 * high + (2 * low + a % 2)
  {
  }

  /** A word is its high bits times a power of two, and its low bits. */
  lemma {:induction false} HighAndLow(a: nat, s: nat)
    ensures a == Shr(a, s) * Pow2(s) + Low(a, s)
    decreases s
  {
    if s > 0 {
      HighAndLow(a / 2, s - 1);
      var q, p := Shr(a / 2, s - 1), Pow2(s - 1);
      DoubleProduct(q, p);
      OneMoreBit(a, q * p, Low(a / 2, s - 1));
    }
  }

  lemma NextMultiple(q: nat, m: nat, p: nat)
    requires q < m
    ensures q * p + p <= m * p
  {
    var d := m - q - 1;
    assert m == q + 1 + d;
    assert m * p == q * p + p + d * p;
  }

  lemma QuotientIsUnique(q: nat, m: nat, p: nat, a: nat)
    requires q * p <= a < q * p + p && m * p <= a < m * p + p
    ensures q == m
  {
    if q < m {
      NextMultiple(q, m, p);
    } else if m < q {
      NextMultiple(m, q, p);
    }
  }

  /** The words with the high bits `m` are the `m`-th run of `2^s` consecutive words. */
  lemma HighBitsIff(a: nat, s: nat, m: nat)
    ensures Shr(a, s) == m <==> m * Pow2(s) <= a < m * Pow2(s) + Pow2(s)
  {
    HighAndLow(a, s);
    if m * Pow2(s) <= a < m * Pow2(s) + Pow2(s) {
      QuotientIsUnique(Shr(a, s), m, Pow2(s), a);
    }
  }

  lemma Powers()
    ensures Pow2(16) == 0x1_0000 && Pow2(32) == U32
  {
    assert Pow2(8) == 256;
    assert Pow2(16) == 0x1_0000;
    assert Pow2(24) == 0x100_0000;
  }
}
