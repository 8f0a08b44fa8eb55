/** The key of an IPv4 network in the rule table. */
module SlotKey {
  import opened Words
  import opened RuleSlots
  import RuleMap
  import RuleTable

  type Word32 = h: nat | h < U32

  function Fold(h: Word32, s: nat): (r: Word32) {
    FoldInWord(h, s);
    Xor(h, Shr(h, s))
  }

  lemma FoldInWord(h: Word32, s: nat)
    ensures Xor(h, Shr(h, s)) < U32
  {
    Powers();
    ShrSmall(h, s);
    XorInWord(h, Shr(h, s), 32);
  }

  function Scale(h: Word32, c: nat): (r: Word32) {
    h * c % U32
  }

  /** The finishing mixer applied to `network xor prefix length`. */
  function Mix(h0: Word32): (h: Word32) {
    var h1 := Fold(h0, 16);
    var h2 := Scale(h1, 0x85eb_ca6b);
    var h3 := Fold(h2, 13);
    var h4 := Scale(h3, 0xc2b2_ae35);
    Fold(h4, 16)
  }

  function Unfold13(h: Word32): (r: Word32) {
    Powers();
    FoldInWord(h, 13);
    ShrSmall(h, 26);
    XorInWord(Xor(h, Shr(h, 13)), Shr(h, 26), 32);
    Xor(Xor(h, Shr(h, 13)), Shr(h, 26))
  }

  /** The mixer's steps undone in reverse order; the factors are the inverses modulo 2^32. */
  function Unmix(h: Word32): (h0: Word32) {
    var h4 := Fold(h, 16);
    var h3 := Scale(h4, 0x7ed1_b41d);
    var h2 := Unfold13(h3);
    var h1 := Scale(h2, 0xa5cb_9243);
    Fold(h1, 16)
  }

  lemma Fold16Inverts(h: Word32)
    ensures Fold(Fold(h, 16), 16) == h
  {
    Powers();
    XorShr(h, Shr(h, 16), 16);
    ShrShr(h, 16, 16);
    ShrSmall(h, 32);
    XorZero(Shr(h, 16));
    XorCancels(h, Shr(h, 16));
  }

  lemma Shifts13(h: Word32)
    ensures Shr(Shr(h, 13), 13) == Shr(h, 26) && Shr(Shr(h, 13), 26) == 0 && Shr(Shr(h, 26), 13) == 0
  {
    ShrShr(h, 13, 13);
    ShrShr(h, 13, 26);
    ShrShr(h, 26, 13);
    ShrShr(h, 32, 7);
    Powers();
    ShrSmall(h, 32);
    ShrSmall(0, 7);
  }

  lemma Fold13Inverts(h: Word32)
    ensures Unfold13(Fold(h, 13)) == h
  {
    var a, b := Shr(h, 13), Shr(h, 26);
    var y := Fold(h, 13);
    Shifts13(h);
    XorShr(h, a, 13);
    XorShr(h, a, 26);
    XorZero(b);
    assert Shr(y, 13) == Xor(a, b) && Shr(y, 26) == b;
    XorAssoc(h, a, Xor(a, b));
    XorAssoc(a, a, b);
    XorSelf(a);
    XorZeroLeft(b);
    XorCancels(h, b);
  }

  lemma Unfold13Inverts(h: Word32)
    ensures Fold(Unfold13(h), 13) == h
  {
    var a, b := Shr(h, 13), Shr(h, 26);
    Shifts13(h);
    XorShr(Xor(h, a), b, 13);
    XorShr(h, a, 13);
    XorZero(Xor(a, b));
    assert Shr(Unfold13(h), 13) == Xor(a, b);
    XorAssoc(h, a, b);
    XorCancels(h, Xor(a, b));
  }

  lemma ScaleInverts(h: Word32)
    ensures Scale(Scale(h, 0x85eb_ca6b), 0xa5cb_9243) == h && Scale(Scale(h, 0xa5cb_9243), 0x85eb_ca6b) == h
    ensures Scale(Scale(h, 0xc2b2_ae35), 0x7ed1_b41d) == h && Scale(Scale(h, 0x7ed1_b41d), 0xc2b2_ae35) == h
  {
    ProductInverts(h, 0x85eb_ca6b, 0xa5cb_9243);
    ProductInverts(h, 0xa5cb_9243, 0x85eb_ca6b);
    ProductInverts(h, 0xc2b2_ae35, 0x7ed1_b41d);
    ProductInverts(h, 0x7ed1_b41d, 0xc2b2_ae35);
  }

  lemma ProductInverts(h: Word32, c: nat, d: nat)
    requires c * d % U32 == 1
    ensures h * c % U32 * d % U32 == h
  {
    var q, k := h * c / U32, c * d / U32;
    assert c * d == U32 * k + 1;
    assert h * c == U32 * q + h * c % U32;
    calc {
      h * c % U32 * d;
      (h * c - U32 * q) * d;
      h * (c * d) - U32 * (q * d);
      h * (U32 * k + 1) - U32 * (q * d);
      U32 * (h * k - q * d) + h;
    }
    RemainderUnique(h * c % U32 * d, h * k - q * d, h);
  }

  lemma RemainderUnique(a: nat, q: int, r: nat)
    requires a == U32 * q + r && r < U32
    ensures a % U32 == r
  {
  }

  /** The mixer is a bijection on 32-bit words, and zero is the only word it maps to zero. */
  lemma MixBijective(h: Word32)
    ensures Unmix(Mix(h)) == h && Mix(Unmix(h)) == h
    ensures Mix(h) == 0 <==> h == 0
  {
    UnmixMix(h);
    MixUnmix(h);
    var z: Word32 := 0;
    UnmixMix(z);
    MixOfZero(z);
  }

  lemma FoldOfZero(z: Word32, s: nat)
    requires z == 0
    ensures Fold(z, s) == 0
  {
    ShrSmall(z, s);
  }

  lemma MixOfZero(z: Word32)
    requires z == 0
    ensures Mix(z) == 0
  {
    var h1 := Fold(z, 16);
    FoldOfZero(z, 16);
    var h2 := Scale(h1, 0x85eb_ca6b);
    FoldOfZero(h2, 13);
    var h4 := Scale(Fold(h2, 13), 0xc2b2_ae35);
    FoldOfZero(h4, 16);
  }

  lemma UnmixMix(h: Word32)
    ensures Unmix(Mix(h)) == h
  {
    var h1 := Fold(h, 16);
    var h2 := Scale(h1, 0x85eb_ca6b);
    var h3 := Fold(h2, 13);
    var h4 := Scale(h3, 0xc2b2_ae35);
    Fold16Inverts(h4);
    ScaleInverts(h3);
    Fold13Inverts(h2);
    ScaleInverts(h1);
    Fold16Inverts(h);
  }

  lemma MixUnmix(h: Word32)
    ensures Mix(Unmix(h)) == h
  {
    var h4 := Fold(h, 16);
    var h3 := Scale(h4, 0x7ed1_b41d);
    var h2 := Unfold13(h3);
    var h1 := Scale(h2, 0xa5cb_9243);
    Fold16Inverts(h1);
    ScaleInverts(h2);
    Unfold13Inverts(h3);
    ScaleInverts(h4);
    Fold16Inverts(h);
  }

  type Prefix = p: nat | p < 256

  function SubnetKey(network: Word32, prefix: Prefix): (k: Word32) {
    KeyArgument(network, prefix);
    Mix(Xor(network, prefix))
  }

  lemma KeyArgument(network: Word32, prefix: Prefix)
    ensures Xor(network, prefix) < U32
  {
    Powers();
    XorInWord(network, prefix, 32);
  }

  /** For one prefix length, distinct networks have distinct keys, and the key is the reserved zero
      exactly when network and prefix length are the same number. */
  lemma SubnetKeyInjective(prefix: Prefix, n: Word32, m: Word32)
    ensures SubnetKey(n, prefix) == SubnetKey(m, prefix) <==> n == m
    ensures SubnetKey(n, prefix) == 0 <==> n == prefix
  {
    KeyArgument(n, prefix);
    KeyArgument(m, prefix);
    MixBijective(Xor(n, prefix));
    MixBijective(Xor(m, prefix));
    XorCancels(n, prefix);
    XorCancels(m, prefix);
    XorIsZeroIff(n, prefix);
  }

  /** The address with the host bits of the prefix cleared. */
  function Masked(ip: Word32, prefix: Prefix): (n: Word32)
    requires prefix <= 32
  {
    ip - Low(ip, 32 - prefix)
  }

  function Ipv4Key(ip: Word32, prefix: Prefix): (k: Word32) {
    if prefix > 32 || prefix == 0 then 0 else SubnetKey(Masked(ip, prefix), prefix)
  }

  /** `ramshield_shm_read_ipv4_ex` on a table between operations. */
  function ReadIpv4(table: RuleTable.Table, ip: Word32, prefix: Prefix, now: nat): (r: Lookup)
    requires |table| == CAPACITY
  {
    if prefix == 0 || prefix > 32 then Invalid
    else if Ipv4Key(ip, prefix) == 0 then Invalid
    else RuleTable.ReadFrom(table, Ipv4Key(ip, prefix), now, 0, false)
  }

  /** An IPv4 lookup is rejected exactly when the prefix length is out of range or the masked network
      equals it as a number. */
  lemma ReadIpv4InvalidIff(table: RuleTable.Table, ip: Word32, prefix: Prefix, now: nat)
    requires |table| == CAPACITY
    ensures ReadIpv4(table, ip, prefix, now) == Invalid <==>
              prefix == 0 || prefix > 32 || Masked(ip, prefix) == prefix
  {
    if 1 <= prefix <= 32 {
      SubnetKeyInjective(prefix, Masked(ip, prefix), 0);
      RuleTable.ReadFromMeaning(table, Ipv4Key(ip, prefix), now, 0, false);
    }
  }

  /** Two addresses share an IPv4 key exactly when they lie in the same network of that prefix length. */
  lemma SameKeyIffSameNetwork(ip: Word32, jp: Word32, prefix: Prefix)
    requires 1 <= prefix <= 32
    ensures Ipv4Key(ip, prefix) == Ipv4Key(jp, prefix) <==> Shr(ip, 32 - prefix) == Shr(jp, 32 - prefix)
  {
    SubnetKeyInjective(prefix, Masked(ip, prefix), Masked(jp, prefix));
    SameHighBits(ip, jp, 32 - prefix);
  }

  /** The first address of the `m`-th network of a prefix length. */
  ghost function Network(m: nat, prefix: Prefix): (n: nat)
    requires prefix <= 32
  {
    m * Pow2(32 - prefix)
  }

  ghost predicate InNetwork(ip: Word32, n: nat, prefix: Prefix)
    requires prefix <= 32
  {
    n <= ip < n + Pow2(32 - prefix)
  }

  lemma MaskedIff(ip: Word32, m: nat, prefix: Prefix)
    requires prefix <= 32
    ensures Masked(ip, prefix) == Network(m, prefix) <==> InNetwork(ip, Network(m, prefix), prefix)
  {
    var s := 32 - prefix;
    HighAndLow(ip, s);
    HighBitsIff(ip, s, m);
    assert Masked(ip, prefix) == Shr(ip, s) * Pow2(s);
    if Shr(ip, s) * Pow2(s) == m * Pow2(s) {
      QuotientIsUnique(Shr(ip, s), m, Pow2(s), m * Pow2(s));
    }
  }

  /** The key of a network is the key of exactly the addresses in it. */
  lemma KeyCovers(ip: Word32, m: nat, prefix: Prefix)
    requires 1 <= prefix <= 32 && Network(m, prefix) < U32
    ensures Ipv4Key(ip, prefix) == SubnetKey(Network(m, prefix), prefix) <==> InNetwork(ip, Network(m, prefix), prefix)
  {
    MaskedIff(ip, m, prefix);
    SubnetKeyInjective(prefix, Masked(ip, prefix), Network(m, prefix));
  }

  /** A live rule stored for a network is what a lookup finds for exactly the addresses in that network. */
  lemma RuleCoversNetwork(table: RuleTable.Table, rules: RuleMap.Rules, clock: nat, m: nat, prefix: Prefix, ip: Word32, now: nat)
    requires RuleMap.Refines(table, rules, clock) && RuleTable.Quiet(table) && now >= clock
    requires 1 <= prefix <= 32 && Network(m, prefix) < U32 && SubnetKey(Network(m, prefix), prefix) in rules
    requires rules[SubnetKey(Network(m, prefix), prefix)].expires > now
    ensures ReadIpv4(table, ip, prefix, now) == Found(rules[SubnetKey(Network(m, prefix), prefix)]) <==>
              InNetwork(ip, Network(m, prefix), prefix)
  {
    KeyCovers(ip, m, prefix);
    var key := Ipv4Key(ip, prefix);
    if key != 0 {
      RuleMap.QuietAnswer(table, rules, clock, key, now);
    }
  }
}
