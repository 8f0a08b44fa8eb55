/** Slot layout, keys and probe windows of the shared-memory rule table. */
module RuleSlots {

  const CAPACITY: nat := 262144
  const PROBE_LIMIT: nat := 4
  const RETRY_LIMIT: nat := 64
  const FLAG_SHARED_INFRA: nat := 1
  const TIER_ALLOW: nat := 0
  const U32_SIZE: nat := 0x1_0000_0000
  const U64_MAX: nat := 0xFFFF_FFFF_FFFF_FFFF

  /** The seven payload words of a slot; `hash == 0` marks an empty slot. */
  datatype Payload = Payload(hash: nat, expires: nat, rps: nat, tier: nat, flags: nat,
                             seedLo: nat, seedHi: nat)

  const EMPTY: Payload := Payload(0, 0, 0, 0, 0, 0, 0)

  function SaturatingAdd(a: nat, b: nat): (r: nat) {
    if a + b <= U64_MAX then a + b else U64_MAX
  }

  predicate Odd(n: nat) {
    n % 2 == 1
  }

  /** The slot visited by probe number `probe` of `key`. */
  function SlotAt(key: nat, probe: nat): (i: nat)
    ensures i < CAPACITY
  {
    (key % CAPACITY + probe) % CAPACITY
  }

  ghost predicate InWindow(i: nat, key: nat) {
    exists probe: nat :: probe < PROBE_LIMIT && i == SlotAt(key, probe)
  }

  /** `p` is a rule for `key` that has not expired at clock `now`. */
  predicate Live(p: Payload, key: nat, now: nat) {
    p.hash == key && p.expires > now
  }

  /** What a publisher may overwrite: an empty slot, its own key, or an expired rule. */
  predicate Claimable(p: Payload, key: nat, now: nat) {
    p.hash == 0 || p.hash == key || p.expires <= now
  }

  /** The payload a publish leaves behind. */
  function PublishedPayload(key: nat, now: nat, ttl: nat, tier: nat, rps: nat, shared: bool): (p: Payload) {
    Payload(key, SaturatingAdd(now, ttl), rps, tier, if shared then FLAG_SHARED_INFRA else 0, 0, 0)
  }

  /** The payload a clear leaves behind. */
  function ClearedPayload(now: nat): (p: Payload) {
    Payload(0, now, 0, TIER_ALLOW, 0, 0, 0)
  }

  datatype Lookup = Found(snapshot: Payload) | Miss | Contended | Invalid

  /** Two probes of one window never meet. */
  lemma ProbesDistinct(key: nat, p: nat, q: nat)
    requires p < q < PROBE_LIMIT
    ensures SlotAt(key, p) != SlotAt(key, q)
  {
  }

  /** `p` is a rule with exactly these properties: the tier and rate given, the shared flag as the lowest bit, no seed, and
      the end of its time to live or the end of the clock. */
  predicate Carries(p: Payload, key: nat, now: nat, ttl: nat, tier: nat, rps: nat, shared: bool) {
    && p.hash == key && p.tier == tier && p.rps == rps && p.flags == (if shared then 1 else 0)
    && p.seedLo == 0 && p.seedHi == 0
    && p.expires == if now + ttl < 0x1_0000_0000_0000_0000 then now + ttl else 0xFFFF_FFFF_FFFF_FFFF
  }

  /** A published rule is live for its key alone, for exactly its time to live from the publish on; a time to live
      past the end of the clock lasts to the end of the clock instead of wrapping. */
  lemma PublishedLives(key: nat, now: nat, ttl: nat, tier: nat, rps: nat, shared: bool, k: nat, t: nat)
    requires t < U64_MAX
    ensures Live(PublishedPayload(key, now, ttl, tier, rps, shared), k, t) <==> k == key && t < now + ttl
    ensures Carries(PublishedPayload(key, now, ttl, tier, rps, shared), key, now, ttl, tier, rps, shared)
  {
  }
}
