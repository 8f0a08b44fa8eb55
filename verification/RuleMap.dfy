/** The rule table over whole runs of operations that do not overlap: it refines a map from keys to rules. */
module RuleMap {
  import opened RuleSlots
  import opened RuleTable
  import opened Values

  /** The rule last published for each key and not cleared since; expired rules stay until they are replaced. */
  type Rules = map<nat, Payload>

  ghost predicate Stored(table: Table, p: Payload) {
    exists i :: 0 <= i < |table| && table[i].rule == p
  }

  /** The table stores nothing but the map's rules, and all of them that live beyond `clock`. */
  ghost predicate Agrees(table: Table, rules: Rules, clock: nat) {
    && (forall k :: k in rules ==> k != 0 && rules[k].hash == k)
    && (forall i :: 0 <= i < |table| && table[i].rule.hash != 0 ==>
          table[i].rule.hash in rules && rules[table[i].rule.hash] == table[i].rule)
    && (forall k :: k in rules && rules[k].expires > clock ==> Stored(table, rules[k]))
  }

  ghost predicate Refines(table: Table, rules: Rules, clock: nat) {
    Tidy(table) && Agrees(table, rules, clock)
  }

  function Later(a: nat, b: nat): (r: nat) {
    if a <= b then b else a
  }

  // ----- One operation -----

  /** A successful publish puts its rule into the map. */
  lemma PublishRefines(table: Table, rules: Rules, clock: nat, key: nat, now: nat, p: Payload)
    requires Refines(table, rules, clock) && PublishSlot(table, key, now).Some? && p.hash == key
    ensures Refines(Overwrite(table, PublishSlot(table, key, now).value, p), rules[key := p], Later(clock, now))
  {
    PublishKeepsTidy(table, key, now, p);
    SelectedInRange(table, key, now);
    SelectedIsUnique(table, key, now);
    var i := PublishSlot(table, key, now).value;
    var table', rules' := Overwrite(table, i, p), rules[key := p];
    assert table'[i].rule == p;
    forall k | k in rules' && rules'[k].expires > Later(clock, now) ensures Stored(table', rules'[k]) {
      if k != key {
        var j :| 0 <= j < |table| && table[j].rule == rules[k];
        assert j != i && table'[j].rule == rules[k];
      }
    }
  }

  /** Clearing a slot takes the key it stored out of the map. */
  lemma ClearRefines(table: Table, rules: Rules, clock: nat, i: nat, now: nat)
    requires Refines(table, rules, clock) && i < CAPACITY && !Odd(table[i].gen)
    ensures Refines(ClearAt(table, i, now), rules - {table[i].rule.hash}, clock)
  {
    ClearKeepsTidy(table, i, now);
    var table', rules' := ClearAt(table, i, now), rules - {table[i].rule.hash};
    forall k | k in rules' && rules'[k].expires > clock ensures Stored(table', rules'[k]) {
      var j :| 0 <= j < |table| && table[j].rule == rules[k];
      assert j != i && table'[j].rule == rules[k];
    }
  }

  /** The keys whose slot is locked. */
  ghost predicate LockedKey(table: Table, k: nat) {
    exists i :: 0 <= i < |table| && Odd(table[i].gen) && table[i].rule.hash == k
  }

  ghost function KeepLocked(table: Table, rules: Rules): (r: Rules) {
    rules - (set k | k in rules && !LockedKey(table, k))
  }

  /** A flush empties the map, but for keys in slots that stay locked. */
  lemma FlushRefines(table: Table, rules: Rules, clock: nat, now: nat)
    requires Refines(table, rules, clock)
    ensures Refines(ClearFirst(table, CAPACITY, now), KeepLocked(table, rules), clock)
  {
    ClearFirstKeepsTidy(table, CAPACITY, now);
    var table', rules' := ClearFirst(table, CAPACITY, now), KeepLocked(table, rules);
    forall i | 0 <= i < CAPACITY
      ensures table'[i] == if !Odd(table[i].gen) then Entry(Bump(Bump(table[i].gen)), ClearedPayload(now)) else table[i]
    {
      ClearFirstAt(table, CAPACITY, now, i);
    }
    forall k | k in rules' ensures Stored(table', rules'[k]) {
      var i :| 0 <= i < |table| && Odd(table[i].gen) && table[i].rule.hash == k;
      assert table'[i].rule == rules[k];
    }
  }

  /** What the map answers. */
  function Answer(rules: Rules, key: nat, now: nat): (r: Lookup) {
    if key == 0 then Invalid
    else if key in rules && rules[key].expires > now then Found(rules[key])
    else Miss
  }

  function TableAnswer(table: Table, key: nat, now: nat): (r: Lookup)
    requires |table| == CAPACITY
  {
    if key == 0 then Invalid else ReadFrom(table, key, now, 0, false)
  }

  /** A lookup never contradicts the map: FOUND is the map's answer, at any clock, and MISS is the map's answer from
      the latest publish on. */
  lemma AnswerIsNeverWrong(table: Table, rules: Rules, clock: nat, key: nat, now: nat)
    requires Refines(table, rules, clock)
    ensures TableAnswer(table, key, now).Found? ==> TableAnswer(table, key, now) == Answer(rules, key, now)
    ensures TableAnswer(table, key, now) == Miss && now >= clock ==> Answer(rules, key, now) == Miss
  {
    if key != 0 {
      ReadIsNeverWrong(table, key, now);
      if key in rules && rules[key].expires > now && now >= clock {
        var i :| 0 <= i < |table| && table[i].rule == rules[key];
        assert Holds(table, key, now, rules[key]);
      }
    }
  }

  /** Without locked slots every lookup from the latest publish on is the map's answer. */
  lemma QuietAnswer(table: Table, rules: Rules, clock: nat, key: nat, now: nat)
    requires Refines(table, rules, clock) && Quiet(table) && now >= clock
    ensures TableAnswer(table, key, now) == Answer(rules, key, now)
  {
    AnswerIsNeverWrong(table, rules, clock, key, now);
    if key != 0 {
      ReadIsMapLookup(table, key, now, EMPTY);
      var r := ReadFrom(table, key, now, 0, false);
      if q :| Holds(table, key, now, q) {
        ReadIsMapLookup(table, key, now, q);
      }
    }
  }

  // ----- Any list of operations -----

  datatype Op =
    | Publish(key: nat, ttl: nat, tier: nat, rps: nat, shared: bool, now: nat)
    | Clear(slot: nat, now: nat)
    | Flush(now: nat)

  predicate ValidOp(op: Op) {
    op.Clear? ==> op.slot < CAPACITY
  }

  predicate ValidOps(ops: seq<Op>) {
    forall i :: 0 <= i < |ops| ==> ValidOp(ops[i])
  }

  function RuleOf(op: Op): (p: Payload)
    requires op.Publish?
  {
    PublishedPayload(op.key, op.now, op.ttl, op.tier, op.rps, op.shared)
  }

  /** The table after one operation. */
  function After(table: Table, op: Op): (r: Table)
    requires |table| == CAPACITY && ValidOp(op)
    ensures |r| == CAPACITY
  {
    match op
    case Publish(key, _, _, _, _, now) =>
      var i := PublishSlot(table, key, now);
      if i.Some? then Overwrite(table, i.value, RuleOf(op)) else table
    case Clear(slot, now) => ClearAt(table, slot, now)
    case Flush(now) => ClearFirst(table, CAPACITY, now)
  }

  /** What an operation does, as far as keys go: the rule it puts, the key it takes out, or everything. */
  datatype Effect = Put(rule: Payload) | Take(key: nat) | TakeAll | Nothing

  function EffectOf(table: Table, op: Op): (e: Effect)
    requires |table| == CAPACITY && ValidOp(op)
  {
    match op
    case Publish(key, _, _, _, _, now) => if PublishSlot(table, key, now).Some? then Put(RuleOf(op)) else Nothing
    case Clear(slot, _) => Take(table[slot].rule.hash)
    case Flush(_) => TakeAll
  }

  function Updated(rules: Rules, e: Effect): (r: Rules) {
    match e
    case Put(rule) => rules[rule.hash := rule]
    case Take(key) => rules - {key}
    case TakeAll => map[]
    case Nothing => rules
  }

  function EmptyTable(): (table: Table)
    ensures |table| == CAPACITY && forall i :: 0 <= i < CAPACITY ==> table[i] == Entry(0, EMPTY)
  {
    seq(CAPACITY, _ => Entry(0, EMPTY))
  }

  function RunTable(ops: seq<Op>): (table: Table)
    requires ValidOps(ops)
    ensures |table| == CAPACITY
  {
    if ops == [] then EmptyTable() else After(RunTable(ops[..|ops| - 1]), ops[|ops| - 1])
  }

  /** The effects of the operations, one by one. */
  function EffectsOf(ops: seq<Op>): (es: seq<Effect>)
    requires ValidOps(ops)
    ensures |es| == |ops|
  {
    if ops == [] then []
    else EffectsOf(ops[..|ops| - 1]) + [EffectOf(RunTable(ops[..|ops| - 1]), ops[|ops| - 1])]
  }

  /** The map after a list of effects: it knows nothing of slots. */
  function MapAfter(es: seq<Effect>): (rules: Rules) {
    if es == [] then map[] else Updated(MapAfter(es[..|es| - 1]), es[|es| - 1])
  }

  /** The latest clock that any of the operations read. */
  function LatestClock(ops: seq<Op>): (t: nat) {
    if ops == [] then 0 else Later(LatestClock(ops[..|ops| - 1]), ops[|ops| - 1].now)
  }

  lemma EmptyRefines()
    ensures Refines(EmptyTable(), map[], 0) && Quiet(EmptyTable())
  {
  }

  lemma LaterAgrees(table: Table, rules: Rules, clock: nat, now: nat)
    requires Refines(table, rules, clock)
    ensures Refines(table, rules, Later(clock, now))
  {
  }

  lemma BumpTwice(gen: nat)
    requires gen < U32_SIZE
    ensures Bump(gen) < U32_SIZE && Odd(Bump(gen)) == !Odd(gen) && Odd(Bump(Bump(gen))) == Odd(gen)
  {
  }

  /** No operation locks a slot or unlocks one. */
  lemma ParityStays(table: Table, op: Op, i: nat)
    requires Tidy(table) && ValidOp(op) && i < CAPACITY
    ensures Odd(After(table, op)[i].gen) == Odd(table[i].gen)
  {
    BumpTwice(table[i].gen);
    if op.Flush? {
      ClearFirstAt(table, CAPACITY, op.now, i);
    }
  }

  lemma StaysQuiet(table: Table, op: Op)
    requires Tidy(table) && Quiet(table) && ValidOp(op)
    ensures Quiet(After(table, op))
  {
    forall i | 0 <= i < CAPACITY ensures !Odd(After(table, op)[i].gen) {
      ParityStays(table, op, i);
    }
  }

  lemma StepRefines(table: Table, rules: Rules, clock: nat, op: Op)
    requires Refines(table, rules, clock) && Quiet(table) && ValidOp(op)
    ensures Refines(After(table, op), Updated(rules, EffectOf(table, op)), Later(clock, op.now)) && Quiet(After(table, op))
  {
    StaysQuiet(table, op);
    match op
    case Publish(key, _, _, _, _, now) =>
      if PublishSlot(table, key, now).Some? {
        PublishRefines(table, rules, clock, key, now, RuleOf(op));
      } else {
        LaterAgrees(table, rules, clock, now);
      }
    case Clear(slot, now) =>
      ClearRefines(table, rules, clock, slot, now);
      LaterAgrees(After(table, op), Updated(rules, EffectOf(table, op)), clock, now);
    case Flush(now) =>
      FlushRefines(table, rules, clock, now);
      assert KeepLocked(table, rules) == map[];
      LaterAgrees(After(table, op), map[], clock, now);
  }

  lemma {:induction false} RunRefines(ops: seq<Op>)
    requires ValidOps(ops)
    ensures Refines(RunTable(ops), MapAfter(EffectsOf(ops)), LatestClock(ops)) && Quiet(RunTable(ops))
  {
    if ops == [] {
      EmptyRefines();
    } else {
      var before, op := ops[..|ops| - 1], ops[|ops| - 1];
      RunRefines(before);
      StepRefines(RunTable(before), MapAfter(EffectsOf(before)), LatestClock(before), op);
      assert EffectsOf(ops)[..|before|] == EffectsOf(before);
    }
  }

  /** After any list of operations, in any clock order, a lookup answers as the map does from the latest clock
      on; at earlier clocks it never reports a rule that the map does not hold. */
  lemma TableIsMap(ops: seq<Op>, key: nat, now: nat)
    requires ValidOps(ops)
    ensures now >= LatestClock(ops) ==>
              TableAnswer(RunTable(ops), key, now) == Answer(MapAfter(EffectsOf(ops)), key, now)
    ensures TableAnswer(RunTable(ops), key, now).Found? ==>
              TableAnswer(RunTable(ops), key, now) == Answer(MapAfter(EffectsOf(ops)), key, now)
  {
    RunRefines(ops);
    AnswerIsNeverWrong(RunTable(ops), MapAfter(EffectsOf(ops)), LatestClock(ops), key, now);
    if now >= LatestClock(ops) {
      QuietAnswer(RunTable(ops), MapAfter(EffectsOf(ops)), LatestClock(ops), key, now);
    }
  }

  /** After any list of operations a publish is refused exactly for the reserved key and for a window full of live
      rules of other keys. */
  lemma RefusedIff(ops: seq<Op>, key: nat, now: nat)
    requires ValidOps(ops)
    ensures PublishSlot(RunTable(ops), key, now).None? <==>
              key == 0 || forall p: nat :: p < PROBE_LIMIT ==>
                            var rule := RunTable(ops)[SlotAt(key, p)].rule;
                            rule.hash != 0 && rule.hash != key && rule.expires > now
  {
    RunRefines(ops);
    PublishFailsIff(RunTable(ops), key, now);
    SelectedInRange(RunTable(ops), key, now);
  }
}
