/** The rule table when operations do not overlap: a map from keys to rules with expiry. */
module RuleTable {
  import opened RuleSlots
  import opened Values

  /** One slot: the 32-bit sequence word (odd while a writer holds the slot) and the rule. */
  datatype Entry = Entry(gen: nat, rule: Payload)

  type Table = seq<Entry>

  function Bump(gen: nat): (r: nat) {
    (gen + 1) % U32_SIZE
  }

  /** Every slot is in range, every stored key lies in its own probe window, and in no second slot. */
  ghost predicate Tidy(table: Table) {
    && |table| == CAPACITY
    && (forall i :: 0 <= i < CAPACITY ==> table[i].gen < U32_SIZE)
    && (forall i :: 0 <= i < CAPACITY && table[i].rule.hash != 0 ==> InWindow(i, table[i].rule.hash))
    && (forall i, j :: 0 <= i < CAPACITY && 0 <= j < CAPACITY && table[i].rule.hash == table[j].rule.hash != 0 ==> i == j)
  }

  /** No slot is left locked. */
  ghost predicate Quiet(table: Table) {
    forall i :: 0 <= i < |table| ==> !Odd(table[i].gen)
  }

  /** The abstract map: `p` is the rule for `key` at clock `t`, wherever in the table it sits. */
  ghost predicate Holds(table: Table, key: nat, t: nat, p: Payload) {
    exists i :: 0 <= i < |table| && table[i].rule == p && Live(p, key, t)
  }

  /** First probe of `key` whose slot already stores it. */
  function KeyProbe(table: Table, key: nat, probe: nat): (r: Option<nat>)
    requires |table| == CAPACITY && probe <= PROBE_LIMIT
    decreases PROBE_LIMIT - probe
  {
    if probe == PROBE_LIMIT then None
    else if table[SlotAt(key, probe)].rule.hash == key then Some(SlotAt(key, probe))
    else KeyProbe(table, key, probe + 1)
  }

  /** First probe of `key` whose slot is empty or expired. */
  function FreeProbe(table: Table, key: nat, now: nat, probe: nat): (r: Option<nat>)
    requires |table| == CAPACITY && probe <= PROBE_LIMIT
    decreases PROBE_LIMIT - probe
  {
    if probe == PROBE_LIMIT then None
    else if table[SlotAt(key, probe)].rule.hash == 0 || table[SlotAt(key, probe)].rule.expires <= now then Some(SlotAt(key, probe))
    else FreeProbe(table, key, now, probe + 1)
  }

  function Selected(table: Table, key: nat, now: nat): (r: Option<nat>)
    requires |table| == CAPACITY
  {
    var found := KeyProbe(table, key, 0);
    if found.Some? then found else FreeProbe(table, key, now, 0)
  }

  /** The slot a publish writes; `None` when it reports failure. */
  function PublishSlot(table: Table, key: nat, now: nat): (r: Option<nat>)
    requires |table| == CAPACITY
    ensures r.Some? ==> r.value < CAPACITY
  {
    if key == 0 then None
    else
      var s := Selected(table, key, now);
      SelectedInRange(table, key, now);
      if s.Some? && !Odd(table[s.value].gen) then s else None
  }

  /** A slot overwritten under its lock. */
  function Overwrite(table: Table, i: nat, p: Payload): (r: Table)
    requires i < |table|
  {
    table[i := Entry(Bump(Bump(table[i].gen)), p)]
  }

  function ClearAt(table: Table, i: nat, now: nat): (r: Table)
    requires i < |table|
  {
    if Odd(table[i].gen) then table else Overwrite(table, i, ClearedPayload(now))
  }

  /** The first `n` slots cleared. */
  function ClearFirst(table: Table, n: nat, now: nat): (r: Table)
    requires n <= |table|
    ensures |r| == |table|
  {
    if n == 0 then table else ClearAt(ClearFirst(table, n - 1, now), n - 1, now)
  }

  /** The outcome of a lookup from probe `probe` on. */
  function ReadFrom(table: Table, key: nat, now: nat, probe: nat, contended: bool): (r: Lookup)
    requires |table| == CAPACITY && probe <= PROBE_LIMIT
    decreases PROBE_LIMIT - probe
  {
    if probe == PROBE_LIMIT then (if contended then Contended else Miss)
    else
      var e := table[SlotAt(key, probe)];
      if Odd(e.gen) then ReadFrom(table, key, now, probe + 1, true)
      else if Live(e.rule, key, now) then Found(e.rule)
      else ReadFrom(table, key, now, probe + 1, contended)
  }

  // ----- The table as a map -----

  /** The search finds the first slot of the window that stores the key. */
  lemma {:induction false} KeyProbeMeaning(table: Table, key: nat, probe: nat)
    requires |table| == CAPACITY && probe <= PROBE_LIMIT
    ensures var r := KeyProbe(table, key, probe);
            && (r.Some? ==> r.value < CAPACITY && table[r.value].rule.hash == key && InWindow(r.value, key))
            && (r.Some? ==> exists q: nat :: probe <= q < PROBE_LIMIT && r.value == SlotAt(key, q) && NoKeyIn(table, key, probe, q))
            && (r.None? ==> NoKeyIn(table, key, probe, PROBE_LIMIT))
    decreases PROBE_LIMIT - probe
  {
    if probe < PROBE_LIMIT {
      if table[SlotAt(key, probe)].rule.hash == key {
        assert NoKeyIn(table, key, probe, probe);
      } else {
        KeyProbeMeaning(table, key, probe + 1);
        var r := KeyProbe(table, key, probe + 1);
        if r.Some? {
          var q: nat :| probe + 1 <= q < PROBE_LIMIT && r.value == SlotAt(key, q) && NoKeyIn(table, key, probe + 1, q);
          assert NoKeyIn(table, key, probe, q);
        }
      }
    }
  }

  /** None of the probes from `probe` up to `q` stores the key. */
  ghost predicate NoKeyIn(table: Table, key: nat, probe: nat, q: nat)
    requires |table| == CAPACITY
  {
    forall p: nat :: probe <= p < q ==> table[SlotAt(key, p)].rule.hash != key
  }

  /** The search finds the first slot of the window that is empty or expired. */
  lemma {:induction false} FreeProbeMeaning(table: Table, key: nat, now: nat, probe: nat)
    requires |table| == CAPACITY && probe <= PROBE_LIMIT
    ensures var r := FreeProbe(table, key, now, probe);
            && (r.Some? ==> r.value < CAPACITY && InWindow(r.value, key) && (table[r.value].rule.hash == 0 || table[r.value].rule.expires <= now))
            && (r.Some? ==> exists q: nat :: probe <= q < PROBE_LIMIT && r.value == SlotAt(key, q) && NoRoomIn(table, key, now, probe, q))
            && (r.None? ==> NoRoomIn(table, key, now, probe, PROBE_LIMIT))
    decreases PROBE_LIMIT - probe
  {
    if probe < PROBE_LIMIT {
      var rule := table[SlotAt(key, probe)].rule;
      if rule.hash == 0 || rule.expires <= now {
        assert NoRoomIn(table, key, now, probe, probe);
      } else {
        FreeProbeMeaning(table, key, now, probe + 1);
        var r := FreeProbe(table, key, now, probe + 1);
        if r.Some? {
          var q: nat :| probe + 1 <= q < PROBE_LIMIT && r.value == SlotAt(key, q) && NoRoomIn(table, key, now, probe + 1, q);
          assert NoRoomIn(table, key, now, probe, q);
        }
      }
    }
  }

  /** All probes from `probe` up to `q` hold a rule that has not expired. */
  ghost predicate NoRoomIn(table: Table, key: nat, now: nat, probe: nat, q: nat)
    requires |table| == CAPACITY
  {
    forall p: nat :: probe <= p < q ==> table[SlotAt(key, p)].rule.hash != 0 && table[SlotAt(key, p)].rule.expires > now
  }

  lemma SelectedInRange(table: Table, key: nat, now: nat)
    requires |table| == CAPACITY
    ensures var r := Selected(table, key, now);
            r.Some? ==> r.value < CAPACITY && InWindow(r.value, key) && Claimable(table[r.value].rule, key, now)
  {
    KeyProbeMeaning(table, key, 0);
    FreeProbeMeaning(table, key, now, 0);
  }

  /** A publish takes an old slot of its key if there is one anywhere in the table. */
  lemma SelectedIsUnique(table: Table, key: nat, now: nat)
    requires Tidy(table) && key != 0 && Selected(table, key, now).Some?
    ensures var i := Selected(table, key, now).value;
            i < CAPACITY && forall j :: 0 <= j < CAPACITY && table[j].rule.hash == key ==> j == i
  {
    SelectedInRange(table, key, now);
    KeyProbeMeaning(table, key, 0);
    forall j | 0 <= j < CAPACITY && table[j].rule.hash == key
      ensures j == Selected(table, key, now).value
    {
      assert InWindow(j, key);
    }
  }

  /** A successful publish keeps every key in its window and in one slot only. */
  lemma PublishKeepsTidy(table: Table, key: nat, now: nat, p: Payload)
    requires Tidy(table) && PublishSlot(table, key, now).Some? && p.hash == key
    ensures Tidy(Overwrite(table, PublishSlot(table, key, now).value, p))
  {
    SelectedInRange(table, key, now);
    SelectedIsUnique(table, key, now);
  }

  /** A successful publish changes the lookup of its own key, to the new rule for as long as that
      lives, and of no other key, at every clock from the publish on. */
  lemma PublishUpdatesOneKey(table: Table, key: nat, now: nat, p: Payload, k: nat, t: nat, q: Payload)
    requires Tidy(table) && PublishSlot(table, key, now).Some? && p.hash == key && k != 0 && t >= now
    ensures Holds(Overwrite(table, PublishSlot(table, key, now).value, p), k, t, q)
            <==> if k == key then q == p && p.expires > t else Holds(table, k, t, q)
  {
    SelectedInRange(table, key, now);
    SelectedIsUnique(table, key, now);
    var i := PublishSlot(table, key, now).value;
    var table' := Overwrite(table, i, p);
    assert table'[i].rule == p;
    if Holds(table, k, t, q) {
      var j :| 0 <= j < |table| && table[j].rule == q && Live(q, k, t);
      assert j != i ==> table'[j].rule == q;
    }
  }

  /** Publishing fails exactly for the reserved key, for a full window of live foreign rules, or for a
      selected slot that stays locked. */
  lemma PublishFailsIff(table: Table, key: nat, now: nat)
    requires Tidy(table)
    ensures PublishSlot(table, key, now).None? <==>
              || key == 0
              || (forall p: nat :: p < PROBE_LIMIT ==>
                    var rule := table[SlotAt(key, p)].rule;
                    rule.hash != 0 && rule.hash != key && rule.expires > now)
              || (Selected(table, key, now).Some? && Odd(table[Selected(table, key, now).value].gen))
  {
    SelectedInRange(table, key, now);
    KeyProbeMeaning(table, key, 0);
    FreeProbeMeaning(table, key, now, 0);
    if key != 0 && Selected(table, key, now).Some? {
      var i := Selected(table, key, now).value;
      var p: nat :| p < PROBE_LIMIT && i == SlotAt(key, p);
    }
  }

  lemma ClearKeepsTidy(table: Table, i: nat, now: nat)
    requires Tidy(table) && i < CAPACITY
    ensures Tidy(ClearAt(table, i, now))
  {
  }

  /** Clearing a slot removes the rule it held and changes no other key's lookup, including keys
      further along the same probe. */
  lemma ClearRemovesOneKey(table: Table, i: nat, now: nat, k: nat, t: nat, q: Payload)
    requires Tidy(table) && i < CAPACITY && !Odd(table[i].gen) && k != 0
    ensures Tidy(ClearAt(table, i, now))
    ensures Holds(ClearAt(table, i, now), k, t, q) <==> table[i].rule.hash != k && Holds(table, k, t, q)
  {
    var table' := ClearAt(table, i, now);
    if Holds(table, k, t, q) {
      var j :| 0 <= j < |table| && table[j].rule == q && Live(q, k, t);
      assert j != i ==> table'[j].rule == q;
    }
    if Holds(table', k, t, q) {
      var j :| 0 <= j < |table'| && table'[j].rule == q && Live(q, k, t);
      assert table[j].rule == q;
    }
  }

  lemma {:induction false} ClearFirstAt(table: Table, n: nat, now: nat, i: nat)
    requires n <= |table| && i < |table|
    ensures ClearFirst(table, n, now)[i] ==
              if i < n && !Odd(table[i].gen) then Entry(Bump(Bump(table[i].gen)), ClearedPayload(now)) else table[i]
  {
    if n > 0 {
      ClearFirstAt(table, n - 1, now, i);
    }
  }

  lemma {:induction false} ClearFirstKeepsTidy(table: Table, n: nat, now: nat)
    requires Tidy(table) && n <= CAPACITY
    ensures Tidy(ClearFirst(table, n, now))
  {
    if n > 0 {
      ClearFirstKeepsTidy(table, n - 1, now);
      ClearKeepsTidy(ClearFirst(table, n - 1, now), n - 1, now);
    }
  }

  /** A flush leaves exactly the rules of slots that stayed locked, and the table tidy. */
  lemma FlushLeavesLocked(table: Table, now: nat, k: nat, t: nat, q: Payload)
    requires Tidy(table) && k != 0
    ensures Tidy(ClearFirst(table, CAPACITY, now))
    ensures Holds(ClearFirst(table, CAPACITY, now), k, t, q)
            <==> exists i :: 0 <= i < CAPACITY && Odd(table[i].gen) && table[i].rule == q && Live(q, k, t)
  {
    ClearFirstKeepsTidy(table, CAPACITY, now);
    var table' := ClearFirst(table, CAPACITY, now);
    forall i | 0 <= i < CAPACITY
      ensures table'[i] == if !Odd(table[i].gen) then Entry(Bump(Bump(table[i].gen)), ClearedPayload(now)) else table[i]
    {
      ClearFirstAt(table, CAPACITY, now, i);
    }
  }

  lemma {:induction false} ReadFromMeaning(table: Table, key: nat, now: nat, probe: nat, contended: bool)
    requires |table| == CAPACITY && probe <= PROBE_LIMIT
    ensures var r := ReadFrom(table, key, now, probe, contended);
            && !r.Invalid?
            && (r.Found? ==> Holds(table, key, now, r.snapshot))
            && (!r.Found? ==> forall p: nat :: probe <= p < PROBE_LIMIT && !Odd(table[SlotAt(key, p)].gen) ==> !Live(table[SlotAt(key, p)].rule, key, now))
            && (r == Miss <==> !r.Found? && !contended && forall p: nat :: probe <= p < PROBE_LIMIT ==> !Odd(table[SlotAt(key, p)].gen))
    decreases PROBE_LIMIT - probe
  {
    if probe < PROBE_LIMIT {
      var e := table[SlotAt(key, probe)];
      ReadFromMeaning(table, key, now, probe + 1, contended || Odd(e.gen));
    }
  }

  /** On a table without locked slots a lookup is the map lookup: FOUND with a rule exactly when the
      table holds that rule for the key at this clock, MISS exactly when it holds none. */
  lemma ReadIsMapLookup(table: Table, key: nat, now: nat, p: Payload)
    requires Tidy(table) && Quiet(table) && key != 0
    ensures ReadFrom(table, key, now, 0, false) == Found(p) <==> Holds(table, key, now, p)
    ensures ReadFrom(table, key, now, 0, false) == Miss <==> forall q :: !Holds(table, key, now, q)
  {
    ReadFromMeaning(table, key, now, 0, false);
    var r := ReadFrom(table, key, now, 0, false);
    forall q | Holds(table, key, now, q)
      ensures r == Found(q)
    {
      var i :| 0 <= i < |table| && table[i].rule == q && Live(q, key, now);
      assert InWindow(i, key);
      var probe: nat :| probe < PROBE_LIMIT && i == SlotAt(key, probe);
    }
  }

  /** With some slots locked a lookup is still never wrong: FOUND is a rule the table holds, and MISS
      means it holds none. */
  lemma ReadIsNeverWrong(table: Table, key: nat, now: nat)
    requires Tidy(table) && key != 0
    ensures var r := ReadFrom(table, key, now, 0, false);
            && (r.Found? ==> Holds(table, key, now, r.snapshot))
            && (r == Miss ==> forall q :: !Holds(table, key, now, q))
  {
    ReadFromMeaning(table, key, now, 0, false);
  }
}
