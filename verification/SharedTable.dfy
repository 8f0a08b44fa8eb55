/** The shared rule table in non-overlapping use, updated in place. */
module SharedTable {
  import opened RuleSlots
  import opened RuleTable
  import opened RuleMap
  import opened Values

  class SharedRules {
    var slots: array<Entry>
    /** The rule last published for each key and not cleared since. */
    ghost var rules: Rules
    /** The latest clock that a publish read. */
    ghost var clock: nat

    ghost predicate Shaped()
      reads this, slots
    {
      slots.Length == CAPACITY && forall i :: 0 <= i < CAPACITY ==> slots[i].gen < U32_SIZE
    }

    ghost predicate Valid()
      reads this, slots
    {
      Shaped() && Refines(slots[..], rules, clock)
    }

    constructor ()
      ensures Valid() && Quiet(slots[..]) && fresh(slots)
      ensures rules == map[] && clock == 0
    {
      slots := new Entry[CAPACITY](i => Entry(0, EMPTY));
      rules, clock := map[], 0;
    }

    /** Takes the slot's lock; fails when the slot stays locked for the whole retry budget. */
    method Lock(i: nat) returns (acquired: bool)
      requires Shaped() && i < CAPACITY
      modifies slots
      ensures Shaped()
      ensures acquired == !Odd(old(slots[i].gen))
      ensures slots[..] == if acquired then old(slots[..])[i := old(slots[i]).(gen := Bump(old(slots[i].gen)))] else old(slots[..])
    {
      acquired := false;
      var spin := 0;
      while spin < RETRY_LIMIT
        invariant spin <= RETRY_LIMIT && slots[..] == old(slots[..])
        invariant spin > 0 ==> Odd(slots[i].gen)
      {
        var s := slots[i].gen;
        if !Odd(s) {
          slots[i] := slots[i].(gen := Bump(s));
          return true;
        }
        spin := spin + 1;
      }
    }

    /** Publishes a rule: it becomes the map's rule for its key, or nothing changes. */
    method Publish(key: nat, ttl: nat, tier: nat, rps: nat, shared: bool, now: nat) returns (ok: bool)
      requires Valid()
      modifies slots, this`rules, this`clock
      ensures Valid() && clock == if ok then Later(old(clock), now) else old(clock)
      ensures rules == if ok then old(rules)[key := PublishedPayload(key, now, ttl, tier, rps, shared)] else old(rules)
      ensures ok ==> Carries(rules[key], key, now, ttl, tier, rps, shared)
      ensures Quiet(old(slots[..])) ==> Quiet(slots[..])
      ensures ok == PublishSlot(old(slots[..]), key, now).Some?
      ensures slots[..] == if ok
                           then Overwrite(old(slots[..]), PublishSlot(old(slots[..]), key, now).value,
                                          PublishedPayload(key, now, ttl, tier, rps, shared))
                           else old(slots[..])
    {
      if key == 0 {
        return false;
      }
      ghost var table := slots[..];
      var selected := Select(key, now);
      if selected.None? {
        return false;
      }
      SelectedInRange(table, key, now);
      var p := PublishedPayload(key, now, ttl, tier, rps, shared);
      ok := Write(selected.value, key, now, p);
      if ok {
        PublishRefines(table, rules, clock, key, now, p);
        if Quiet(table) {
          StaysQuiet(table, Op.Publish(key, ttl, tier, rps, shared, now));
        }
        rules, clock := rules[key := p], Later(clock, now);
      }
    }

    /** The slot that already stores the key, else the first empty or expired one of its window. */
    method Select(key: nat, now: nat) returns (selected: Option<nat>)
      requires Shaped()
      ensures selected == Selected(slots[..], key, now)
    {
      ghost var table := slots[..];
      var probe := 0;
      while probe < PROBE_LIMIT
        invariant probe <= PROBE_LIMIT && KeyProbe(table, key, 0) == KeyProbe(table, key, probe)
      {
        if slots[SlotAt(key, probe)].rule.hash == key {
          return Some(SlotAt(key, probe));
        }
        probe := probe + 1;
      }
      probe := 0;
      while probe < PROBE_LIMIT
        invariant probe <= PROBE_LIMIT && FreeProbe(table, key, now, 0) == FreeProbe(table, key, now, probe)
      {
        var e := slots[SlotAt(key, probe)].rule;
        if e.hash == 0 || e.expires <= now {
          return Some(SlotAt(key, probe));
        }
        probe := probe + 1;
      }
      selected := None;
    }

    /** Overwrites a slot under its lock. Revalidation under the lock can fail only if another writer intervened. */
    method Write(i: nat, key: nat, now: nat, p: Payload) returns (ok: bool)
      requires Shaped() && i < CAPACITY && Claimable(slots[i].rule, key, now)
      modifies slots
      ensures Shaped() && ok == !Odd(old(slots[i].gen))
      ensures slots[..] == if ok then Overwrite(old(slots[..]), i, p) else old(slots[..])
    {
      ghost var table := slots[..];
      ok := Lock(i);
      if !ok {
        return;
      }
      assert Claimable(slots[i].rule, key, now);
      slots[i] := slots[i].(rule := p);
      slots[i] := slots[i].(gen := Bump(slots[i].gen));
      assert slots[..] == Overwrite(table, i, p);
    }

    /** Clears a slot that is not locked: the key it stored leaves the map. */
    method ClearSlot(i: nat, now: nat) returns (ok: bool)
      requires Valid() && i < CAPACITY
      modifies slots, this`rules
      ensures Valid() && ok == !Odd(old(slots[i].gen))
      ensures rules == if ok then old(rules) - {old(slots[i].rule.hash)} else old(rules)
      ensures Quiet(old(slots[..])) ==> Quiet(slots[..])
      ensures slots[..] == ClearAt(old(slots[..]), i, now)
    {
      ghost var table := slots[..];
      ok := Lock(i);
      if !ok {
        return;
      }
      slots[i] := slots[i].(rule := ClearedPayload(now));
      slots[i] := slots[i].(gen := Bump(slots[i].gen));
      assert slots[..] == Overwrite(table, i, ClearedPayload(now));
      ClearRefines(table, rules, clock, i, now);
      if Quiet(table) {
        StaysQuiet(table, Op.Clear(i, now));
      }
      rules := rules - {table[i].rule.hash};
    }

    /** Clears every slot in turn: the map is empty afterwards but for keys in slots that stay locked. */
    method FlushAll(now: nat)
      requires Valid()
      modifies slots, this`rules
      ensures Valid() && slots[..] == ClearFirst(old(slots[..]), CAPACITY, now)
      ensures rules == KeepLocked(old(slots[..]), old(rules))
      ensures Quiet(old(slots[..])) ==> Quiet(slots[..]) && rules == map[]
    {
      ghost var table, before := slots[..], rules;
      var i := 0;
      while i < CAPACITY
        invariant i <= CAPACITY && Valid()
        invariant slots[..] == ClearFirst(table, i, now)
      {
        var _ := ClearSlot(i, now);
        i := i + 1;
      }
      FlushRefines(table, before, clock, now);
      if Quiet(table) {
        StaysQuiet(table, Op.Flush(now));
      }
      rules := KeepLocked(table, before);
    }

    /** FOUND is the map's answer at any clock, MISS from the latest publish on; without locked slots every lookup from
        then on is the map's answer. */
    method Read(key: nat, now: nat) returns (r: Lookup)
      requires Valid()
      ensures r == TableAnswer(slots[..], key, now)
      ensures r.Found? ==> r == Answer(rules, key, now)
      ensures r == Miss && now >= clock ==> Answer(rules, key, now) == Miss
      ensures Quiet(slots[..]) && now >= clock ==> r == Answer(rules, key, now)
    {
      AnswerIsNeverWrong(slots[..], rules, clock, key, now);
      if Quiet(slots[..]) && now >= clock {
        QuietAnswer(slots[..], rules, clock, key, now);
      }
      r := Probe(key, now);
    }

    /** The probe and retry loops. */
    method Probe(key: nat, now: nat) returns (r: Lookup)
      requires Shaped()
      ensures r == TableAnswer(slots[..], key, now)
    {
      if key == 0 {
        return Invalid;
      }
      var contended := false;
      var probe := 0;
      while probe < PROBE_LIMIT
        invariant probe <= PROBE_LIMIT
        invariant ReadFrom(slots[..], key, now, 0, false) == ReadFrom(slots[..], key, now, probe, contended)
      {
        var e := slots[SlotAt(key, probe)];
        var coherent := false;
        var attempt := 0;
        while attempt < RETRY_LIMIT
          invariant attempt <= RETRY_LIMIT && !coherent
          invariant attempt > 0 ==> Odd(e.gen)
        {
          if !Odd(e.gen) {
            if Live(e.rule, key, now) {
              return Found(e.rule);
            }
            coherent := true;
            break;
          }
          attempt := attempt + 1;
        }
        contended := contended || !coherent;
        probe := probe + 1;
      }
      r := if contended then Contended else Miss;
    }
  }

  /** A rule that was published is read back with the publisher's own arguments for as long as it lives, and missed
      afterwards. */
  method PublishThenRead(table: SharedRules, key: nat, ttl: nat, tier: nat, rps: nat, shared: bool, now: nat, later: nat)
    returns (ok: bool, r: Lookup)
    requires table.Valid() && Quiet(table.slots[..]) && key != 0 && table.clock <= later && now <= later < U64_MAX
    modifies table, table.slots
    ensures ok && later < now + ttl ==> r.Found? && Carries(r.snapshot, key, now, ttl, tier, rps, shared)
    ensures ok && later >= now + ttl ==> r == Miss
  {
    ok := table.Publish(key, ttl, tier, rps, shared, now);
    r := table.Read(key, later);
  }
}
