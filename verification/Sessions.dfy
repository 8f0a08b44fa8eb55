/** Dashboard sessions and login lock-out. Instants are nanoseconds of the monotonic clock. */
module Sessions {
  import opened Values

  const TOKEN_CHARS: nat := 64
  const SWEEP_INTERVAL_SECS: int := 60
  const LOCKOUT_WINDOW: nat := 900_000_000_000
  const MAX_TRACKED_FAILURE_IPS: nat := 10_000
  const U32_MAX: nat := 0xFFFF_FFFF

  type u32 = n: nat | n <= U32_MAX

  // ----- Lock-out, as it would be with unbounded memory -----

  datatype Attempt = Attempt(ip: nat, at: nat)

  datatype Window = Window(count: nat, first: nat)

  function Elapsed(since: nat, now: nat): (d: nat) {
    if now >= since then now - since else 0
  }

  function Saturate(n: nat): (r: nat) {
    if n <= U32_MAX then n else U32_MAX
  }

  /** The window after one more failure: a new one when there is none or it has decayed. */
  function Advance(w: Option<Window>, now: nat): (r: Window) {
    if w.None? || Elapsed(w.value.first, now) >= LOCKOUT_WINDOW then Window(1, now)
    else w.value.(count := Saturate(w.value.count + 1))
  }

  /** The window of `ip` if every failure in `history` were remembered. */
  ghost function WindowOf(history: seq<Attempt>, ip: nat): (w: Option<Window>) {
    if history == [] then None
    else
      var before, last := WindowOf(history[..|history| - 1], ip), history[|history| - 1];
      if last.ip == ip then Some(Advance(before, last.at)) else before
  }

  predicate Locked(w: Option<Window>, max: nat, now: nat) {
    w.Some? && Elapsed(w.value.first, now) < LOCKOUT_WINDOW && w.value.count >= max
  }

  // ----- Lock-out in terms of the failures alone -----

  const FIFTEEN_MINUTES: nat := 15 * 60 * 1_000_000_000

  /** Failure `s` is one of `ip` and opens a window: every earlier one that did so is fifteen minutes past. */
  ghost predicate Opens(history: seq<Attempt>, ip: nat, s: nat) {
    && s < |history| && history[s].ip == ip
    && forall p: nat :: p < s && Opens(history, ip, p) ==> history[p].at + FIFTEEN_MINUTES <= history[s].at
  }

  /** How many of the failures from number `s` on are of `ip`. */
  ghost function FailuresFrom(history: seq<Attempt>, ip: nat, s: nat): (n: nat) {
    if |history| <= s then 0
    else FailuresFrom(history[..|history| - 1], ip, s) + if history[|history| - 1].ip == ip then 1 else 0
  }

  /** The address has had `max` failures, all of them since one that opened a window less than fifteen
      minutes ago. */
  ghost predicate LockedOut(history: seq<Attempt>, ip: nat, max: nat, now: nat) {
    exists s: nat :: Opens(history, ip, s) && now < history[s].at + FIFTEEN_MINUTES && FailuresFrom(history, ip, s) >= max
  }

  /** The failures are in order of time, up to `now`. */
  ghost predicate Ordered(history: seq<Attempt>, now: nat) {
    && (forall i, j :: 0 <= i <= j < |history| ==> history[i].at <= history[j].at)
    && (history != [] ==> history[|history| - 1].at <= now)
  }

  lemma {:induction false} OpensIsLocal(history: seq<Attempt>, ip: nat, s: nat, n: nat)
    requires s < n <= |history|
    ensures Opens(history[..n], ip, s) <==> Opens(history, ip, s)
    decreases s
  {
    forall p: nat | p < s ensures Opens(history[..n], ip, p) <==> Opens(history, ip, p) {
      OpensIsLocal(history, ip, p, n);
    }
  }

  /** The window of `history` is the one that failure `s` opened, the last to open one. */
  ghost predicate OpenedBy(w: Window, history: seq<Attempt>, ip: nat, s: nat) {
    && Opens(history, ip, s) && (forall q: nat :: Opens(history, ip, q) ==> q <= s)
    && w == Window(Saturate(FailuresFrom(history, ip, s)), history[s].at)
  }

  ghost predicate NoneOpens(history: seq<Attempt>, ip: nat) {
    forall q: nat :: !Opens(history, ip, q)
  }

  /** One more failure of another address. */
  lemma OthersOpenNothing(w: Window, history: seq<Attempt>, ip: nat, s: nat)
    requires history != [] && history[|history| - 1].ip != ip && OpenedBy(w, history[..|history| - 1], ip, s)
    ensures OpenedBy(w, history, ip, s)
  {
    var n := |history| - 1;
    forall q: nat | q < n ensures Opens(history[..n], ip, q) <==> Opens(history, ip, q) {
      OpensIsLocal(history, ip, q, n);
    }
  }

  /** One more failure of the address while the window is open. */
  lemma OpenWindowCounts(w: Window, history: seq<Attempt>, ip: nat, s: nat)
    requires history != [] && history[|history| - 1].ip == ip && OpenedBy(w, history[..|history| - 1], ip, s)
    requires history[|history| - 1].at < w.first + FIFTEEN_MINUTES
    ensures OpenedBy(w.(count := Saturate(w.count + 1)), history, ip, s)
  {
    var n := |history| - 1;
    forall q: nat | q < n ensures Opens(history[..n], ip, q) <==> Opens(history, ip, q) {
      OpensIsLocal(history, ip, q, n);
    }
    assert !Opens(history, ip, n);
  }

  /** One more failure of the address when no window is open. */
  lemma FailureOpens(history: seq<Attempt>, ip: nat)
    requires history != [] && history[|history| - 1].ip == ip
    requires var n := |history| - 1;
             forall q: nat :: Opens(history[..n], ip, q) ==> history[q].at + FIFTEEN_MINUTES <= history[n].at
    ensures OpenedBy(Window(1, history[|history| - 1].at), history, ip, |history| - 1)
  {
    var n := |history| - 1;
    forall q: nat | q < n ensures Opens(history[..n], ip, q) <==> Opens(history, ip, q) {
      OpensIsLocal(history, ip, q, n);
    }
    assert FailuresFrom(history, ip, n) == 1;
  }

  /** The reference window is the last one that a failure opened, with all failures of the address since. */
  lemma {:induction false} WindowIsOpened(history: seq<Attempt>, ip: nat, now: nat) returns (s: nat)
    requires Ordered(history, now)
    ensures WindowOf(history, ip).None? ==> NoneOpens(history, ip)
    ensures WindowOf(history, ip).Some? ==> OpenedBy(WindowOf(history, ip).value, history, ip, s)
    decreases |history|
  {
    s := 0;
    if history != [] {
      var n := |history| - 1;
      var before, last := history[..n], history[n];
      s := WindowIsOpened(before, ip, last.at);
      var w := WindowOf(before, ip);
      if last.ip != ip {
        NothingOpens(history, ip);
        if w.Some? {
          OthersOpenNothing(w.value, history, ip, s);
        }
      } else if w.Some? && Elapsed(w.value.first, last.at) < LOCKOUT_WINDOW {
        OpenWindowCounts(w.value, history, ip, s);
      } else {
        FailureOpens(history, ip);
        s := n;
      }
    }
  }

  lemma NothingOpens(history: seq<Attempt>, ip: nat)
    requires history != [] && history[|history| - 1].ip != ip
    ensures NoneOpens(history[..|history| - 1], ip) ==> NoneOpens(history, ip)
  {
    var n := |history| - 1;
    forall q: nat | q < n ensures Opens(history[..n], ip, q) <==> Opens(history, ip, q) {
      OpensIsLocal(history, ip, q, n);
    }
  }

  /** While a window is open, no later failure has opened one. */
  lemma OpenWindowIsLast(history: seq<Attempt>, ip: nat, q: nat, s: nat, now: nat)
    requires Ordered(history, now) && Opens(history, ip, q) && Opens(history, ip, s)
    requires now < history[q].at + FIFTEEN_MINUTES
    ensures s <= q
  {
    assert history[s].at <= history[|history| - 1].at;
  }

  /** With every failure remembered, an address is locked exactly from its last allowed failure until fifteen
      minutes after the failure that opened the window. */
  lemma LockedIff(history: seq<Attempt>, ip: nat, max: u32, now: nat)
    requires Ordered(history, now)
    ensures Locked(WindowOf(history, ip), max, now) <==> LockedOut(history, ip, max, now)
  {
    var s := WindowIsOpened(history, ip, now);
    var w := WindowOf(history, ip);
    if q: nat :| Opens(history, ip, q) && now < history[q].at + FIFTEEN_MINUTES && FailuresFrom(history, ip, q) >= max {
      OpenWindowIsLast(history, ip, q, s, now);
    }
  }

  /** How many failures `ip` had from `since` on. */
  ghost function FailuresSince(history: seq<Attempt>, ip: nat, since: nat): (n: nat) {
    if history == [] then 0
    else
      var before, last := FailuresSince(history[..|history| - 1], ip, since), history[|history| - 1];
      if last.ip == ip && last.at >= since then before + 1 else before
  }

  /** A window counts nothing but its own address's failures since it opened. */
  ghost predicate Earned(w: Window, history: seq<Attempt>, ip: nat, clock: nat) {
    w.first <= clock && w.count <= FailuresSince(history, ip, w.first)
  }

  lemma AdvanceIsEarned(w: Option<Window>, history: seq<Attempt>, ip: nat, clock: nat, now: nat)
    requires clock <= now && (w.Some? ==> Earned(w.value, history, ip, clock))
    ensures Earned(Advance(w, now), history + [Attempt(ip, now)], ip, now)
  {
    var h := history + [Attempt(ip, now)];
    assert h[..|h| - 1] == history;
  }

  lemma EarnedStays(w: Window, history: seq<Attempt>, ip: nat, clock: nat, a: Attempt)
    requires Earned(w, history, ip, clock) && clock <= a.at
    ensures Earned(w, history + [a], ip, a.at)
  {
    assert (history + [a])[..|history|] == history;
  }

  ghost predicate AllEarned(failures: map<nat, Window>, history: seq<Attempt>, clock: nat) {
    forall ip :: ip in failures ==> Earned(failures[ip], history, ip, clock)
  }

  /** The tracked windows are the reference windows, less decayed ones. */
  ghost predicate Exact(failures: map<nat, Window>, history: seq<Attempt>, clock: nat) {
    && (forall ip :: ip in failures ==> WindowOf(history, ip) == Some(failures[ip]))
    && (forall ip: nat :: ip !in failures && WindowOf(history, ip).Some? ==>
          Elapsed(WindowOf(history, ip).value.first, clock) >= LOCKOUT_WINDOW)
  }

  function Tracked(failures: map<nat, Window>, ip: nat): (w: Option<Window>) {
    if ip in failures then Some(failures[ip]) else None
  }

  lemma NotedIsEarned(failures: map<nat, Window>, kept: map<nat, Window>, history: seq<Attempt>, clock: nat, ip: nat, now: nat)
    requires AllEarned(failures, history, clock) && clock <= now
    requires forall j :: j in kept ==> j in failures && kept[j] == failures[j]
    ensures AllEarned(kept[ip := Advance(Tracked(failures, ip), now)], history + [Attempt(ip, now)], now)
  {
    var after := kept[ip := Advance(Tracked(failures, ip), now)];
    forall j | j in after ensures Earned(after[j], history + [Attempt(ip, now)], j, now) {
      if j == ip {
        AdvanceIsEarned(Tracked(failures, ip), history, ip, clock, now);
      } else {
        EarnedStays(after[j], history, j, clock, Attempt(ip, now));
      }
    }
  }

  lemma NotedIsExact(failures: map<nat, Window>, history: seq<Attempt>, clock: nat, ip: nat, now: nat)
    requires Exact(failures, history, clock) && clock <= now
    ensures Exact(failures[ip := Advance(Tracked(failures, ip), now)], history + [Attempt(ip, now)], now)
  {
    var h := history + [Attempt(ip, now)];
    assert h[..|h| - 1] == history;
    forall j: nat
      ensures WindowOf(h, j) == if j == ip then Some(Advance(WindowOf(history, ip), now)) else WindowOf(history, j)
    {
    }
    assert Advance(WindowOf(history, ip), now) == Advance(Tracked(failures, ip), now);
  }

  /** Bounded, earned, and exact until something is evicted. */
  ghost predicate Sound(failures: map<nat, Window>, history: seq<Attempt>, clock: nat, evictions: nat) {
    && |failures| <= MAX_TRACKED_FAILURE_IPS
    && Ordered(history, clock)
    && AllEarned(failures, history, clock)
    && (evictions == 0 ==> Exact(failures, history, clock))
  }

  /** Time passes. */
  lemma SoundLater(failures: map<nat, Window>, history: seq<Attempt>, clock: nat, evictions: nat, now: nat)
    requires Sound(failures, history, clock, evictions) && clock <= now
    ensures Sound(failures, history, now, evictions)
  {
    if evictions == 0 {
      forall ip: nat | ip !in failures && WindowOf(history, ip).Some?
        ensures Elapsed(WindowOf(history, ip).value.first, now) >= LOCKOUT_WINDOW
      {
      }
    }
  }

  /** What remains of the sessions after a sweep. */
  function Swept(sessions: map<string, nat>, ttl: nat, now: nat): (r: map<string, nat>) {
    sessions - (set t | t in sessions && Elapsed(sessions[t], now) >= ttl)
  }

  /** The live sessions are the registered ones, less expired ones. */
  ghost predicate Live(sessions: map<string, nat>, registered: map<string, nat>, ttl: nat, clock: nat) {
    && (forall t :: t in sessions ==> t in registered && sessions[t] == registered[t])
    && (forall t :: t in registered && t !in sessions ==> Elapsed(registered[t], clock) >= ttl)
  }

  lemma SweptIsLive(sessions: map<string, nat>, registered: map<string, nat>, ttl: nat, clock: nat, now: nat)
    requires Live(sessions, registered, ttl, clock) && clock <= now
    ensures Live(sessions, registered, ttl, now) && Live(Swept(sessions, ttl, now), registered, ttl, now)
  {
  }

  ghost predicate Room(before: map<nat, Window>, kept: map<nat, Window>, ip: nat) {
    && (forall j :: j in kept ==> j in before && kept[j] == before[j])
    && (if ip in before then kept == before else |kept| < MAX_TRACKED_FAILURE_IPS)
  }

  lemma NotedIsSound(before: map<nat, Window>, kept: map<nat, Window>, history: seq<Attempt>, clock: nat,
                     evictions: nat, ip: nat, now: nat)
    requires Sound(before, history, clock, evictions) || (evictions > 0 && Sound(before, history, clock, evictions - 1))
    requires Room(before, kept, ip) && clock <= now && (evictions == 0 ==> kept == before)
    ensures Sound(kept[ip := Advance(Tracked(before, ip), now)], history + [Attempt(ip, now)], now, evictions)
  {
    NotedIsEarned(before, kept, history, clock, ip, now);
    if evictions == 0 {
      NotedIsExact(before, history, clock, ip, now);
    }
    assert kept[ip := Advance(Tracked(before, ip), now)].Keys == kept.Keys + {ip};
  }

  class Auth {
    const ttl: nat
    const maxLoginAttempts: u32
    var sessions: map<string, nat>
    /** Wall-clock seconds of the last sweep. */
    var lastSweep: int
    var failures: map<nat, Window>

    /** Every token ever registered, with its latest registration. */
    ghost var registered: map<string, nat>
    /** Every failed login, in order. */
    ghost var history: seq<Attempt>
    ghost var clock: nat
    ghost var evictions: nat

    ghost predicate SessionsValid()
      reads this
    {
      Live(sessions, registered, ttl, clock)
    }

    ghost predicate FailuresValid()
      reads this
    {
      Sound(failures, history, clock, evictions)
    }

    ghost predicate Valid()
      reads this
    {
      SessionsValid() && FailuresValid()
    }

    constructor (ttl: nat, maxLoginAttempts: u32, wall: int, now: nat)
      ensures Valid() && clock == now
      ensures registered == map[] && history == [] && evictions == 0
      ensures this.ttl == ttl && this.maxLoginAttempts == maxLoginAttempts
    {
      this.ttl, this.maxLoginAttempts := ttl, maxLoginAttempts;
      sessions, failures, lastSweep := map[], map[], wall;
      registered, history, clock, evictions := map[], [], now, 0;
    }

    method RegisterSession(token: string, now: nat)
      requires Valid() && clock <= now
      modifies this`sessions, this`registered
      ensures Valid() && registered == old(registered)[token := now]
    {
      sessions := sessions[token := now];
      registered := registered[token := now];
    }

    /** A token is valid exactly when it has the right length and was registered less than the time to live
        ago. Neither the wall clock nor any sweep has a say. */
    method Validate(token: string, wall: int, now: nat) returns (ok: bool)
      requires Valid() && clock <= now
      modifies this`sessions, this`lastSweep, this`clock
      ensures Valid() && clock == now
      ensures ok <==> |token| == 64 && token in registered && Elapsed(registered[token], now) < ttl
    {
      SoundLater(failures, history, clock, evictions, now);
      SweptIsLive(sessions, registered, ttl, clock, now);
      clock := now;
      if |token| != TOKEN_CHARS {
        return false;
      }
      if wall - lastSweep >= SWEEP_INTERVAL_SECS {
        sessions := Swept(sessions, ttl, now);
        lastSweep := wall;
      }
      ok := token in sessions && Elapsed(sessions[token], now) < ttl;
    }

    /** Locked means locked for cause: at least the allowed number of the address's own failures in a window
        that is still open. Until something is evicted it is exactly what the full history says: locked while the
        allowed number has been reached in a window opened less than fifteen minutes ago. */
    method IsLocked(ip: nat, now: nat) returns (locked: bool)
      requires Valid() && clock <= now
      modifies this`failures, this`clock
      ensures Valid() && clock == now
      ensures locked ==> exists t: nat :: Elapsed(t, now) < LOCKOUT_WINDOW && FailuresSince(history, ip, t) >= maxLoginAttempts
      ensures evictions == 0 ==> (locked <==> Locked(WindowOf(history, ip), maxLoginAttempts, now))
      ensures evictions == 0 ==> (locked <==> LockedOut(history, ip, maxLoginAttempts, now))
    {
      LockedIff(history, ip, maxLoginAttempts, now);
      SoundLater(failures, history, clock, evictions, now);
      SweptIsLive(sessions, registered, ttl, clock, now);
      clock := now;
      if ip !in failures {
        return false;
      }
      if Elapsed(failures[ip].first, now) >= LOCKOUT_WINDOW {
        failures := failures - {ip};
        return false;
      }
      locked := failures[ip].count >= maxLoginAttempts;
      assert FailuresSince(history, ip, failures[ip].first) >= failures[ip].count;
    }

    /** One more failure. A new address at capacity takes the place of some tracked one. */
    method NoteFailure(ip: nat, now: nat)
      requires Valid() && clock <= now
      modifies this`failures, this`history, this`clock, this`evictions
      ensures Valid() && clock == now && history == old(history) + [Attempt(ip, now)]
      ensures ip in failures && failures[ip] == Advance(Tracked(old(failures), ip), now) && |failures| <= 10_000
      ensures ip in old(failures) || |old(failures)| < 10_000 ==>
                evictions == old(evictions) && failures == old(failures)[ip := failures[ip]]
    {
      var known := Tracked(failures, ip);
      ghost var before := failures;
      MakeRoom(ip);
      NotedIsSound(before, failures, history, clock, evictions, ip, now);
      failures := failures[ip := Advance(known, now)];
      history := history + [Attempt(ip, now)];
      clock := now;
    }

    method MakeRoom(ip: nat)
      requires |failures| <= MAX_TRACKED_FAILURE_IPS
      modifies this`failures, this`evictions
      ensures Room(old(failures), failures, ip)
      ensures if ip in old(failures) || |old(failures)| < MAX_TRACKED_FAILURE_IPS
              then failures == old(failures) && evictions == old(evictions)
              else evictions == old(evictions) + 1
    {
      if ip !in failures && |failures| >= MAX_TRACKED_FAILURE_IPS {
        var victim :| victim in failures;
        assert (failures - {victim}).Keys == failures.Keys - {victim};
        failures := failures - {victim};
        evictions := evictions + 1;
      }
    }
  }
}
