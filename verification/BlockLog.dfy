/** The write-ahead log of block decisions, and what folding it means. */
module BlockLog {
  import opened Values

  const U64_MAX: nat := 0xFFFF_FFFF_FFFF_FFFF
  const NS_PER_SEC: nat := 1_000_000_000

  /** Addresses and prefixes are independent detention domains. */
  datatype Key = Ip(addr: nat) | Net(prefix: nat)

  datatype Reason = HighRps | SubnetBatch | ForecastAnomaly | EntropyAnomaly | ManualBlock
                  | L7HighRps | L7Cost | Http2StreamAbuse

  function ReasonName(r: Reason): (s: string) {
    match r
    case HighRps => "high_rps"
    case SubnetBatch => "subnet_burst"
    case ForecastAnomaly => "forecast_anomaly"
    case EntropyAnomaly => "entropy_anomaly"
    case ManualBlock => "manual"
    case L7HighRps => "l7_high_rps"
    case L7Cost => "l7_cost"
    case Http2StreamAbuse => "http2_stream_abuse"
  }

  function ReasonOf(s: string): (r: Option<Reason>) {
    if s in {"high_rps", "syn_flood", "volumetric", "slowloris"} then Some(HighRps)
    else if s == "subnet_burst" then Some(SubnetBatch)
    else if s == "forecast_anomaly" then Some(ForecastAnomaly)
    else if s in {"entropy_anomaly", "anomaly"} then Some(EntropyAnomaly)
    else if s in {"manual", "manual_unblock", "manual_block", "mesh_final", "mesh_purge", "mesh-final", "mesh-purge"} then
      Some(ManualBlock)
    else if s == "l7_high_rps" then Some(L7HighRps)
    else if s == "l7_cost" then Some(L7Cost)
    else if s == "http2_stream_abuse" then Some(Http2StreamAbuse)
    else None
  }

  /** The reason a snapshot's or a log record's text stands for. */
  function ReasonOrManual(s: string): (r: Reason) {
    var r := ReasonOf(s);
    if r.Some? then r.value else ManualBlock
  }

  /** A reason survives being written as text and read back. */
  lemma ReasonSurvives(r: Reason)
    ensures ReasonOf(ReasonName(r)) == Some(r)
  {
  }

  /** A detention: why, since when, and until when; without a deadline it is permanent. */
  datatype Block = Block(reason: Reason, since: nat, deadline: Option<nat>)

  /** Whether a deadline is still ahead at `now`. */
  predicate Ahead(deadline: Option<nat>, now: nat) {
    deadline.None? || deadline.value > now
  }

  datatype Entry =
    | Blocked(key: Key, reason: Reason, ttl: Option<nat>, ts: nat)
    | Unblocked(key: Key)
    | Traffic

  function Min(a: nat, b: nat): (r: nat) {
    if a <= b then a else b
  }

  /** The absolute deadline of a time to live, saturating at the machine word. */
  function DeadlineOf(ttl: Option<nat>, ts: nat): (r: Option<nat>) {
    if ttl.None? then None else Some(Min(ts + Min(ttl.value * NS_PER_SEC, U64_MAX), U64_MAX))
  }

  /** What a log record says about its key. Prefixes keep neither reason nor start. */
  function Logged(e: Entry): (b: Block)
    requires e.Blocked?
  {
    Block(if e.key.Ip? then e.reason else ManualBlock, if e.key.Ip? then e.ts else 0, DeadlineOf(e.ttl, e.ts))
  }

  type Blocks = map<Key, Block>

  function Step(m: Blocks, e: Entry): (r: Blocks) {
    match e
    case Blocked(k, _, _, _) => m[k := Logged(e)]
    case Unblocked(k) => m - {k}
    case Traffic => m
  }

  /** Last writer wins, key by key, starting from `seed`. */
  function Fold(seed: Blocks, log: seq<Entry>): (r: Blocks) {
    if log == [] then seed else Step(Fold(seed, log[..|log| - 1]), log[|log| - 1])
  }

  predicate Names(e: Entry, k: Key) {
    !e.Traffic? && e.key == k
  }

  predicate Touched(log: seq<Entry>, k: Key) {
    log != [] && (Names(log[|log| - 1], k) || Touched(log[..|log| - 1], k))
  }

  /** The block of `k`, if there is one. */
  function At(m: Blocks, k: Key): (r: Option<Block>) {
    if k in m then Some(m[k]) else None
  }

  predicate Standing(x: Option<Block>, now: nat) {
    x.Some? && Ahead(x.value.deadline, now)
  }

  ghost predicate SameAt(x: Blocks, y: Blocks, k: Key) {
    (k in x <==> k in y) && (k in x ==> x[k] == y[k])
  }

  /** Folding a log in two parts is folding it at once. */
  lemma {:induction false} FoldSplit(seed: Blocks, a: seq<Entry>, b: seq<Entry>)
    ensures Fold(seed, a + b) == Fold(Fold(seed, a), b)
    decreases |b|
  {
    if b == [] {
      assert a + b == a;
    } else {
      FoldSplit(seed, a, b[..|b| - 1]);
      assert (a + b)[..|a + b| - 1] == a + b[..|b| - 1];
    }
  }

  /** A key that the log names ends up the same from any seed; any other key keeps what the seed says. */
  lemma {:induction false} FoldByKey(x: Blocks, y: Blocks, log: seq<Entry>, k: Key)
    ensures Touched(log, k) ==> SameAt(Fold(x, log), Fold(y, log), k)
    ensures !Touched(log, k) ==> SameAt(Fold(x, log), x, k)
  {
    if log != [] {
      FoldByKey(x, y, log[..|log| - 1], k);
    }
  }

  /** The last record of the log that names `k`. */
  function LastOf(log: seq<Entry>, k: Key): (r: Option<Entry>)
    ensures r.Some? ==> Names(r.value, k)
  {
    if log == [] then None
    else if Names(log[|log| - 1], k) then Some(log[|log| - 1])
    else LastOf(log[..|log| - 1], k)
  }

  /** A fold key by key: the last record that names the key decides, and the seed if there is none. */
  lemma {:induction false} FoldAt(seed: Blocks, log: seq<Entry>, k: Key)
    ensures var e, m := LastOf(log, k), Fold(seed, log);
            match e
            case None => SameAt(m, seed, k)
            case Some(Blocked(_, _, _, _)) => k in m && m[k] == Logged(e.value)
            case Some(Unblocked(_)) => k !in m
            case Some(Traffic) => false
  {
    if log != [] {
      FoldAt(seed, log[..|log| - 1], k);
    }
  }

  /** What the last record naming a key makes of the block it had. */
  function ReplayAt(x: Option<Block>, last: Option<Entry>): (r: Option<Block>) {
    match last
    case None => x
    case Some(e) => if e.Blocked? then Some(Logged(e)) else None
  }

  lemma FoldView(seed: Blocks, log: seq<Entry>, k: Key)
    ensures At(Fold(seed, log), k) == ReplayAt(At(seed, k), LastOf(log, k))
  {
    FoldAt(seed, log, k);
  }

  /** `t` lies within the time to live of a block record: without one always, with one of `s` seconds before `s` seconds
      after its own timestamp, or before the end of the clock. */
  predicate Lasts(e: Entry, t: nat)
    requires e.Blocked?
  {
    e.ttl.Some? ==> t < e.ts + e.ttl.value * 1_000_000_000 && t < 0xFFFF_FFFF_FFFF_FFFF
  }

  /** After a replay a key is blocked exactly within the time to live of the last record naming it, if that is a block; its
      deadline is that instant, or the end of the clock if that comes first. An address has the reason and the start of
      the record. */
  lemma ReplayedBlock(seed: Blocks, log: seq<Entry>, k: Key, t: nat)
    requires LastOf(log, k).Some?
    ensures var e, x := LastOf(log, k).value, At(Fold(seed, log), k);
            && (Standing(x, t) <==> e.Blocked? && Lasts(e, t))
            && (e.Blocked? ==>
                  && x.Some? && (e.ttl.None? <==> x.value.deadline.None?)
                  && (e.ttl.Some? ==>
                        var end := e.ts + e.ttl.value * 1_000_000_000;
                        x.value.deadline.value == if end <= 0xFFFF_FFFF_FFFF_FFFF then end else 0xFFFF_FFFF_FFFF_FFFF)
                  && (k.Ip? ==> x.value.reason == e.reason && x.value.since == e.ts))
  {
    FoldView(seed, log, k);
  }

  function OfKind(m: Blocks, ip: bool): (r: Blocks) {
    m - (set k | k in m && k.Ip? != ip)
  }

  /** The fold over the records of one domain only, as each replay does it. */
  function FoldKind(seed: Blocks, log: seq<Entry>, ip: bool): (r: Blocks) {
    if log == [] then seed
    else
      var rest, e := FoldKind(seed, log[..|log| - 1], ip), log[|log| - 1];
      if !e.Traffic? && e.key.Ip? == ip then Step(rest, e) else rest
  }

  /** The two domains fold independently. */
  lemma {:induction false} FoldKindIs(seed: Blocks, log: seq<Entry>, ip: bool)
    ensures FoldKind(OfKind(seed, ip), log, ip) == OfKind(Fold(seed, log), ip)
  {
    if log != [] {
      var rest, e := log[..|log| - 1], log[|log| - 1];
      FoldKindIs(seed, rest, ip);
      StepOfKind(Fold(seed, rest), e, ip);
    }
  }

  lemma StepOfKind(m: Blocks, e: Entry, ip: bool)
    ensures OfKind(Step(m, e), ip) == if !e.Traffic? && e.key.Ip? == ip then Step(OfKind(m, ip), e) else OfKind(m, ip)
  {
  }
}
