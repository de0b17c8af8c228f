/** The adapter guard: a sharded sliding-window rate limiter with in-flight leases, and the
    full-history limiter it stands for. */
module Guard {
  import opened Wrappers
  import opened Models

  const WINDOW: int := 60 * SECOND
  const ADAPTER_GUARD_SHARDS: nat := 64
  const UNIT_SEPARATOR: char := 31 as char

  datatype Config = Config(maxRequestsPerMinute: nat, maxInflightPerTuple: nat)

  datatype Verdict = Admitted | Misconfigured | RateLimited | ConcurrencyLimited

  datatype Lease = Lease(key: string, shardIndex: nat)

  /** One shard's maps: admission times per tuple, oldest first, and leases out per tuple. */
  datatype Shard = Shard(stamps: map<string, seq<Time>>, inflight: map<string, nat>)
  {
    function StampsOf(key: string): seq<Time> {
      if key in stamps then stamps[key] else []
    }

    function InflightOf(key: string): nat {
      if key in inflight then inflight[key] else 0
    }
  }

  // ---------------------------------------------------------------- the tuple's key

  function TupleKey(agentId: string, delegatorId: string): string {
    agentId + [UNIT_SEPARATOR] + delegatorId
  }

  lemma SeparatorPosition(a: string, d: string, b: string, e: string)
    requires TupleKey(a, d) == TupleKey(b, e) && |a| < |b|
    ensures UNIT_SEPARATOR in b && UNIT_SEPARATOR in d
  {
    var k := TupleKey(a, d);
    assert k[|a|] == UNIT_SEPARATOR && b[|a|] == k[|a|];
    assert k[|b|] == UNIT_SEPARATOR && d[|b| - |a| - 1] == k[|b|];
  }

  /** Tuples whose agent ids are free of the separator never share a key. */
  lemma KeyTellsTuple(a: string, d: string, b: string, e: string)
    requires 31 as char !in a && 31 as char !in b
    ensures TupleKey(a, d) == TupleKey(b, e) <==> a == b && d == e
  {
    var k := TupleKey(a, d);
    if k == TupleKey(b, e) {
      if |a| < |b| {
        SeparatorPosition(a, d, b, e);
      } else if |b| < |a| {
        SeparatorPosition(b, e, a, d);
      }
      assert a == k[..|a|] && d == k[|a| + 1..] && b == k[..|b|] && e == k[|b| + 1..];
    }
  }

  /** A tuple has its key to itself exactly when neither of its ids contains the separator. */
  lemma KeyIsUniqueIff(agentId: string, delegatorId: string)
    ensures (UNIT_SEPARATOR !in agentId && UNIT_SEPARATOR !in delegatorId)
            <==> forall b, e :: TupleKey(b, e) == TupleKey(agentId, delegatorId) ==> b == agentId && e == delegatorId
  {
    var k := TupleKey(agentId, delegatorId);
    if UNIT_SEPARATOR in agentId {
      var i :| 0 <= i < |agentId| && agentId[i] == UNIT_SEPARATOR;
      var b, e := agentId[..i], agentId[i + 1..] + [UNIT_SEPARATOR] + delegatorId;
      assert TupleKey(b, e) == k && |b| < |agentId|;
    } else if UNIT_SEPARATOR in delegatorId {
      var i :| 0 <= i < |delegatorId| && delegatorId[i] == UNIT_SEPARATOR;
      var b, e := agentId + [UNIT_SEPARATOR] + delegatorId[..i], delegatorId[i + 1..];
      assert TupleKey(b, e) == k && |b| > |agentId|;
    } else {
      forall b, e | TupleKey(b, e) == k ensures b == agentId && e == delegatorId {
        if |b| < |agentId| {
          SeparatorPosition(b, e, agentId, delegatorId);
        } else if |b| > |agentId| {
          SeparatorPosition(agentId, delegatorId, b, e);
        }
        assert b == k[..|b|] && e == k[|b| + 1..];
        assert agentId == k[..|agentId|] && delegatorId == k[|agentId| + 1..];
      }
    }
  }

  function ShardIndex(hash: string -> nat, key: string): (i: nat)
    ensures i < ADAPTER_GUARD_SHARDS
  {
    hash(key) % ADAPTER_GUARD_SHARDS
  }

  // ---------------------------------------------------------------- one shard

  function DropExpired(ts: seq<Time>, cutoff: Time): seq<Time> {
    if ts != [] && ts[0] < cutoff then DropExpired(ts[1..], cutoff) else ts
  }

  function RemoveIfIdle(s: Shard, key: string): Shard {
    if s.InflightOf(key) == 0 && s.StampsOf(key) == [] then
      Shard(map k | k in s.stamps && k != key :: s.stamps[k], map k | k in s.inflight && k != key :: s.inflight[k])
    else s
  }

  /** Every stored tuple with its expired stamps dropped; tuples left idle are forgotten. */
  function Sweep(s: Shard, cutoff: Time): Shard {
    SweepKeys(s, cutoff, s.stamps.Keys)
  }

  function SweepKeys(s: Shard, cutoff: Time, keys: set<string>): Shard {
    Shard(map k | k in s.stamps && !GoesIdle(s, cutoff, keys, k) :: if k in keys then DropExpired(s.stamps[k], cutoff) else s.stamps[k],
          map k | k in s.inflight && !GoesIdle(s, cutoff, keys, k) :: s.inflight[k])
  }

  predicate GoesIdle(s: Shard, cutoff: Time, keys: set<string>, k: string) {
    k in keys && DropExpired(s.StampsOf(k), cutoff) == [] && s.InflightOf(k) == 0
  }

  function Enter(s: Shard, key: string, now: Time, config: Config): (Shard, Verdict) {
    if config.maxRequestsPerMinute == 0 || config.maxInflightPerTuple == 0 then (s, Misconfigured)
    else EnterSwept(Sweep(s, now - WINDOW), key, now, config)
  }

  function EnterSwept(swept: Shard, key: string, now: Time, config: Config): (Shard, Verdict) {
    var stamped := swept.(stamps := swept.stamps[key := swept.StampsOf(key)]);
    if |stamped.stamps[key]| >= config.maxRequestsPerMinute then (stamped, RateLimited)
    else
      var tidy := RemoveIfIdle(stamped, key);
      var n := tidy.InflightOf(key);
      if n >= config.maxInflightPerTuple then (tidy.(inflight := tidy.inflight[key := n]), ConcurrencyLimited)
      else (Shard(tidy.stamps[key := tidy.StampsOf(key) + [now]], tidy.inflight[key := n + 1]), Admitted)
  }

  function Release(s: Shard, key: string): Shard {
    if key !in s.inflight then RemoveIfIdle(s, key)
    else
      var n := if s.inflight[key] > 0 then s.inflight[key] - 1 else 0;
      RemoveIfIdle(
        s.(inflight := if n == 0 then map k | k in s.inflight && k != key :: s.inflight[k] else s.inflight[key := n]),
        key)
  }

  // ---------------------------------------------------------------- what a shard keeps

  /** In-flight counts are never stored as zero, their tuples have a timestamp queue, and every
      stored tuple has a lease or a timestamp to show. */
  predicate Tidy(s: Shard) {
    (forall k | k in s.inflight :: s.inflight[k] > 0 && k in s.stamps)
    && (forall k | k in s.stamps :: s.stamps[k] != [] || k in s.inflight)
  }

  /** What entering does, tuple by tuple: everyone's expired stamps go, and only the entering
      tuple gains a stamp and a lease, if admitted. */
  lemma EnterEffect(s: Shard, key: string, now: Time, config: Config)
    requires Tidy(s)
    ensures var (s', v) := Enter(s, key, now, config);
            var recent := DropExpired(s.StampsOf(key), now - WINDOW);
            if config.maxRequestsPerMinute == 0 || config.maxInflightPerTuple == 0 then s' == s && v == Misconfigured
            else
              Tidy(s')
              && v == (if |recent| >= config.maxRequestsPerMinute then RateLimited
                       else if s.InflightOf(key) >= config.maxInflightPerTuple then ConcurrencyLimited
                       else Admitted)
              && s'.StampsOf(key) == (if v.Admitted? then recent + [now] else recent)
              && s'.InflightOf(key) == (if v.Admitted? then s.InflightOf(key) + 1 else s.InflightOf(key))
              && forall k | k != key ::
                   s'.StampsOf(k) == DropExpired(s.StampsOf(k), now - WINDOW) && s'.InflightOf(k) == s.InflightOf(k)
  {
    hide Sweep, EnterSwept, DropExpired, Tidy;
    if config.maxRequestsPerMinute > 0 && config.maxInflightPerTuple > 0 {
      SweepEffect(s, now - WINDOW);
      EnterSweptEffect(Sweep(s, now - WINDOW), key, now, config);
    }
  }

  lemma EnterSweptEffect(s: Shard, key: string, now: Time, config: Config)
    requires Tidy(s) && config.maxRequestsPerMinute > 0 && config.maxInflightPerTuple > 0
    ensures var (s', v) := EnterSwept(s, key, now, config);
            Tidy(s')
            && v == (if |s.StampsOf(key)| >= config.maxRequestsPerMinute then RateLimited
                     else if s.InflightOf(key) >= config.maxInflightPerTuple then ConcurrencyLimited
                     else Admitted)
            && s'.StampsOf(key) == (if v.Admitted? then s.StampsOf(key) + [now] else s.StampsOf(key))
            && s'.InflightOf(key) == (if v.Admitted? then s.InflightOf(key) + 1 else s.InflightOf(key))
            && forall k | k != key :: s'.StampsOf(k) == s.StampsOf(k) && s'.InflightOf(k) == s.InflightOf(k)
  {
  }

  lemma SweepEffect(s: Shard, cutoff: Time)
    requires Tidy(s)
    ensures Tidy(Sweep(s, cutoff))
    ensures forall k :: Sweep(s, cutoff).StampsOf(k) == DropExpired(s.StampsOf(k), cutoff)
    ensures forall k :: Sweep(s, cutoff).InflightOf(k) == s.InflightOf(k)
    ensures Sweep(s, cutoff).stamps.Keys <= s.stamps.Keys
  {
  }

  lemma ReleaseEffect(s: Shard, key: string)
    requires Tidy(s) && s.InflightOf(key) > 0
    ensures var s' := Release(s, key);
            Tidy(s') && s'.InflightOf(key) == s.InflightOf(key) - 1 && s'.StampsOf(key) == s.StampsOf(key)
            && forall k | k != key :: s'.StampsOf(k) == s.StampsOf(k) && s'.InflightOf(k) == s.InflightOf(k)
  {
  }

  // ---------------------------------------------------------------- the guard and its history

  /** An admission and whether its lease is still out. */
  datatype Admission = Admission(lease: Lease, time: Time, open: bool)

  /** The shards, and every admission since start-up. */
  datatype System = System(shards: seq<Shard>, log: seq<Admission>)

  datatype Op =
    | EnterGuard(agentId: string, delegatorId: string, now: Time, config: Config)
    | DropLease(admission: nat)

  const START: System := System(seq(ADAPTER_GUARD_SHARDS, i => Shard(map[], map[])), [])

  predicate Sized(g: System) {
    |g.shards| == ADAPTER_GUARD_SHARDS
    && forall i | 0 <= i < |g.log| :: g.log[i].lease.shardIndex < ADAPTER_GUARD_SHARDS
  }

  /** One call. A lease drops once, in the shard its own index names. */
  function Next(hash: string -> nat, g: System, op: Op): (r: (System, Option<Verdict>))
    requires Sized(g)
    ensures Sized(r.0)
  {
    match op
    case EnterGuard(agentId, delegatorId, now, config) =>
      var key := TupleKey(agentId, delegatorId);
      var i := ShardIndex(hash, key);
      var (s, v) := Enter(g.shards[i], key, now, config);
      (System(g.shards[i := s], if v.Admitted? then g.log + [Admission(Lease(key, i), now, true)] else g.log), Some(v))
    case DropLease(a) =>
      if a >= |g.log| || !g.log[a].open then (g, None)
      else
        var lease := g.log[a].lease;
        (System(g.shards[lease.shardIndex := Release(g.shards[lease.shardIndex], lease.key)],
                g.log[a := g.log[a].(open := false)]), None)
  }

  function Run(hash: string -> nat, g: System, ops: seq<Op>): (r: System)
    requires Sized(g)
    ensures Sized(r)
    decreases |ops|
  {
    if ops == [] then g else Run(hash, Next(hash, g, ops[0]).0, ops[1..])
  }

  /** What each call of a run is told. */
  function Verdicts(hash: string -> nat, g: System, ops: seq<Op>): seq<Option<Verdict>>
    requires Sized(g)
    decreases |ops|
  {
    if ops == [] then []
    else
      var (g', v) := Next(hash, g, ops[0]);
      [v] + Verdicts(hash, g', ops[1..])
  }

  predicate Monotone(ops: seq<Op>, from: Time)
    decreases |ops|
  {
    ops == []
    || (match ops[0]
        case EnterGuard(_, _, now, _) => from <= now && Monotone(ops[1..], now)
        case DropLease(_) => Monotone(ops[1..], from))
  }

  // ---------------------------------------------------------------- the naive limiter

  /** Admissions of the tuple with a time in the closed interval. */
  function Recent(log: seq<Admission>, key: string, from: Time, to: Time): nat {
    if log == [] then 0
    else
      var last := log[|log| - 1];
      Recent(log[..|log| - 1], key, from, to) + (if last.lease.key == key && from <= last.time <= to then 1 else 0)
  }

  /** Leases of the tuple still out. */
  function Outstanding(log: seq<Admission>, key: string): nat {
    if log == [] then 0
    else
      var last := log[|log| - 1];
      Outstanding(log[..|log| - 1], key) + (if last.lease.key == key && last.open then 1 else 0)
  }

  /** Decides from the whole admission history of the one tuple. */
  function NaiveVerdict(log: seq<Admission>, key: string, now: Time, config: Config): Verdict {
    if config.maxRequestsPerMinute == 0 || config.maxInflightPerTuple == 0 then Misconfigured
    else if Recent(log, key, now - 60_000_000_000, now) >= config.maxRequestsPerMinute then RateLimited
    else if Outstanding(log, key) >= config.maxInflightPerTuple then ConcurrencyLimited
    else Admitted
  }

  function NaiveNext(hash: string -> nat, log: seq<Admission>, op: Op): (seq<Admission>, Option<Verdict>) {
    match op
    case EnterGuard(agentId, delegatorId, now, config) =>
      var key := TupleKey(agentId, delegatorId);
      var v := NaiveVerdict(log, key, now, config);
      (if v.Admitted? then log + [Admission(Lease(key, ShardIndex(hash, key)), now, true)] else log, Some(v))
    case DropLease(a) =>
      (if a < |log| then log[a := log[a].(open := false)] else log, None)
  }

  function NaiveVerdicts(hash: string -> nat, log: seq<Admission>, ops: seq<Op>): seq<Option<Verdict>>
    decreases |ops|
  {
    if ops == [] then []
    else
      var (log', v) := NaiveNext(hash, log, ops[0]);
      [v] + NaiveVerdicts(hash, log', ops[1..])
  }

  // ---------------------------------------------------------------- refinement

  /** The tuple's admission times, oldest first. */
  function TimesOf(log: seq<Admission>, key: string): seq<Time> {
    if log == [] then []
    else
      var last := log[|log| - 1];
      TimesOf(log[..|log| - 1], key) + (if last.lease.key == key then [last.time] else [])
  }

  predicate SortedUpTo(ts: seq<Time>, now: Time) {
    (forall i, j | 0 <= i <= j < |ts| :: ts[i] <= ts[j]) && forall i | 0 <= i < |ts| :: ts[i] <= now
  }

  /** The queue is the history without some entries older than any window from now on. */
  predicate Suffix(queue: seq<Time>, ts: seq<Time>, oldest: Time) {
    |queue| <= |ts| && ts[|ts| - |queue|..] == queue && forall i | 0 <= i < |ts| - |queue| :: ts[i] < oldest
  }

  predicate AllFrom(ts: seq<Time>, from: Time) {
    forall i | 0 <= i < |ts| :: ts[i] >= from
  }

  ghost predicate TupleInv(hash: string -> nat, g: System, key: string, now: Time)
    requires Sized(g)
  {
    TupleFits(g.shards[ShardIndex(hash, key)], g.log, key, now)
  }

  /** What the shard stores about the tuple is what its history still says. */
  predicate TupleFits(s: Shard, log: seq<Admission>, key: string, now: Time) {
    s.InflightOf(key) == Outstanding(log, key)
    && SortedUpTo(TimesOf(log, key), now)
    && Suffix(s.StampsOf(key), TimesOf(log, key), now - WINDOW)
  }

  ghost predicate Inv(hash: string -> nat, g: System, now: Time) {
    Sized(g)
    && (forall i | 0 <= i < ADAPTER_GUARD_SHARDS :: Tidy(g.shards[i]))
    && (forall i, k | 0 <= i < ADAPTER_GUARD_SHARDS && k in g.shards[i].stamps :: ShardIndex(hash, k) == i)
    && (forall i | 0 <= i < |g.log| :: g.log[i].lease.shardIndex == ShardIndex(hash, g.log[i].lease.key))
    && (forall key :: TupleInv(hash, g, key, now))
  }

  lemma {:induction false} DropExpiredIsSuffix(queue: seq<Time>, ts: seq<Time>, now: Time, oldest: Time)
    requires SortedUpTo(ts, now) && Suffix(queue, ts, oldest) && oldest <= now - WINDOW
    ensures Suffix(DropExpired(queue, now - WINDOW), ts, now - WINDOW)
    ensures AllFrom(DropExpired(queue, now - WINDOW), now - WINDOW)
    decreases |queue|
  {
    if queue != [] && queue[0] < now - WINDOW {
      assert queue[0] == ts[|ts| - |queue|];
      assert ts[|ts| - |queue| + 1..] == queue[1..];
      DropExpiredIsSuffix(queue[1..], ts, now, now - WINDOW);
    } else if queue != [] {
      forall i | 0 <= i < |queue| ensures queue[i] >= now - WINDOW {
        assert queue[i] == ts[|ts| - |queue| + i] && queue[0] == ts[|ts| - |queue|];
      }
    }
  }

  /** How many entries of a sorted list are at or after `from`. */
  function CountFrom(ts: seq<Time>, from: Time): nat {
    if ts == [] then 0 else CountFrom(ts[..|ts| - 1], from) + (if ts[|ts| - 1] >= from then 1 else 0)
  }

  lemma {:induction false} RecentIsCountFrom(log: seq<Admission>, key: string, from: Time, now: Time)
    requires forall i | 0 <= i < |TimesOf(log, key)| :: TimesOf(log, key)[i] <= now
    ensures Recent(log, key, from, now) == CountFrom(TimesOf(log, key), from)
  {
    if log != [] {
      var init, last := log[..|log| - 1], log[|log| - 1];
      var ts := TimesOf(log, key);
      assert ts == TimesOf(init, key) + (if last.lease.key == key then [last.time] else []);
      forall i | 0 <= i < |TimesOf(init, key)| ensures TimesOf(init, key)[i] <= now {
        assert TimesOf(init, key)[i] == ts[i];
      }
      RecentIsCountFrom(init, key, from, now);
      if last.lease.key == key {
        assert ts[|ts| - 1] == last.time;
        assert ts[..|ts| - 1] == TimesOf(init, key);
      } else {
        assert ts == TimesOf(init, key);
      }
    }
  }

  lemma {:induction false} CountOfSuffix(kept: seq<Time>, ts: seq<Time>, from: Time)
    requires Suffix(kept, ts, from) && AllFrom(kept, from)
    ensures CountFrom(ts, from) == |kept|
  {
    if ts != [] {
      var init := ts[..|ts| - 1];
      if kept != [] {
        var k := kept[..|kept| - 1];
        assert init[|init| - |k|..] == k;
        CountOfSuffix(k, init, from);
        assert kept[|kept| - 1] == ts[|ts| - 1];
      } else {
        CountOfSuffix([], init, from);
      }
    }
  }

  /** The queue the guard is left with after sweeping is exactly the naive count. */
  lemma QueueIsRecent(hash: string -> nat, g: System, key: string, last: Time, now: Time)
    requires Inv(hash, g, last) && last <= now
    ensures var queue := DropExpired(g.shards[ShardIndex(hash, key)].StampsOf(key), now - WINDOW);
            |queue| == Recent(g.log, key, now - WINDOW, now)
            && Suffix(queue, TimesOf(g.log, key), now - WINDOW)
            && SortedUpTo(TimesOf(g.log, key), now)
  {
    assert TupleInv(hash, g, key, last);
    var queue := g.shards[ShardIndex(hash, key)].StampsOf(key);
    var ts := TimesOf(g.log, key);
    DropExpiredIsSuffix(queue, ts, now, last - WINDOW);
    RecentIsCountFrom(g.log, key, now - WINDOW, now);
    CountOfSuffix(DropExpired(queue, now - WINDOW), ts, now - WINDOW);
  }

  lemma EnterDecidesNaively(hash: string -> nat, g: System, key: string, now: Time, config: Config, last: Time)
    requires Inv(hash, g, last) && last <= now
    ensures Enter(g.shards[ShardIndex(hash, key)], key, now, config).1 == NaiveVerdict(g.log, key, now, config)
  {
    if config.maxRequestsPerMinute > 0 && config.maxInflightPerTuple > 0 {
      assert TupleInv(hash, g, key, last);
      EnterEffect(g.shards[ShardIndex(hash, key)], key, now, config);
      QueueIsRecent(hash, g, key, last, now);
    }
  }

  /** The guard decides as the naive limiter does on the tuple's full history. */
  lemma GuardDecidesNaively(hash: string -> nat, g: System, op: Op, last: Time)
    requires Inv(hash, g, last) && (op.EnterGuard? ==> last <= op.now)
    ensures Next(hash, g, op).1 == NaiveNext(hash, g.log, op).1
    ensures Next(hash, g, op).0.log == NaiveNext(hash, g.log, op).0
  {
    if op.EnterGuard? {
      EnterDecidesNaively(hash, g, TupleKey(op.agentId, op.delegatorId), op.now, op.config, last);
    } else if op.admission < |g.log| && !g.log[op.admission].open {
      assert g.log[op.admission := g.log[op.admission].(open := false)] == g.log;
    }
  }

  lemma AdmitExtends(log: seq<Admission>, a: Admission, key: string, now: Time)
    requires SortedUpTo(TimesOf(log, key), now) && a.time == now && a.open
    ensures SortedUpTo(TimesOf(log + [a], key), now)
    ensures TimesOf(log + [a], key) == TimesOf(log, key) + (if a.lease.key == key then [now] else [])
    ensures Outstanding(log + [a], key) == Outstanding(log, key) + (if a.lease.key == key then 1 else 0)
  {
    assert (log + [a])[..|log|] == log;
  }

  lemma {:induction false} CloseEffect(log: seq<Admission>, a: nat, key: string)
    requires a < |log| && log[a].open
    ensures var log' := log[a := log[a].(open := false)];
            TimesOf(log', key) == TimesOf(log, key)
            && Outstanding(log, key) == Outstanding(log', key) + (if log[a].lease.key == key then 1 else 0)
  {
    var log' := log[a := log[a].(open := false)];
    var m := |log| - 1;
    if a < m {
      assert log'[..m] == log[..m][a := log[a].(open := false)];
      CloseEffect(log[..m], a, key);
    } else {
      assert log'[..m] == log[..m];
    }
  }

  lemma EnterStaysTidy(s: Shard, key: string, now: Time, config: Config)
    requires Tidy(s)
    ensures Tidy(Enter(s, key, now, config).0)
  {
    if config.maxRequestsPerMinute > 0 && config.maxInflightPerTuple > 0 {
      EnterEffect(s, key, now, config);
    }
  }

  lemma EnterKeepsInv(hash: string -> nat, g: System, op: Op, last: Time)
    requires Inv(hash, g, last) && op.EnterGuard? && last <= op.now
    ensures Inv(hash, Next(hash, g, op).0, op.now)
  {
    var g' := Next(hash, g, op).0;
    var key := TupleKey(op.agentId, op.delegatorId);
    var h := ShardIndex(hash, key);
    var s, s' := g.shards[h], g'.shards[h];
    EnterStaysTidy(s, key, op.now, op.config);
    hide Enter, TupleFits, TupleKey;
    assert s' == Enter(s, key, op.now, op.config).0;
    assert forall i | 0 <= i < ADAPTER_GUARD_SHARDS && i != h :: g'.shards[i] == g.shards[i];
    forall k ensures TupleInv(hash, g', k, op.now) {
      EnterKeepsTuple(hash, g, op, last, k);
    }
    forall k | k in s'.stamps ensures ShardIndex(hash, k) == h {
      EnterStoresKey(s, key, op.now, op.config, k);
    }
  }

  lemma EnterStoresKey(s: Shard, key: string, now: Time, config: Config, k: string)
    requires k in Enter(s, key, now, config).0.stamps
    ensures k == key || k in s.stamps
  {
  }

  /** How one tuple's queue and count move when anyone enters its shard. */
  lemma EnterMovesTuple(s: Shard, key: string, now: Time, config: Config, k: string)
    requires Tidy(s)
    ensures var (s', v) := Enter(s, key, now, config);
            var gained := v.Admitted? && k == key;
            (v.Misconfigured? && s' == s)
            || (s'.StampsOf(k) == DropExpired(s.StampsOf(k), now - WINDOW) + (if gained then [now] else [])
                && s'.InflightOf(k) == s.InflightOf(k) + (if gained then 1 else 0))
  {
    if config.maxRequestsPerMinute > 0 && config.maxInflightPerTuple > 0 {
      EnterEffect(s, key, now, config);
      assert DropExpired(s.StampsOf(k), now - WINDOW) + [] == DropExpired(s.StampsOf(k), now - WINDOW);
    }
  }

  lemma SuffixGrows(queue: seq<Time>, ts: seq<Time>, oldest: Time, now: Time)
    requires Suffix(queue, ts, oldest)
    ensures Suffix(queue + [now], ts + [now], oldest)
  {
    assert (ts + [now])[|ts| - |queue|..] == queue + [now];
  }

  lemma MoveKeepsTuple(s: Shard, s': Shard, log: seq<Admission>, a: Admission, admitted: bool, k: string, now: Time)
    requires s.InflightOf(k) == Outstanding(log, k) && SortedUpTo(TimesOf(log, k), now) && a.time == now && a.open
    requires Suffix(DropExpired(s.StampsOf(k), now - WINDOW), TimesOf(log, k), now - WINDOW)
    requires var gained := admitted && k == a.lease.key;
             s'.StampsOf(k) == DropExpired(s.StampsOf(k), now - WINDOW) + (if gained then [now] else [])
             && s'.InflightOf(k) == s.InflightOf(k) + (if gained then 1 else 0)
    ensures TupleFits(s', if admitted then log + [a] else log, k, now)
  {
    AdmitExtends(log, a, k, now);
    if admitted && k == a.lease.key {
      SuffixGrows(DropExpired(s.StampsOf(k), now - WINDOW), TimesOf(log, k), now - WINDOW, now);
    }
  }

  lemma SameShardKeepsTuple(hash: string -> nat, g: System, key: string, now: Time, config: Config, last: Time, k: string)
    requires Inv(hash, g, last) && last <= now && ShardIndex(hash, k) == ShardIndex(hash, key)
    ensures var h := ShardIndex(hash, key);
            var (s', v) := Enter(g.shards[h], key, now, config);
            TupleFits(s', if v.Admitted? then g.log + [Admission(Lease(key, h), now, true)] else g.log, k, now)
  {
    var s := g.shards[ShardIndex(hash, key)];
    assert TupleInv(hash, g, k, last);
    EnterMovesTuple(s, key, now, config, k);
    var (s', v) := Enter(s, key, now, config);
    if !v.Misconfigured? {
      QueueIsRecent(hash, g, k, last, now);
      MoveKeepsTuple(s, s', g.log, Admission(Lease(key, ShardIndex(hash, key)), now, true), v.Admitted?, k, now);
    }
  }

  lemma EnterKeepsTuple(hash: string -> nat, g: System, op: Op, last: Time, k: string)
    requires Inv(hash, g, last) && op.EnterGuard? && last <= op.now
    ensures TupleInv(hash, Next(hash, g, op).0, k, op.now)
  {
    if ShardIndex(hash, k) == ShardIndex(hash, TupleKey(op.agentId, op.delegatorId)) {
      SameShardKeepsTuple(hash, g, TupleKey(op.agentId, op.delegatorId), op.now, op.config, last, k);
    } else {
      assert TupleInv(hash, g, k, last);
      OtherShardKeepsTuple(hash, g, op, last, k);
    }
  }

  /** Entering touches one shard, and admits at most one lease to the log. */
  lemma EnterTouchesOneShard(hash: string -> nat, g: System, op: Op, i: nat)
    requires Sized(g) && op.EnterGuard? && i < ADAPTER_GUARD_SHARDS
    requires i != ShardIndex(hash, TupleKey(op.agentId, op.delegatorId))
    ensures var g' := Next(hash, g, op).0;
            var key := TupleKey(op.agentId, op.delegatorId);
            g'.shards[i] == g.shards[i]
            && (g'.log == g.log || g'.log == g.log + [Admission(Lease(key, ShardIndex(hash, key)), op.now, true)])
  {
    hide Enter, TupleKey;
  }

  lemma LogKeepsTuple(s: Shard, log: seq<Admission>, a: Admission, k: string, last: Time)
    requires TupleFits(s, log, k, last) && last <= a.time && a.open && a.lease.key != k
    ensures TupleFits(s, log, k, a.time) && TupleFits(s, log + [a], k, a.time)
  {
    AdmitExtends(log, a, k, a.time);
    assert TimesOf(log, k) + [] == TimesOf(log, k);
  }

  lemma OtherShardKeepsTuple(hash: string -> nat, g: System, op: Op, last: Time, k: string)
    requires Sized(g) && TupleInv(hash, g, k, last) && op.EnterGuard? && last <= op.now
    requires ShardIndex(hash, k) != ShardIndex(hash, TupleKey(op.agentId, op.delegatorId))
    ensures TupleInv(hash, Next(hash, g, op).0, k, op.now)
  {
    var key := TupleKey(op.agentId, op.delegatorId);
    EnterTouchesOneShard(hash, g, op, ShardIndex(hash, k));
    LogKeepsTuple(g.shards[ShardIndex(hash, k)], g.log, Admission(Lease(key, ShardIndex(hash, key)), op.now, true), k, last);
    hide Next, TupleFits, TupleKey;
  }

  /** Releasing keeps every tuple fitting its history, in the lease's shard and in any other. */
  lemma ReleaseKeepsTuple(s: Shard, log: seq<Admission>, a: nat, k: string, last: Time, same: bool)
    requires a < |log| && log[a].open && Tidy(s) && TupleFits(s, log, k, last)
    requires same ==> s.InflightOf(log[a].lease.key) > 0
    requires !same ==> k != log[a].lease.key
    ensures TupleFits(if same then Release(s, log[a].lease.key) else s, log[a := log[a].(open := false)], k, last)
  {
    CloseEffect(log, a, k);
    if same {
      ReleaseEffect(s, log[a].lease.key);
    }
    hide Release, TimesOf, Outstanding;
  }

  lemma DropTouchesOneShard(hash: string -> nat, g: System, a: nat)
    requires Sized(g) && a < |g.log| && g.log[a].open
    ensures var g' := Next(hash, g, DropLease(a)).0;
            var h := g.log[a].lease.shardIndex;
            g'.log == g.log[a := g.log[a].(open := false)]
            && g'.shards[h] == Release(g.shards[h], g.log[a].lease.key)
            && forall i | 0 <= i < ADAPTER_GUARD_SHARDS && i != h :: g'.shards[i] == g.shards[i]
  {
    hide Release;
  }

  lemma ReleaseStoresNothing(s: Shard, key: string, k: string)
    requires k in Release(s, key).stamps
    ensures k in s.stamps
  {
  }

  lemma OpenLeaseIsCounted(hash: string -> nat, g: System, a: nat, last: Time)
    requires Inv(hash, g, last) && a < |g.log| && g.log[a].open
    ensures g.log[a].lease.shardIndex == ShardIndex(hash, g.log[a].lease.key)
    ensures g.shards[g.log[a].lease.shardIndex].InflightOf(g.log[a].lease.key) > 0
  {
    hide TimesOf, Suffix, SortedUpTo;
    CloseEffect(g.log, a, g.log[a].lease.key);
    assert TupleInv(hash, g, g.log[a].lease.key, last);
  }

  lemma DropKeepsInv(hash: string -> nat, g: System, op: Op, last: Time)
    requires Inv(hash, g, last) && op.DropLease?
    ensures Inv(hash, Next(hash, g, op).0, last)
  {
    hide Release, TupleFits;
    var a := op.admission;
    if a < |g.log| && g.log[a].open {
      var g' := Next(hash, g, op).0;
      var h, key := g.log[a].lease.shardIndex, g.log[a].lease.key;
      DropTouchesOneShard(hash, g, a);
      OpenLeaseIsCounted(hash, g, a, last);
      ReleaseEffect(g.shards[h], key);
      hide Next;
      forall k ensures TupleInv(hash, g', k, last) {
        assert TupleInv(hash, g, k, last);
        ReleaseKeepsTuple(g.shards[ShardIndex(hash, k)], g.log, a, k, last, ShardIndex(hash, k) == h);
      }
      forall k | k in g'.shards[h].stamps ensures ShardIndex(hash, k) == h {
        ReleaseStoresNothing(g.shards[h], key, k);
      }
    }
  }

  lemma NextKeepsInv(hash: string -> nat, g: System, op: Op, last: Time)
    requires Inv(hash, g, last) && (op.EnterGuard? ==> last <= op.now)
    ensures Inv(hash, Next(hash, g, op).0, if op.EnterGuard? then op.now else last)
  {
    if op.EnterGuard? {
      EnterKeepsInv(hash, g, op, last);
    } else {
      DropKeepsInv(hash, g, op, last);
    }
  }

  lemma StartInv(hash: string -> nat, now: Time)
    ensures Inv(hash, START, now)
  {
  }

  /** Over any run with a clock that does not go back, under any hash and any per-call limits, the
      guard and the naive limiter give the same verdicts. */
  lemma {:induction false} GuardRefinesNaive(hash: string -> nat, g: System, ops: seq<Op>, last: Time)
    requires Inv(hash, g, last) && Monotone(ops, last)
    ensures Verdicts(hash, g, ops) == NaiveVerdicts(hash, g.log, ops)
    decreases |ops|
  {
    if ops != [] {
      GuardDecidesNaively(hash, g, ops[0], last);
      NextKeepsInv(hash, g, ops[0], last);
      GuardRefinesNaive(hash, Next(hash, g, ops[0]).0, ops[1..], if ops[0].EnterGuard? then ops[0].now else last);
    }
  }

  /** Every reachable state is in order: counts equal the leases out and are never stored as zero,
      in-flight tuples have a queue, stored tuples have a lease or a stamp, in their own shard. */
  lemma {:induction false} RunKeepsInv(hash: string -> nat, g: System, ops: seq<Op>, last: Time) returns (now: Time)
    requires Inv(hash, g, last) && Monotone(ops, last)
    ensures last <= now && Inv(hash, Run(hash, g, ops), now)
    ensures forall i | 0 <= i < |ops| && ops[i].EnterGuard? :: ops[i].now <= now
    decreases |ops|
  {
    now := last;
    if ops != [] {
      NextKeepsInv(hash, g, ops[0], last);
      now := RunKeepsInv(hash, Next(hash, g, ops[0]).0, ops[1..], if ops[0].EnterGuard? then ops[0].now else last);
      forall i | 0 <= i < |ops| && ops[i].EnterGuard? ensures ops[i].now <= now {
        assert i > 0 ==> ops[i] == ops[1..][i - 1];
      }
    }
  }

  /** A denied call leaves no trace: whatever follows is told the same as if it had not been made. */
  lemma DeniedCallsCostNothing(hash: string -> nat, g: System, op: Op, ops: seq<Op>, last: Time)
    requires Inv(hash, g, last) && op.EnterGuard? && Monotone([op] + ops, last)
    requires Next(hash, g, op).1 != Some(Admitted)
    ensures Verdicts(hash, Next(hash, g, op).0, ops) == Verdicts(hash, g, ops)
  {
    assert ([op] + ops)[1..] == ops;
    MonotoneFromEarlier(ops, last, op.now);
    GuardDecidesNaively(hash, g, op, last);
    NextKeepsInv(hash, g, op, last);
    GuardRefinesNaive(hash, Next(hash, g, op).0, ops, op.now);
    GuardRefinesNaive(hash, g, ops, last);
  }

  lemma {:induction false} MonotoneFromEarlier(ops: seq<Op>, from: Time, later: Time)
    requires Monotone(ops, later) && from <= later
    ensures Monotone(ops, from)
    decreases |ops|
  {
    if ops != [] && ops[0].DropLease? {
      MonotoneFromEarlier(ops[1..], from, later);
    }
  }

  // ---------------------------------------------------------------- the window bound

  predicate LimitAtMost(ops: seq<Op>, n: nat) {
    forall i | 0 <= i < |ops| && ops[i].EnterGuard? :: ops[i].config.maxRequestsPerMinute <= n
  }

  predicate TimesUpTo(log: seq<Admission>, now: Time) {
    forall i | 0 <= i < |log| :: log[i].time <= now
  }

  /** Admissions of the tuple in the closed minute that starts at `from`. */
  function InWindow(log: seq<Admission>, key: string, from: Time): nat {
    Recent(log, key, from, from + 60_000_000_000)
  }

  ghost predicate WindowBound(log: seq<Admission>, key: string, n: nat) {
    forall from :: InWindow(log, key, from) <= n
  }

  lemma {:induction false} RecentMonotone(log: seq<Admission>, key: string, from: Time, to: Time, from': Time, now: Time)
    requires TimesUpTo(log, now) && from' <= from
    ensures Recent(log, key, from, to) <= Recent(log, key, from', now)
  {
    if log != [] {
      assert TimesUpTo(log[..|log| - 1], now);
      RecentMonotone(log[..|log| - 1], key, from, to, from', now);
    }
  }

  lemma {:induction false} CloseKeepsRecent(log: seq<Admission>, a: nat, key: string, from: Time, to: Time)
    requires a < |log|
    ensures Recent(log[a := log[a].(open := false)], key, from, to) == Recent(log, key, from, to)
  {
    var log' := log[a := log[a].(open := false)];
    var m := |log| - 1;
    if a < m {
      assert log'[..m] == log[..m][a := log[a].(open := false)];
      CloseKeepsRecent(log[..m], a, key, from, to);
    } else {
      assert log'[..m] == log[..m];
    }
  }

  lemma NaiveKeepsWindowBound(hash: string -> nat, log: seq<Admission>, op: Op, key: string, n: nat, last: Time)
    requires WindowBound(log, key, n) && TimesUpTo(log, last)
    requires op.EnterGuard? ==> last <= op.now && op.config.maxRequestsPerMinute <= n
    ensures var log' := NaiveNext(hash, log, op).0;
            WindowBound(log', key, n) && TimesUpTo(log', if op.EnterGuard? then op.now else last)
  {
    var log' := NaiveNext(hash, log, op).0;
    forall from ensures InWindow(log', key, from) <= n {
      assert InWindow(log, key, from) <= n;
      if op.EnterGuard? && log' != log {
        assert log'[..|log|] == log;
        if from <= op.now <= from + WINDOW {
          RecentMonotone(log, key, from, from + WINDOW, op.now - WINDOW, op.now);
        }
      } else if op.DropLease? && op.admission < |log| {
        CloseKeepsRecent(log, op.admission, key, from, from + WINDOW);
      }
    }
  }

  /** Whole runs from start-up: with per-minute limits of at most n, no closed window of sixty
      seconds, wherever it starts, holds more than n admissions of a tuple. */
  lemma {:induction false} AtMostNInEveryWindow(hash: string -> nat, g: System, ops: seq<Op>, last: Time, key: string, n: nat)
    requires Inv(hash, g, last) && Monotone(ops, last) && LimitAtMost(ops, n)
    requires WindowBound(g.log, key, n) && TimesUpTo(g.log, last)
    ensures WindowBound(Run(hash, g, ops).log, key, n)
    decreases |ops|
  {
    if ops != [] {
      var next := if ops[0].EnterGuard? then ops[0].now else last;
      GuardDecidesNaively(hash, g, ops[0], last);
      NextKeepsInv(hash, g, ops[0], last);
      NaiveKeepsWindowBound(hash, g.log, ops[0], key, n, last);
      AtMostNInEveryWindow(hash, Next(hash, g, ops[0]).0, ops[1..], next, key, n);
    }
  }

  lemma AtMostNFromStart(hash: string -> nat, ops: seq<Op>, start: Time, key: string, n: nat, from: Time)
    requires Monotone(ops, start) && LimitAtMost(ops, n)
    ensures InWindow(Run(hash, START, ops).log, key, from) <= n
  {
    StartInv(hash, start);
    assert forall t :: InWindow(START.log, key, t) == 0;
    AtMostNInEveryWindow(hash, START, ops, start, key, n);
  }
}
