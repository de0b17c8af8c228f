/** The guard as the object it is: sixty-four shards of mutable maps, swept, checked and counted
    in place. Each shard sits behind a mutex, so a call is one step of Guard's runs. */
module AdapterGuard {
  import opened Wrappers
  import opened Models
  import opened Guard

  class GuardState {
    var requestTimestamps: map<string, seq<Time>>
    var inflightByTuple: map<string, nat>

    ghost function View(): Shard
      reads this
    {
      Shard(requestTimestamps, inflightByTuple)
    }

    constructor ()
      ensures View() == Shard(map[], map[])
    {
      requestTimestamps, inflightByTuple := map[], map[];
    }

    method RemoveTupleIfIdle(key: string)
      modifies this
      ensures View() == RemoveIfIdle(old(View()), key)
    {
      var hasInflight := key in inflightByTuple && inflightByTuple[key] > 0;
      var hasRecentTimestamps := key in requestTimestamps && requestTimestamps[key] != [];
      if !hasInflight && !hasRecentTimestamps {
        requestTimestamps := map k | k in requestTimestamps && k != key :: requestTimestamps[k];
        inflightByTuple := map k | k in inflightByTuple && k != key :: inflightByTuple[k];
      }
    }

    method PopExpired(key: string, cutoff: Time)
      requires key in requestTimestamps
      modifies this`requestTimestamps
      ensures requestTimestamps == old(requestTimestamps)[key := DropExpired(old(requestTimestamps)[key], cutoff)]
    {
      var timestamps := requestTimestamps[key];
      while timestamps != [] && timestamps[0] < cutoff
        invariant DropExpired(timestamps, cutoff) == DropExpired(old(requestTimestamps)[key], cutoff)
        decreases |timestamps|
      {
        timestamps := timestamps[1..];
      }
      requestTimestamps := requestTimestamps[key := timestamps];
    }

    /** Visits the stored tuples in no particular order. */
    method SweepExpiredTimestamps(cutoff: Time)
      modifies this
      ensures View() == Sweep(old(View()), cutoff)
    {
      var keys := requestTimestamps.Keys;
      ghost var done: set<string> := {};
      assert SweepKeys(old(View()), cutoff, {}) == View();
      while keys != {}
        invariant keys !! done && keys + done == old(requestTimestamps).Keys
        invariant View() == SweepKeys(old(View()), cutoff, done)
        decreases keys
      {
        var key :| key in keys;
        ghost var before := View();
        PopExpired(key, cutoff);
        RemoveTupleIfIdle(key);
        SweepOneMore(old(View()), before, cutoff, done, key);
        keys := keys - {key};
        done := done + {key};
      }
      assert done == old(requestTimestamps).Keys;
    }

    method TryEnter(key: string, now: Time, config: Config) returns (v: Verdict)
      requires config.maxRequestsPerMinute > 0 && config.maxInflightPerTuple > 0
      modifies this
      ensures (View(), v) == Enter(old(View()), key, now, config)
    {
      hide Sweep, RemoveIfIdle;
      SweepExpiredTimestamps(now - WINDOW);
      var timestamps := if key in requestTimestamps then requestTimestamps[key] else [];
      requestTimestamps := requestTimestamps[key := timestamps];
      if |timestamps| >= config.maxRequestsPerMinute {
        return RateLimited;
      }
      RemoveTupleIfIdle(key);
      ghost var tidy := View();
      var inflight := if key in inflightByTuple then inflightByTuple[key] else 0;
      inflightByTuple := inflightByTuple[key := inflight];
      if inflight >= config.maxInflightPerTuple {
        return ConcurrencyLimited;
      }
      inflightByTuple := inflightByTuple[key := inflight + 1];
      timestamps := if key in requestTimestamps then requestTimestamps[key] else [];
      requestTimestamps := requestTimestamps[key := timestamps + [now]];
      assert inflightByTuple == tidy.inflight[key := inflight + 1];
      return Admitted;
    }

    method DropLease(key: string)
      modifies this
      ensures View() == Release(old(View()), key)
    {
      if key in inflightByTuple {
        if inflightByTuple[key] > 0 {
          inflightByTuple := inflightByTuple[key := inflightByTuple[key] - 1];
        }
        if inflightByTuple[key] == 0 {
          inflightByTuple := map k | k in inflightByTuple && k != key :: inflightByTuple[k];
        }
      }
      RemoveTupleIfIdle(key);
    }
  }

  /** The loop's step: popping and tidying one more tuple extends the swept set by it. */
  lemma SweepOneMore(start: Shard, before: Shard, cutoff: Time, done: set<string>, key: string)
    requires key in start.stamps && key !in done && before == SweepKeys(start, cutoff, done)
    ensures key in before.stamps
    ensures RemoveIfIdle(before.(stamps := before.stamps[key := DropExpired(before.stamps[key], cutoff)]), key)
            == SweepKeys(start, cutoff, done + {key})
  {
    var popped := before.(stamps := before.stamps[key := DropExpired(before.stamps[key], cutoff)]);
    var after, goal := RemoveIfIdle(popped, key), SweepKeys(start, cutoff, done + {key});
    assert before.InflightOf(key) == start.InflightOf(key);
    forall k | k != key ensures GoesIdle(start, cutoff, done + {key}, k) <==> GoesIdle(start, cutoff, done, k) {
    }
    assert after.stamps == goal.stamps;
    assert after.inflight == goal.inflight;
  }

  class GuardShards {
    const shards: seq<GuardState>
    const hash: string -> nat

    ghost predicate Valid() {
      |shards| == ADAPTER_GUARD_SHARDS && forall i, j | 0 <= i < j < |shards| :: shards[i] != shards[j]
    }

    ghost function Views(): seq<Shard>
      reads shards
    {
      seq(|shards|, i requires 0 <= i < |shards| reads shards => shards[i].View())
    }

    constructor (hash: string -> nat)
      ensures Valid() && this.hash == hash && fresh(shards)
      ensures Views() == START.shards
    {
      this.hash := hash;
      var built: seq<GuardState> := [];
      while |built| < ADAPTER_GUARD_SHARDS
        invariant |built| <= ADAPTER_GUARD_SHARDS
        invariant fresh(built)
        invariant forall i | 0 <= i < |built| :: built[i].View() == Shard(map[], map[])
        invariant forall i, j | 0 <= i < j < |built| :: built[i] != built[j]
        decreases ADAPTER_GUARD_SHARDS - |built|
      {
        var shard := new GuardState();
        built := built + [shard];
      }
      this.shards := built;
    }

    /** `enter_adapter_guard`: the lease names the tuple's key and the shard that counts it. */
    method EnterAdapterGuard(agentId: string, delegatorId: string, now: Time, config: Config)
      returns (r: Result<Lease, Verdict>)
      requires Valid()
      modifies shards
      ensures var key := TupleKey(agentId, delegatorId);
              var (s, v) := Enter(old(Views())[ShardIndex(hash, key)], key, now, config);
              Views() == old(Views())[ShardIndex(hash, key) := s]
              && r == if v.Admitted? then Ok(Lease(key, ShardIndex(hash, key))) else Err(v)
    {
      if config.maxRequestsPerMinute == 0 {
        assert Views() == old(Views());
        return Err(Misconfigured);
      }
      if config.maxInflightPerTuple == 0 {
        assert Views() == old(Views());
        return Err(Misconfigured);
      }
      var key := TupleKey(agentId, delegatorId);
      var index := ShardIndex(hash, key);
      var v := shards[index].TryEnter(key, now, config);
      assert Views() == old(Views())[index := Enter(old(Views())[index], key, now, config).0];
      return if v.Admitted? then Ok(Lease(key, index)) else Err(v);
    }

    /** Dropping a lease. */
    method DropLease(lease: Lease)
      requires Valid() && lease.shardIndex < ADAPTER_GUARD_SHARDS
      modifies shards
      ensures Views() == old(Views())[lease.shardIndex := Release(old(Views())[lease.shardIndex], lease.key)]
    {
      shards[lease.shardIndex].DropLease(lease.key);
      assert Views() == old(Views())[lease.shardIndex := Release(old(Views())[lease.shardIndex], lease.key)];
    }
  }
}
