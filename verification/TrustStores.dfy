/** The two stores as the objects they are: state updated in place behind a mutex, and a state
    file that is loaded, changed and saved under a lock file. */
module TrustStores {
  import opened Wrappers
  import opened Models
  import opened TrustState

  datatype StoreError = Unavailable | LockTimeout

  class InMemoryTrustState {
    var revokedTokenIds: set<string>
    var emergencyDeniedAgents: set<string>
    var consumedNonces: map<string, Time>
    var backendAvailable: bool

    /** The contents as the store laws speak of them. */
    ghost function Contents(): State
      reads this
    {
      State(revokedTokenIds, emergencyDeniedAgents, consumedNonces)
    }

    constructor ()
      ensures Contents() == EMPTY && backendAvailable
    {
      revokedTokenIds, emergencyDeniedAgents, consumedNonces := {}, {}, map[];
      backendAvailable := true;
    }

    method SetBackendAvailable(available: bool)
      modifies this`backendAvailable
      ensures backendAvailable == available
    {
      backendAvailable := available;
    }

    method IsTokenRevoked(tokenId: string, ghost clock: Time) returns (r: Result<bool, StoreError>)
      ensures r == if backendAvailable then Ok(Step(Memory, Contents(), TrustState.IsTokenRevoked(tokenId), clock).1.yes)
                   else Err(Unavailable)
    {
      if !backendAvailable {
        return Err(Unavailable);
      }
      return Ok(tokenId in revokedTokenIds);
    }

    method IsAgentEmergencyDenied(agentId: string, ghost clock: Time) returns (r: Result<bool, StoreError>)
      ensures r == if backendAvailable then Ok(Step(Memory, Contents(), TrustState.IsAgentEmergencyDenied(agentId), clock).1.yes)
                   else Err(Unavailable)
    {
      if !backendAvailable {
        return Err(Unavailable);
      }
      return Ok(agentId in emergencyDeniedAgents);
    }

    method ConsumeNonce(nonce: string, validUntil: Time, clock: Time) returns (r: Result<bool, StoreError>)
      modifies this`consumedNonces
      ensures r.Err? <==> !backendAvailable
      ensures r.Err? ==> Contents() == old(Contents())
      ensures r.Ok? ==> (Contents(), Answer(r.value)) == Step(Memory, old(Contents()), TrustState.ConsumeNonce(nonce, validUntil), clock)
    {
      if !backendAvailable {
        return Err(Unavailable);
      }
      var pruneBefore := Min(clock, validUntil);
      consumedNonces := map n | n in consumedNonces && consumedNonces[n] >= pruneBefore :: consumedNonces[n];
      if nonce in consumedNonces {
        return Ok(false);
      }
      consumedNonces := consumedNonces[nonce := validUntil];
      return Ok(true);
    }

    method RevokeToken(tokenId: string, ghost clock: Time) returns (r: Result<(), StoreError>)
      modifies this`revokedTokenIds
      ensures r.Ok? <==> backendAvailable
      ensures Contents() == if r.Ok? then Step(Memory, old(Contents()), TrustState.RevokeToken(tokenId), clock).0 else old(Contents())
    {
      if !backendAvailable {
        return Err(Unavailable);
      }
      revokedTokenIds := revokedTokenIds + {tokenId};
      return Ok(());
    }

    /** The trait's default: one call per token, stopping at the first error. An empty list
        succeeds even while the backend is down. */
    method RevokeTokens(tokenIds: seq<string>, ghost clock: Time) returns (r: Result<nat, StoreError>)
      modifies this`revokedTokenIds
      ensures r.Ok? <==> backendAvailable || tokenIds == []
      ensures r.Ok? ==> r.value == |tokenIds| && revokedTokenIds == old(revokedTokenIds) + set id | id in tokenIds
      ensures r.Err? ==> Contents() == old(Contents())
    {
      var count := 0;
      for i := 0 to |tokenIds|
        invariant count == i && (backendAvailable || i == 0)
        invariant revokedTokenIds == old(revokedTokenIds) + set id | id in tokenIds[..i]
      {
        var one := RevokeToken(tokenIds[i], clock);
        if one.Err? {
          return Err(one.error);
        }
        assert tokenIds[..i + 1] == tokenIds[..i] + [tokenIds[i]];
        count := count + 1;
      }
      assert tokenIds[..|tokenIds|] == tokenIds;
      return Ok(count);
    }

    method EmergencyDenyAgent(agentId: string, ghost clock: Time) returns (r: Result<(), StoreError>)
      modifies this`emergencyDeniedAgents
      ensures r.Ok? <==> backendAvailable
      ensures Contents() == if r.Ok? then Step(Memory, old(Contents()), TrustState.EmergencyDenyAgent(agentId), clock).0 else old(Contents())
    {
      if !backendAvailable {
        return Err(Unavailable);
      }
      emergencyDeniedAgents := emergencyDeniedAgents + {agentId};
      return Ok(());
    }

    method ClearEmergencyDenyList(ghost clock: Time) returns (r: Result<nat, StoreError>)
      modifies this`emergencyDeniedAgents
      ensures r.Err? <==> !backendAvailable
      ensures r.Err? ==> Contents() == old(Contents())
      ensures r.Ok? ==> (Contents(), Count(r.value)) == Step(Memory, old(Contents()), TrustState.ClearEmergencyDenyList, clock)
    {
      if !backendAvailable {
        return Err(Unavailable);
      }
      var count := |emergencyDeniedAgents|;
      emergencyDeniedAgents := {};
      return Ok(count);
    }

    method FlushExpiredNonces(reference: Time, ghost clock: Time) returns (r: Result<nat, StoreError>)
      modifies this`consumedNonces
      ensures r.Err? <==> !backendAvailable
      ensures r.Err? ==> Contents() == old(Contents())
      ensures r.Ok? ==> (Contents(), Count(r.value)) == Step(Memory, old(Contents()), TrustState.FlushExpiredNonces(reference), clock)
    {
      if !backendAvailable {
        return Err(Unavailable);
      }
      var before := |consumedNonces|;
      RetainShrinks(consumedNonces, reference);
      consumedNonces := map n | n in consumedNonces && consumedNonces[n] >= reference :: consumedNonces[n];
      return Ok(before - |consumedNonces|);
    }
  }

  /** The two paths a file store uses: its state file, absent until first saved, and its lock file;
      and how often creating the latter has been refused. */
  class Disk {
    var stateFile: Option<State>
    var lockFile: bool
    ghost var refusals: nat

    constructor ()
      ensures stateFile == None && !lockFile && refusals == 0
    {
      stateFile := None;
      lockFile := false;
      refusals := 0;
    }

    /** Opening with `create_new`: fails when the file is there. */
    method CreateNewLock() returns (created: bool)
      modifies this`lockFile, this`refusals
      ensures created <==> !old(lockFile)
      ensures lockFile && refusals == old(refusals) + if created then 0 else 1
    {
      created := !lockFile;
      refusals := refusals + if created then 0 else 1;
      lockFile := true;
    }
  }

  /** The file store with no other process at work; LockProtocol interleaves many. */
  class FileBackedTrustState {
    const disk: Disk
    var backendAvailable: bool

    ghost function Contents(): State
      reads disk
    {
      disk.stateFile.UnwrapOr(EMPTY)
    }

    /** A call goes through exactly when the backend is up and nobody holds the lock. */
    ghost predicate Open()
      reads this, disk
    {
      backendAvailable && !disk.lockFile
    }

    constructor (disk: Disk)
      ensures this.disk == disk && backendAvailable
    {
      this.disk := disk;
      backendAvailable := true;
    }

    method SetBackendAvailable(available: bool)
      modifies this`backendAvailable
      ensures backendAvailable == available
    {
      backendAvailable := available;
    }

    /** Gives up after exactly twenty-one refusals, having taken the lock at once otherwise. */
    method AcquireLock() returns (r: Result<(), StoreError>)
      modifies disk`lockFile, disk`refusals
      ensures r == if old(disk.lockFile) then Err(LockTimeout) else Ok(())
      ensures disk.lockFile
      ensures disk.refusals == old(disk.refusals) + if r.Err? then 21 else 0
    {
      var attempts := 0;
      while true
        invariant 0 <= attempts <= 20
        invariant attempts > 0 ==> old(disk.lockFile)
        invariant disk.lockFile == old(disk.lockFile) && disk.refusals == old(disk.refusals) + attempts
        decreases 20 - attempts
      {
        var created := disk.CreateNewLock();
        if created {
          return Ok(());
        }
        attempts := attempts + 1;
        if attempts > 20 {
          return Err(LockTimeout);
        }
      }
    }

    method ReleaseLock()
      modifies disk`lockFile
      ensures !disk.lockFile
    {
      disk.lockFile := false;
    }

    method LoadPersisted() returns (s: State)
      ensures s == Contents()
    {
      if disk.stateFile.None? {
        return EMPTY;
      }
      return disk.stateFile.value;
    }

    method SavePersisted(s: State)
      modifies disk`stateFile
      ensures Contents() == s && disk.stateFile == Some(s)
    {
      disk.stateFile := Some(s);
    }

    method IsTokenRevoked(tokenId: string, ghost clock: Time) returns (r: Result<bool, StoreError>)
      modifies disk`lockFile, disk`refusals
      ensures disk.lockFile == old(disk.lockFile)
      ensures r.Ok? <==> old(Open())
      ensures r.Ok? ==> r.value == Step(File, Contents(), TrustState.IsTokenRevoked(tokenId), clock).1.yes
    {
      if !backendAvailable {
        return Err(Unavailable);
      }
      var _ :- AcquireLock();
      var persisted := LoadPersisted();
      ReleaseLock();
      return Ok(tokenId in persisted.revoked);
    }

    method IsAgentEmergencyDenied(agentId: string, ghost clock: Time) returns (r: Result<bool, StoreError>)
      modifies disk`lockFile, disk`refusals
      ensures disk.lockFile == old(disk.lockFile)
      ensures r.Ok? <==> old(Open())
      ensures r.Ok? ==> r.value == Step(File, Contents(), TrustState.IsAgentEmergencyDenied(agentId), clock).1.yes
    {
      if !backendAvailable {
        return Err(Unavailable);
      }
      var _ :- AcquireLock();
      var persisted := LoadPersisted();
      ReleaseLock();
      return Ok(agentId in persisted.denied);
    }

    /** A refusal leaves the file as it was: the pruning is not saved. */
    method ConsumeNonce(nonce: string, validUntil: Time, clock: Time) returns (r: Result<bool, StoreError>)
      modifies disk
      ensures disk.lockFile == old(disk.lockFile)
      ensures r.Ok? <==> old(Open())
      ensures r != Ok(true) ==> disk.stateFile == old(disk.stateFile)
      ensures r.Ok? ==> (Contents(), Answer(r.value)) == Step(File, old(Contents()), TrustState.ConsumeNonce(nonce, validUntil), clock)
    {
      if !backendAvailable {
        return Err(Unavailable);
      }
      var _ :- AcquireLock();
      var persisted := LoadPersisted();
      var pruneBefore := Min(clock, validUntil);
      var kept := map n | n in persisted.nonces && persisted.nonces[n] >= pruneBefore :: persisted.nonces[n];
      if nonce in kept {
        ReleaseLock();
        return Ok(false);
      }
      persisted := persisted.(nonces := kept[nonce := validUntil]);
      SavePersisted(persisted);
      ReleaseLock();
      return Ok(true);
    }

    method RevokeToken(tokenId: string, ghost clock: Time) returns (r: Result<(), StoreError>)
      modifies disk
      ensures disk.lockFile == old(disk.lockFile)
      ensures r.Ok? <==> old(Open())
      ensures Contents() == if r.Ok? then Step(File, old(Contents()), TrustState.RevokeToken(tokenId), clock).0 else old(Contents())
    {
      if !backendAvailable {
        return Err(Unavailable);
      }
      var _ :- AcquireLock();
      var persisted := LoadPersisted();
      persisted := persisted.(revoked := persisted.revoked + {tokenId});
      SavePersisted(persisted);
      ReleaseLock();
      return Ok(());
    }

    method EmergencyDenyAgent(agentId: string, ghost clock: Time) returns (r: Result<(), StoreError>)
      modifies disk
      ensures disk.lockFile == old(disk.lockFile)
      ensures r.Ok? <==> old(Open())
      ensures Contents() == if r.Ok? then Step(File, old(Contents()), TrustState.EmergencyDenyAgent(agentId), clock).0 else old(Contents())
    {
      if !backendAvailable {
        return Err(Unavailable);
      }
      var _ :- AcquireLock();
      var persisted := LoadPersisted();
      persisted := persisted.(denied := persisted.denied + {agentId});
      SavePersisted(persisted);
      ReleaseLock();
      return Ok(());
    }

    method ClearEmergencyDenyList(ghost clock: Time) returns (r: Result<nat, StoreError>)
      modifies disk
      ensures disk.lockFile == old(disk.lockFile)
      ensures r.Ok? <==> old(Open())
      ensures r.Err? ==> disk.stateFile == old(disk.stateFile)
      ensures r.Ok? ==> (Contents(), Count(r.value)) == Step(File, old(Contents()), TrustState.ClearEmergencyDenyList, clock)
    {
      if !backendAvailable {
        return Err(Unavailable);
      }
      var _ :- AcquireLock();
      var persisted := LoadPersisted();
      var count := |persisted.denied|;
      persisted := persisted.(denied := {});
      SavePersisted(persisted);
      ReleaseLock();
      return Ok(count);
    }

    /** The file is written only when something was removed. */
    method FlushExpiredNonces(reference: Time, ghost clock: Time) returns (r: Result<nat, StoreError>)
      modifies disk
      ensures disk.lockFile == old(disk.lockFile)
      ensures r.Ok? <==> old(Open())
      ensures r.Err? || r.value == 0 ==> disk.stateFile == old(disk.stateFile)
      ensures r.Ok? ==> (Contents(), Count(r.value)) == Step(File, old(Contents()), TrustState.FlushExpiredNonces(reference), clock)
    {
      if !backendAvailable {
        return Err(Unavailable);
      }
      var _ :- AcquireLock();
      var persisted := LoadPersisted();
      var before := |persisted.nonces|;
      RetainShrinks(persisted.nonces, reference);
      var kept := map n | n in persisted.nonces && persisted.nonces[n] >= reference :: persisted.nonces[n];
      persisted := persisted.(nonces := kept);
      var removed := before - |persisted.nonces|;
      if removed > 0 {
        SavePersisted(persisted);
      }
      ReleaseLock();
      return Ok(removed);
    }
  }
}
