# Signet, verified

A Dafny model of Signet, the fail-closed trust evaluator for agent requests, and proofs of what it is
relied on for. `dafny verify dfyconfig.toml` checks the whole project.

- **Signing payloads.** Identity documents and delegation tokens are serialised to JSON trees
  (`Payload`), written as canonical JSON (`Json`, `Canonical`) and encoded (`Utf8`). Two trees share
  their bytes exactly when they are the same JSON value, so a signature covers every field and does
  not depend on any map's iteration order. The one exception, an extra constraint named like one of
  the two built-in ones, is stated exactly. `PayloadReading` parses the payloads back and says which
  field stands under which name.
- **Signatures** (`Signatures`). Ed25519 and base64url are functions of unknown body. What is assumed
  of them is the predicate `Lawful`, which a concrete toy scheme is shown to satisfy.
- **Trust state.** `TrustState` gives the store calls and the laws of every run: the nonce map is the
  live part of the history, both backends follow the naive replay rule, and they agree with each
  other. `TrustStores` has the two stores as objects, updated in place or loaded and saved under a
  lock file. `LockProtocol` interleaves any number of threads on that lock file, one file system
  operation at a time, and lets them die anywhere.
- **Adapter guard.** `Guard` proves that the sharded sliding-window limiter decides as one that keeps
  the full admission history; `AdapterGuard` has it as the mutable shards it is.
- **Audit log.** `AuditLog` proves the backward chunked reader equal to splitting the whole file, and
  the forward one equal to filtering its lines. `AuditTrail` follows evaluations onto the log and
  into the operational report: nothing is lost or counted twice. `AuditInterleaving` has any number of
  writers append to the file at the same time.
- **Evaluation.** `Contracts`, `Policy` and `Pipeline` are the eight stages, their exact conditions
  and their effect on the store. `Admission` says of the request as received what is let through, why
  one is denied and what the audit event and the decision then hold. `ConcurrentEvaluation`
  interleaves evaluations and administration one store call at a time, and `FileEvaluation` one file
  system operation at a time, on the threads of `LockProtocol`. `ReplayWindow` says how long a token
  can be replayed. `Issuance` has the three builders and proves when the pipeline allows what they
  make.

Instants are integers (nanoseconds). A store reads its own clock, which is an input separate from the
caller's `now`. `Wrappers`, `Text`, `Models` and `FieldNames` hold what the others share.

Six findings, each with its exact condition proved:

- `src/audit.rs:109-110` says that the backward reader skips lines that are not UTF-8 "matching the
  forward-scan behaviour". The forward scan returns an error on such a line (`src/audit.rs:81`). It
  also misses an event that has whitespace around it which JSON does not know, such as a no-break
  space, because only the backward reader trims its lines. The readers agree on a log exactly when
  neither occurs: `AuditLog.ReadersAgreeIff`.
- `ResourceConstraints.extra` is flattened beside two named fields (`src/models.rs:127-131`). An extra
  entry of the same name takes the field's place in the signing payload, so the field itself is then
  not signed: `Payload.ClashingExtraHidesNamed`.
- The `u32` sum of the judges' scores wraps. Panels of n judges are judged by their true average
  exactly when n is at most 65537: `Policy.ExactPanelsIff`.
- Consuming the nonce is to block replay (`src/stages.rs:186-191`). The token lifetime check grants a
  leeway (`src/stages.rs:32`) that the store, which forgets a nonce once its token has expired, does
  not know of, so a token can be allowed again within it. For a caller's clock, a leeway and a store
  clock, and with flushes never ahead of the clock, that can happen exactly when store clock and leeway
  are together more than a nanosecond ahead of the caller: `ReplayWindow.AllowedAgainIff`. At no leeway
  and with a store clock that is not ahead, a token is allowed once:
  `ConcurrentEvaluation.TokenAllowedOnce`. A flush ahead of the clock always lets a nonce in again:
  `TrustState.FlushAheadForgets`.
- `writeln!` on the audit file (`src/audit.rs:62`) appends a line and its newline in two writes. If
  another writer's append falls between them two events share a line and neither is read back. All
  events are read back exactly when that does not happen: `AuditInterleaving.AllReadBackIff`.
- The two stores are not interchangeable: they answer differently exactly on the nonces of expired
  tokens and in what flushes count: `TrustState.BackendsDifferIff`.

## Model

| member | source | states |
|---|---|---|
| Utf8.ByteOrderIsTextOrder | src/crypto.rs:123-124 | Comparing strings by their UTF-8 bytes, as the key sort does, is comparing them scalar by scalar. |
| Utf8.EncodeInjective | src/crypto.rs:129-133 | Different texts have different UTF-8 bytes. |
| Utf8.DecodeIff | src/audit.rs:111-183 | UTF-8 decoding succeeds on the encoding of a text, with that text, and on nothing else. |
| Json.ReadBack | src/crypto.rs:118-157 | A printed value followed by any text (not running on with digits) is read back whole, and exactly the rest is left. |
| Json.PrintInjective | src/crypto.rs:118-157 | Two values print alike only if they are the same tree. |
| Json.PrintOneLine | src/audit.rs:61-62 | Printed JSON never contains a newline, whatever strings are in it. |
| Json.EscapedIff | src/crypto.rs:110-157 | A character is escaped exactly when it is a quotation mark, a backslash or a control character, by two characters where there is a short form and by six otherwise. |
| Json.IntIsShortest | src/crypto.rs:153-154 | Only a negative integer is printed with a sign, and none with a leading zero. |
| Canonical.SortedIsUnique | src/crypto.rs:123-124 | Entries with unique keys have one sorted arrangement. |
| Canonical.CanonIffEquivalent | src/crypto.rs:118-157 | Two values have the same canonical form exactly when they are the same JSON value, objects taken as unordered maps at every depth. |
| Canonical.CanonicalBytesIffEquivalent | src/crypto.rs:110-157 | Canonical bytes are equal exactly for equal JSON values: map order never shows, and no two different values share bytes. |
| Canonical.CanonicalIsUniquelyReadable | src/crypto.rs:110-157 | A parser finds in a canonical text followed by anything the value up to entry order and exactly the rest. |
| Canonical.CanonIdempotent | src/crypto.rs:110-157 | Canonical form is a normal form: taking it twice changes nothing. |
| Canonical.WriteCanonical | src/crypto.rs:118-157 | Appends to the buffer the canonical bytes of the value and nothing else. |
| Canonical.WriteObject | src/crypto.rs:121-138 | The sorted entry loop writes the canonical bytes of the object. |
| Canonical.WriteArray | src/crypto.rs:139-148 | The element loop writes the canonical bytes of the array, in order. |
| Canonical.ComputeCanonicalJson | src/crypto.rs:112-116 | Returns the canonical bytes of the value. |
| FieldNames.TokenKeysDistinct | src/models.rs:75-95 | A serialised token never has two fields under one name. |
| FieldNames.IdentityKeysDistinct | src/models.rs:143-161 | A serialised identity document never has two fields under one name. |
| Payload.TokenPayloadIff | src/crypto.rs:171-181 | Two tokens have the same signing payload exactly when they agree on all but the signature, constraints compared by what the flattened object says, whatever order the two hash maps iterate in. |
| Payload.TokenPayloadDeterminesToken | src/crypto.rs:171-181 | With no extra constraint named like a built-in one, equal payloads mean equal tokens but for the signature. |
| Payload.ClashingExtraHidesNamed | src/models.rs:125-132 | Exchanging a token's calendar and email domain lists leaves its payload unchanged exactly when, for each, an extra entry has its name or the list is the same. |
| Payload.IdentityPayloadIff | src/crypto.rs:159-169 | Two identity documents have the same signing payload exactly when they agree on all but the signature. |
| PayloadReading.TokenPayloadSays | src/crypto.rs:171-181 | A token's signing payload, read back by a parser, is an object of exactly the nineteen named entries, each with that field of the token, the signature empty; spend, lists and constraints included. |
| PayloadReading.IdentityPayloadSays | src/crypto.rs:159-169 | A document's signing payload, read back, is an object of exactly the seventeen named entries with that document's fields, keys, endpoints and attestation included, the signature empty. |
| Text.BlankIff | src/contracts.rs:229-237 | A string counts as empty exactly when it holds nothing but whitespace. |
| Text.TrimIsExact | src/engine.rs:337-347 | Trimming takes off the whitespace at both ends and nothing else. |
| Text.AfterLastAt | src/policy.rs:148-183 | The email domain is what follows the last at sign. |
| Signatures.VerifyIdentityDocumentSignature | src/crypto.rs:29-66 | Succeeds exactly when some listed key verifies the document, unusable keys being passed over; tells a malformed signature and a document without a usable key apart from one that fails. |
| Signatures.KeyIsFoundIff | src/crypto.rs:68-108 | Of the records under one key id only the first is ever found: a rotated key can be used exactly if its id was not listed before. |
| Signatures.TokenVerdictIff | src/crypto.rs:68-108 | A token verifies exactly when it names Ed25519 and the first key under its key id is a usable one that verifies its 64-byte signature over the token's payload; each of the five errors has its exact condition. |
| Signatures.VerificationSeesOnlyTheSigned | src/crypto.rs:68-108 | Tokens that say the same and carry the same signature verify alike, whatever the hash map orders on either side. |
| Signatures.SignedTokenVerifies | src/crypto.rs:20-27 | What a key signed verifies against any document whose first key of that id is the signer's, whatever the map orders of signer and verifier. |
| Signatures.SignedIdentityVerifies | src/crypto.rs:11-18 | A document signed by a key it lists verifies. |
| Signatures.ToySchemeIsLawful | src/crypto.rs:183-244 | What is assumed of the signature scheme and its encoding can be met. |
| TrustState.NonceMapIsHistory | src/revocation.rs:273-292 | After any run on either backend, with no assumption on clocks, the nonce map holds exactly the accepted calls whose entries nothing has pruned for good. |
| TrustState.ReplayLaw | src/revocation.rs:283-291 | A nonce is refused exactly when an earlier acceptance is still in place and spared by this call's own pruning. |
| TrustState.HistoryRule | src/revocation.rs:470-490 | For an unexpired token and a clock that did not go back, either backend refuses exactly when an earlier acceptance is unexpired and not flushed by a later reference. |
| TrustState.NaiveHistoryRule | src/revocation.rs:42-48 | With flushes never ahead of the clock, an unexpired token's nonce is accepted exactly when no earlier acceptance of it is unexpired. |
| TrustState.SecondAcceptanceIsAfterExpiry | src/revocation.rs:273-292 | A nonce is accepted again only strictly after the earlier acceptance's expiry. |
| TrustState.FlushAheadForgets | src/revocation.rs:318-326 | A flush with a reference ahead of the clock does let an unexpired nonce in again. |
| TrustState.BackendsAgree | src/revocation.rs:470-525 | On a common run with a monotone clock both backends hold the same unexpired nonces, revocations and denials and answer alike; for expired tokens the file store refuses at least what memory refuses, and a flush not behind the clock counts there at least what it counts in memory. |
| TrustState.BackendsDifferIff | src/revocation.rs:484-486 | For any call and clock, some common run makes the backends answer it differently exactly when it is the nonce call of an expired token, or a flush. |
| TrustState.ExpiredTokenParts | src/revocation.rs:484-486 | For every nonce, expiry behind the clock and clock there is a run after which memory lets the nonce in again and the file store does not. |
| TrustState.FileCanAlwaysCountMore | src/revocation.rs:512-525 | For every reference and clock some common run makes the file store's flush count more than memory's. |
| TrustState.MemoryCanCountMoreIff | src/revocation.rs:318-326 | Some common run makes memory's flush count more exactly when its reference is behind the clock. |
| TrustState.RevocationIsPermanent | src/revocation.rs:296-301 | A token is revoked exactly if some call of the run revoked it. |
| TrustState.DenialLastsUntilCleared | src/revocation.rs:303-316 | An agent is denied exactly if some denial of it has not been followed by a clearing. |
| TrustStores.InMemoryTrustState.IsTokenRevoked | src/revocation.rs:261-265 | Answers as the store laws say, and fails exactly when the backend is down. |
| TrustStores.InMemoryTrustState.IsAgentEmergencyDenied | src/revocation.rs:267-271 | Answers as the store laws say, and fails exactly when the backend is down. |
| TrustStores.InMemoryTrustState.ConsumeNonce | src/revocation.rs:273-292 | Moves the contents and answers as the store laws say; a failed call changes nothing. |
| TrustStores.InMemoryTrustState.RevokeToken | src/revocation.rs:296-301 | Adds the token, or fails and changes nothing. |
| TrustStores.InMemoryTrustState.RevokeTokens | src/revocation.rs:62-70 | Revokes all or none, counts them all, and succeeds on an empty list even while the backend is down. |
| TrustStores.InMemoryTrustState.EmergencyDenyAgent | src/revocation.rs:303-308 | Adds the agent, or fails and changes nothing. |
| TrustStores.InMemoryTrustState.ClearEmergencyDenyList | src/revocation.rs:310-316 | Empties the list and says how many were on it. |
| TrustStores.InMemoryTrustState.FlushExpiredNonces | src/revocation.rs:318-326 | Drops the nonces that expire before the reference and says how many. |
| TrustStores.FileBackedTrustState.AcquireLock | src/revocation.rs:390-425 | With nobody else at work, takes the lock at once if it is free and otherwise gives up after exactly twenty-one refusals. |
| TrustStores.FileBackedTrustState.IsTokenRevoked | src/revocation.rs:456-461 | Answers from the file; goes through exactly when the backend is up and the lock free, and leaves the lock as found. |
| TrustStores.FileBackedTrustState.IsAgentEmergencyDenied | src/revocation.rs:463-468 | Answers from the file; goes through exactly when the backend is up and the lock free, and leaves the lock as found. |
| TrustStores.FileBackedTrustState.ConsumeNonce | src/revocation.rs:470-490 | Moves the file and answers as the store laws say; a refusal leaves the file as it was. |
| TrustStores.FileBackedTrustState.RevokeToken | src/revocation.rs:359-365 | Adds the token to the file, or fails and changes nothing. |
| TrustStores.FileBackedTrustState.EmergencyDenyAgent | src/revocation.rs:367-376 | Adds the agent to the file, or fails and changes nothing. |
| TrustStores.FileBackedTrustState.ClearEmergencyDenyList | src/revocation.rs:502-510 | Empties the list in the file and says how many were on it. |
| TrustStores.FileBackedTrustState.FlushExpiredNonces | src/revocation.rs:512-525 | Drops the nonces that expire before the reference, and writes the file only when some were dropped. |
| LockProtocol.RunKeepsInv | src/revocation.rs:390-452 | Every interleaving keeps mutual exclusion, up-to-date snapshots and a state file that is the committed calls' sequential result. |
| LockProtocol.AtMostOneHolder | src/revocation.rs:403-408 | At most one thread is ever in its critical section. |
| LockProtocol.CommittedInLockOrder | src/revocation.rs:427-452 | No update is lost: the file holds what the committed calls make one at a time in lock order, and every reply is the one that order gives. |
| LockProtocol.NonceConsumedOnce | src/revocation.rs:470-490 | Two threads never both consume a nonce while its first acceptance is unexpired. |
| LockProtocol.EveryReplyIsDelivered | src/revocation.rs:533-537 | A living thread has been told, in order, exactly the replies committed for it. |
| LockProtocol.AcquireEnds | src/revocation.rs:401-417 | A thread that keeps finding the lock taken is turned away at its twenty-first failure and not before, whatever the others do. |
| LockProtocol.DeadHolderStopsTheStore | src/revocation.rs:533-537 | A thread that dies holding the lock stops the store for good. |
| LockProtocol.LockCanBeFreedIff | src/revocation.rs:533-537 | From any reachable state some schedule removes the lock file exactly when no thread died holding it. |
| LockProtocol.CanBeServedIff | src/revocation.rs:390-425 | A living thread with a call to make can be given a reply exactly when no thread died holding the lock. |
| Guard.KeyIsUniqueIff | src/adapters/guard.rs:117 | A tuple has its joined key to itself exactly when neither id contains U+001F. |
| Guard.KeyTellsTuple | src/adapters/guard.rs:117 | Tuples whose agent ids are free of U+001F share a key only if they are equal, whatever their delegator ids. |
| Guard.EnterEffect | src/adapters/guard.rs:106-150 | With a limit of zero nothing changes and the verdict is misconfiguration; otherwise entering changes only the entering tuple's count, drops everyone's expired stamps and gives the verdict the two limits call for. |
| Guard.ReleaseEffect | src/adapters/guard.rs:153-169 | Dropping a lease takes one off its tuple's count and touches nothing else. |
| Guard.GuardDecidesNaively | src/adapters/guard.rs:100-151 | Each call is decided as from the tuple's full admission history: fewer than the limit in the closed last minute, and fewer leases out than allowed. |
| Guard.GuardRefinesNaive | src/adapters/guard.rs:100-151 | Over any run with a clock that does not go back, any hash and any limits, the guard and the full-history limiter give the same verdicts, whatever other tuples do. |
| Guard.RunKeepsInv | src/adapters/guard.rs:46-61 | In every reachable state counts equal the leases out and are never stored as zero, in-flight tuples have a queue, stored tuples have a lease or a stamp, all in their own shard. |
| Guard.DeniedCallsCostNothing | src/adapters/guard.rs:125-142 | After a denied call every later call is told the same as if the denied one had not been made. |
| Guard.AtMostNInEveryWindow | src/adapters/guard.rs:123-150 | With limits of at most n, no closed sixty-second window, wherever it starts, holds more than n admissions of a tuple. |
| Guard.AtMostNFromStart | src/adapters/guard.rs:77-84 | The window bound holds for every run from process start. |
| AdapterGuard.GuardState.RemoveTupleIfIdle | src/adapters/guard.rs:46-61 | Forgets a tuple with neither leases nor stamps and leaves any other as it is. |
| AdapterGuard.GuardState.PopExpired | src/adapters/guard.rs:66-70 | Pops the stamps before the cutoff off the front of one queue. |
| AdapterGuard.GuardState.SweepExpiredTimestamps | src/adapters/guard.rs:63-73 | Whatever order the keys come in, the sweep ends in one and the same shard. |
| AdapterGuard.GuardState.TryEnter | src/adapters/guard.rs:123-150 | Changes the shard and decides as the specification of entering says. |
| AdapterGuard.GuardState.DropLease | src/adapters/guard.rs:159-167 | Changes the shard as the specification of releasing says. |
| AdapterGuard.GuardShards.EnterAdapterGuard | src/adapters/guard.rs:100-151 | Is one step of the proved system: the tuple's own shard moves, every other is untouched, and the lease names the shard entered. |
| AdapterGuard.GuardShards.DropLease | src/adapters/guard.rs:153-169 | Releases in the shard the lease was entered in and in no other. |
| AuditLog.SplitConcat | src/audit.rs:111-183 | Text put in front of a file changes its first line only: what lets lines be stitched across chunks. |
| AuditLog.SplitIsExact | src/audit.rs:145-148 | A file splits into segments free of newlines that, with a newline between any two, are the file. |
| AuditLog.TrimmedEventIff | src/audit.rs:155-168 | The backward reader finds an event on a segment exactly when it is UTF-8, not blank, and parses to it once trimmed. |
| AuditLog.LinesAre | src/audit.rs:77-81 | Up to its first newline a file is one line, which loses one carriage return at its end; a last line without a newline loses none and counts unless empty. |
| AuditLog.LineEventIff | src/audit.rs:81-85 | The forward reader finds an event on a line exactly when the line is UTF-8 and parses to it as it stands. |
| AuditLog.ReadNewestFirst | src/audit.rs:111-183 | For every file, chunk size and limit the backward reader returns the first events of the whole file split, reversed and filtered, none of them before the instant asked for and no more than the limit. |
| AuditLog.TakeSegments | src/audit.rs:154-178 | One window's walk collects its wanted events from right to left and stops exactly at the limit. |
| AuditLog.ReadOldestFirst | src/audit.rs:76-97 | The forward scan returns the first wanted events of the lines, none before the instant asked for and no more than the limit, and fails exactly when a line that is not UTF-8 comes before the limit is reached. |
| AuditLog.ReadEvents | src/audit.rs:67-100 | A missing file and a zero limit read as empty; otherwise the query's order decides the reader. |
| AuditLog.ReadChunk | src/audit.rs:130-152 | A chunk read to the left of what is known, split together with the carried fragment, yields the file's own lines there, the first of them carried on unless it begins the file. |
| AuditLog.NewestOfLines | src/audit.rs:111-183 | For any parser the backward reader's answer is that of the forward reader's lines, reversed: carriage returns never matter to it. |
| AuditLog.ReadersAgreeIff | src/audit.rs:75-99 | Read in full, a log comes out the same both ways round and without error exactly when all its lines are UTF-8 and none with a wanted event has whitespace around it that JSON does not know. |
| AuditLog.NoBreakSpaceSplitsReaders | src/audit.rs:154-164 | An event behind a no-break space is found by the backward reader and not by the forward one. |
| AuditLog.IllFormedLineSplitsReaders | src/audit.rs:109-110 | On a line that is not UTF-8 the forward scan fails where the backward one skips it. |
| AuditTrail.LineIsClean | src/audit.rs:61-62 | A written event occupies one line, which trimming leaves alone. |
| AuditTrail.EventLineSays | src/models.rs:217-228 | An event's line, read back, is an object of exactly ten named entries, each with that field of the event. |
| AuditTrail.SomeParserInverts | src/audit.rs:82-85 | Different events are written differently, so deserialising can give every event back. |
| AuditTrail.LogSplits | src/audit.rs:56-63 | A log splits into one line per event, in order, and an empty end. |
| AuditTrail.LogReadsBack | src/audit.rs:111-183 | Reading a log newest first returns the written events from the last, those at or after the instant asked for, up to the limit. |
| AuditTrail.LogReadsBothWays | src/audit.rs:75-99 | The forward scan never fails on a log and returns the written events in order. |
| AuditTrail.SinceIsExact | src/audit.rs:86-90 | Asked for from an instant on, an event is returned as often as it was written if it occurred at that instant or later, and otherwise not at all. |
| AuditTrail.SinceKeepsOrder | src/audit.rs:86-90 | The events asked for keep the order they were written in. |
| AuditInterleaving.TwoAppendsAreOne | src/audit.rs:62 | A line's append and its newline's, one right after the other, are the sink's write. |
| AuditInterleaving.SomeParserReadsOneEvent | src/audit.rs:82-85 | A parser that takes one event to a line, as is assumed here, exists. |
| AuditInterleaving.ReadBackExactly | src/audit.rs:55-183 | Of writers at work at the same time exactly those events are read back, by either reader, whose line no other line has come to stand beside. |
| AuditInterleaving.AllReadBackIff | src/audit.rs:55-183 | All events are read back, each once, exactly when no append of one writer falls between the two of another. |
| AuditTrail.BuildReport | src/control_plane.rs:114-136 | Totals match the events, allowed and denied add up, each stage's count is right and the counts sum to the total. |
| AuditTrail.AuditSink.WriteEvent | src/audit.rs:55-64 | Appends the event's line, creating the file if need be, or fails and changes nothing. |
| AuditTrail.EnforceRevocationAndRedelegation | src/stages.rs:143-204 | On either store the three calls in order do and answer what the pipeline's fifth stage is specified to. |
| AuditTrail.EvaluateAndAudit | src/engine.rs:253-265 | On either store the decision is the evaluation's and its event is on the log; with a failing sink no decision is returned, but the store has already changed. |
| AuditTrail.RunAudited | src/engine.rs:253-265 | Evaluations made one after the other on either store leave one event each on the log, in order, and return the matching decisions. |
| AuditTrail.EventsTellDecisions | src/engine.rs:279-322 | Every event has the verdict and the stage of the decision returned with it. |
| AuditTrail.ReportOnRun | src/control_plane.rs:114-136 | Conservation: a full report over any run's log counts every returned decision once, under its stage, and nothing else. |
| Contracts.TokenPassesIff | src/contracts.rs:51-106 | A token passes exactly when version, kind and algorithm are the literal ones, eight mandatory texts and both lists are filled in, it is issued before it expires, and whatever optional part it has is filled in. |
| Contracts.DocumentPassesIff | src/contracts.rs:108-204 | A document passes exactly when version and kind are the literal ones, its texts, lists, Ed25519 keys and endpoints are filled in, its dates are in order and an attestation is complete. |
| Contracts.RequestPassesIff | src/contracts.rs:20-49 | An envelope passes exactly when version and kind are the literal ones, its texts are filled in, no negative spend is asked for, its token passes and a document passes and is the agent's own. |
| Policy.FirstFailure | src/engine.rs:272-276 | Finds nothing exactly when all checks passed, and otherwise the first that failed, all before it having passed. |
| Policy.ChecksInOrder | src/policy.rs:19-29 | The default policy's seven checks go by their names in this order. |
| Policy.HostChecksFailIff | src/policy.rs:31-102 | For panels of any size the gate fails exactly on fewer than two judges, a wrapped sum below 8500 per judge or a challenge rate missing or below 9000; reputation fails exactly below 7000 with neither a passed challenge nor an approval; depth fails exactly above the token's limit. |
| Policy.RequestChecksFailIff | src/policy.rs:104-213 | Action, calendar, mail domain and spend are refused exactly when asked for, restricted and left out, the domain being what follows the last at sign. |
| Policy.AverageIff | src/policy.rs:39-53 | For any panel the floored average of the wrapping sum reaches the threshold exactly when the wrapped sum is at least 8500 per judge. |
| Policy.AverageIffForRealPanels | src/policy.rs:39-53 | Up to 65537 judges nothing wraps: the check passes exactly when the true sum is at least 8500 per judge. |
| Policy.CognitiveGateIff | src/policy.rs:31-72 | In exact arithmetic the gate wants two judges or more, 85 percent on average and 90 percent of challenges passed, and nothing of a host without scores. |
| Policy.ExactPanelsIff | src/policy.rs:39-53 | For every panel size up to 2^32, all panels of that size are judged by their true average exactly when it is at most 65537. |
| Policy.BetterFactsNeverHurt | src/policy.rs:19-102 | Higher scores from the same panel, a better reputation, more approvals or less depth never turn a pass into a failure. |
| Policy.NarrowingNeverPermitsMore | src/policy.rs:104-240 | A narrowed token permits no request that the original refuses. |
| Policy.NarrowsIff | src/policy.rs:104-240 | Narrowing is exactly this: of tokens that allow some action, one permits nothing the other refuses if and only if it narrows it. |
| Pipeline.FirstUnmetFailsFirst | src/engine.rs:70-80 | Reading the demands off in stage order finds the first unmet one, and none exactly when all are met. |
| Pipeline.BeforeStoreIff | src/engine.rs:70-74 | The four stages before the store pass exactly when their demands are met, with the aliased envelope, and otherwise name the first unmet. |
| Pipeline.EnforceIff | src/stages.rs:143-204 | The fifth stage passes exactly when the store answers, nothing is barred, the nonce is fresh and the depth allowed. |
| Pipeline.AllowedIff | src/engine.rs:58-124 | A request is allowed exactly when all eight stages' demands are met, and a denial names the first in the required order that is not. |
| Pipeline.BackendErrorDenies | src/stages.rs:148-185 | A store that does not answer always means denial. |
| Pipeline.NonceRecordedIff | src/stages.rs:178-191 | An evaluation records the nonce exactly when the first four stages pass, the store answers, nothing is barred and the nonce is fresh, even if a later stage denies; nothing else is ever recorded. |
| Pipeline.ReplayDenied | src/stages.rs:186-191 | An allowed request presented again with the store as it was left is denied, at any clock. |
| Pipeline.ReplayAfterAnotherIff | src/stages.rs:178-191 | With another request allowed in between, an allowed request is allowed again exactly when the other's pruning went past its expiry and it meets all demands but freshness. |
| Pipeline.DepthNeverFailsInPolicy | src/policy.rs:215-273 | After the fifth stage the default policy's depth check is never the one that fails. |
| Admission.ProfileStageIff | src/profiles.rs:3-84 | The second stage denies exactly the valid requests without a document, or whose document is not of the OIDC or SPIFFE profile's type, issuer or subject, authentication method or transport; a developer's document may be any. |
| Admission.AllowedActionIsCanonical | src/engine.rs:327-335 | What is allowed is the request as sent but for the canonical name of a listed action alias; the policy passed that name, which by default is an action the token lists. |
| Admission.AllowedIsOfItsKind | src/contracts.rs:206-228 | An allowed request, its token and its document are version 0.1 and of their own kinds. |
| Admission.DenialReason | src/engine.rs:70-80 | The cause a denial gives is exact: malformed, the one of five causes that the store's state and the depth call for, the name of the first failing policy check, or the stage's own. |
| Admission.AllowedEventTells | src/engine.rs:279-295 | An allowed evaluation's event holds, in its ten fields, the time, the verdict, the last stage and the request's own ids, audience and token, with the canonical action. |
| Admission.DeniedEventTells | src/engine.rs:297-322 | A denied one's event holds the time, the violated stage's name, its reason, and at each of six fields the trimmed text found at that place in the request, or none where there is no text or a blank one. |
| Admission.DecisionTells | src/engine.rs:82-122 | The decision allows exactly what was let through, names the stage and reason, and its event agrees with it. |
| ConcurrentEvaluation.StepsMakeEvaluate | src/stages_async.rs:4-68 | An evaluation's steps taken without interruption are the sequential evaluation. |
| ConcurrentEvaluation.RunKeepsInv | src/stages_async.rs:4-68 | Whatever the interleaving, the store is the answered calls' sequential result and every evaluation past a call has its favourable answer on record. |
| ConcurrentEvaluation.AllowedHadThreeAnswers | src/stages_async.rs:4-68 | An allowed evaluation had the favourable answers to all three calls, as the store's sequential history gives them, with the caller's clock within the token's lifetime. |
| ConcurrentEvaluation.NonceAllowedOnce | src/stages_async.rs:4-68 | Of two allowed evaluations of one nonce the later to consume it did so strictly after the earlier one's token expired. |
| ConcurrentEvaluation.TokenAllowedOnce | src/stages.rs:32-37 | As far as callers' clocks keep ahead of the store's by their leeway, one token is allowed at most once in every interleaving. |
| ConcurrentEvaluation.RevokedBeforeCheckIsNeverAllowed | src/stages.rs:148-161 | An evaluation that has not made its revocation check when its token is revoked is never allowed, however delayed. |
| ConcurrentEvaluation.DeniedBeforeCheckIsNeverAllowed | src/stages.rs:163-176 | The same for a denied agent, until the deny list is cleared. |
| ConcurrentEvaluation.BarredAfterChecksIsTooLate | src/stages.rs:178-203 | Past its checks an evaluation ends the same way whatever is revoked or denied meanwhile. |
| ConcurrentEvaluation.RevokedAfterCheckIsTooLate | src/stages.rs:148-161 | Past its revocation check an evaluation goes on and ends the same way whatever tokens are revoked, along any schedule of it and of administration. |
| ReplayWindow.AllowedAgainIff | src/stages.rs:20-40 | For any caller's clock, leeway and store clock, some run allows a token a second time there exactly when the store clock and the leeway are together more than one tick ahead of the caller. |
| ReplayWindow.SampleAllowed | src/stages.rs:20-40 | A concrete issued request is allowed on an empty store throughout its lifetime, leeway included. |
| FileEvaluation.RunKeepsInv | src/revocation.rs:390-490 | With evaluations on the threads of the lock-file protocol, every interleaving of file operations, lock timeouts and deaths keeps each evaluation's answers in the committed history. |
| FileEvaluation.AllowedHadThreeAnswers | src/revocation.rs:455-490 | An allowed evaluation's three calls are in the history the state file is the result of, each favourably answered. |
| FileEvaluation.NonceAllowedOnce | src/revocation.rs:470-490 | Of two allowed evaluations of one nonce the later to consume it in lock order did so strictly after the earlier one's token expired. |
| FileEvaluation.TokenAllowedOnce | src/stages.rs:32-37 | As far as callers' clocks keep ahead of the store's by their leeway, one token is allowed at most once in every interleaving of file operations. |
| FileEvaluation.StepsMakeEvaluate | src/stages.rs:143-204 | With the lock free, an evaluation left alone on its thread ends as the sequential evaluation on the file's contents does, and leaves the contents that it leaves. |
| FileEvaluation.AllowedWasNotRevoked | src/revocation.rs:456-461 | An allowed evaluation's revocation check was committed before every revocation of its token. |
| FileEvaluation.StarvedIsDenied | src/revocation.rs:401-417 | An evaluation whose store call finds the lock taken twenty-one times, whatever others do meanwhile, is denied as by a backend that does not answer. |
| Issuance.SuffixTellsItsCount | src/issuance.rs:14-21 | A generated suffix determines the count and the instant it was made of. |
| Issuance.GeneratedIdentifiersDiffer | src/issuance.rs:250-271 | Tokens that left id and nonce open and drew different counts share neither. |
| Issuance.IssuanceCounter.UniqueSuffix | src/issuance.rs:14-21 | Uses up exactly one count. |
| Issuance.DelegationTokenBuilder.BuildAndSign | src/issuance.rs:202-278 | Fails with the first requirement not met, in order, or returns a token that says what was set, defaults for the rest, signed over itself. |
| Issuance.AgentIdentityDocumentBuilder.AdditionalPublicKey | src/issuance.rs:369-380 | Adds a well-formed Ed25519 key record after those given before. |
| Issuance.AgentIdentityDocumentBuilder.BuildAndSign | src/issuance.rs:422-501 | Fails with the first requirement not met, in order, or returns a document that says what was set, lists the signing key first, and is signed over itself. |
| Issuance.RequestEnvelopeBuilder.Build | src/issuance.rs:607-641 | Fails with the first part missing, or assembles the parts, the asking agent and delegator defaulting to the token's; uses up a count only to name an unnamed request. |
| Issuance.TokenContractIff | src/contracts.rs:51-106 | An issued token passes the contract check exactly when nothing given to its builder was blank. |
| Issuance.DocumentContractIff | src/contracts.rs:108-204 | An issued document passes the contract check exactly when nothing given to its builder was blank. |
| Issuance.EnvelopeContractIff | src/contracts.rs:20-49 | An assembled envelope passes the contract check exactly when nothing given was blank, its parts pass and its document is the asking agent's. |
| Issuance.IssuedVerifies | src/stages.rs:87-118 | Both signatures of an issued request verify when the document publishes the token's key first under its id. |
| Issuance.IssuedRequestAllowedIff | src/issuance.rs:202-641 | An issued request is allowed exactly when nothing given was blank, its parts agree, and time, profile, store and policy accept it; neither signature nor contract ever stands in the way otherwise. |

## Left out

- Ed25519 and base64url: only that keys verify what they signed, and that decoding undoes encoding, is assumed (`Signatures.Lawful`); unforgeability is not modelled.
- Deserialisation of requests, events and the state file: requests start as an envelope or none, and the audit line parser is a parameter that gives back what was written and, where the two readers are compared, treats whitespace as JSON does.
- The wording of errors and refusal reasons: refusals carry their cause, and the text made of it is a parameter.
- Floating-point JSON numbers: the signed structures carry integers only.
- Unicode beyond scalar values: strings are sequences of scalars, so lone surrogates do not occur, as in Rust.
- The Redis store, the runtime configuration and the environment variables that choose a store.
- The HTTP, MCP, A2A and axum adapters, the proxy, the client, the CLI, discovery, wire types and delegation UX: plumbing around the engine.
- The OIDC bridge's verifier variant of the chain (src/engine.rs:127-176), which replaces one stage by a foreign token check.
- `src/engine_async.rs` and `src/revocation_async.rs`: copies of the synchronous code; only the await points of `src/stages_async.rs` matter, as step boundaries.
- Torn writes, unreadable or corrupt state files, poisoned mutexes, and an audit file that changes while it is read.
- A clock that goes back is excluded for the guard's refinement and the agreement of the backends; `TrustState.NonceMapIsHistory` and `TrustState.ReplayLaw` hold for any clock.
- Instants and durations are unbounded, so chrono's overflow panics and a leeway beyond its range are not modelled.
- Builds with overflow checks, in which the judges' sum panics where the model's wraps.
- Score panels of 2^32 judges or more, whose number no longer fits a `u32`.
- Allocation: the audit reader reserves room for `limit` events before it reads; a limit too large to reserve is not modelled.
- The setters of one field each of the three builders: they are plain assignments to the builder's draft; those that append to a list have no row.
- Consumption of a builder by building: the model's builders could be built twice.
- FileBackedTrustState: one process at a time; the interleaving of several, and their deaths, is `LockProtocol` and `FileEvaluation`.
- Sleeping between lock attempts, and errors of the file system other than an existing lock file.
- Metrics and tracing.
- Stores other than the two local ones behind the engine's store interface.
- Reports on evaluations that run at the same time: `AuditTrail.RunAudited` makes them one after the other; what such evaluations write to one file is `AuditInterleaving`.
- A single append that the system carries out in part.
