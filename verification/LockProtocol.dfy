/** The lock-file protocol of the file store, with any number of threads interleaved one file
    system operation at a time, and threads that may die at any point. */
module LockProtocol {
  import opened Wrappers
  import opened Models
  import opened TrustState

  const MAX_ATTEMPTS: nat := 20

  datatype Outcome = TimedOut | Replied(reply: Reply)

  /** Where a thread stands in the call at the head of its program. `create_new` is tried in
      Acquiring; the file is read in Locked, the clock in Loaded, the file written in Saving and
      the lock file removed in Unlocking. */
  datatype Pc =
    | Acquiring(attempts: nat)
    | Locked
    | Loaded(snapshot: State)
    | Saving(next: State, clock: Time, reply: Reply)
    | Unlocking(reply: Reply)
    | Dead(holding: bool)

  datatype Thread = Thread(todo: seq<Op>, pc: Pc, outcomes: seq<Outcome>)

  /** A call that went through, in the order the lock was held. */
  datatype Committed = Committed(tid: nat, call: Call, reply: Reply)

  datatype System = System(threads: seq<Thread>, lockFile: bool, stateFile: Option<State>, log: seq<Committed>, now: Time)
  {
    function Contents(): State {
      stateFile.UnwrapOr(EMPTY)
    }
  }

  datatype Action = Advance(tid: nat, clock: Time) | Die(tid: nat)

  /** Which calls write the state file; the others return after reading it. */
  predicate Writes(op: Op, reply: Reply) {
    match op
    case IsTokenRevoked(_) => false
    case IsAgentEmergencyDenied(_) => false
    case ConsumeNonce(_, _) => reply == Answer(true)
    case FlushExpiredNonces(_) => reply != Count(0)
    case _ => true
  }

  function Next(s: System, a: Action): System {
    if a.tid >= |s.threads| then s
    else
      var t := s.threads[a.tid];
      match a
      case Die(tid) =>
        if t.pc.Dead? then s else s.(threads := s.threads[tid := t.(pc := Dead(!t.pc.Acquiring?))])
      case Advance(tid, clock) =>
        if clock < s.now || t.todo == [] || t.pc.Dead? then s
        else AdvanceThread(s.(now := clock), tid, t, clock)
  }

  function AdvanceThread(s: System, tid: nat, t: Thread, clock: Time): System
    requires tid < |s.threads| && t.todo != []
  {
    match t.pc
    case Acquiring(attempts) =>
      if !s.lockFile then s.(lockFile := true, threads := s.threads[tid := t.(pc := Locked)])
      else if attempts + 1 > MAX_ATTEMPTS then
        s.(threads := s.threads[tid := Thread(t.todo[1..], Acquiring(0), t.outcomes + [TimedOut])])
      else s.(threads := s.threads[tid := t.(pc := Acquiring(attempts + 1))])
    case Locked => s.(threads := s.threads[tid := t.(pc := Loaded(s.Contents()))])
    case Loaded(snapshot) =>
      var (next, reply) := Step(File, snapshot, t.todo[0], clock);
      s.(threads := s.threads[tid := t.(pc := Saving(next, clock, reply))])
    case Saving(next, read, reply) =>
      s.(threads := s.threads[tid := t.(pc := Unlocking(reply))],
         stateFile := if Writes(t.todo[0], reply) then Some(next) else s.stateFile,
         log := s.log + [Committed(tid, Call(t.todo[0], read), reply)])
    case Unlocking(reply) =>
      s.(lockFile := false,
         threads := s.threads[tid := Thread(t.todo[1..], Acquiring(0), t.outcomes + [Replied(reply)])])
    case Dead(_) => s
  }

  function Run(s: System, schedule: seq<Action>): System
    decreases |schedule|
  {
    if schedule == [] then s else Run(Next(s, schedule[0]), schedule[1..])
  }

  /** Threads with programs of their own, none started, over an absent state file. */
  predicate Initial(s: System) {
    !s.lockFile && s.stateFile.None? && s.log == []
    && forall i | 0 <= i < |s.threads| :: s.threads[i].pc == Acquiring(0) && s.threads[i].outcomes == []
  }

  // ---------------------------------------------------------------- the invariant

  /** In the critical section, or died there. */
  predicate Holds(t: Thread) {
    !t.pc.Acquiring? && t.pc != Dead(false)
  }

  function Calls(log: seq<Committed>): (r: seq<Call>)
    ensures |r| == |log|
  {
    seq(|log|, i requires 0 <= i < |log| => log[i].call)
  }

  ghost predicate MutualExclusion(s: System) {
    (forall i, j | 0 <= i < |s.threads| && 0 <= j < |s.threads| && Holds(s.threads[i]) && Holds(s.threads[j]) :: i == j)
    && (s.lockFile <==> exists i :: 0 <= i < |s.threads| && Holds(s.threads[i]))
  }

  /** Nothing a thread carries through the critical section is out of date. */
  predicate UpToDate(s: System, t: Thread) {
    (t.pc.Loaded? ==> t.pc.snapshot == s.Contents())
    && (t.pc.Saving? ==> t.todo != [] && t.pc.clock <= s.now
                         && (t.pc.next, t.pc.reply) == Step(File, s.Contents(), t.todo[0], t.pc.clock)
                         && forall k | 0 <= k < |s.log| :: s.log[k].call.clock <= t.pc.clock)
    && (t.pc.Acquiring? ==> t.pc.attempts <= MAX_ATTEMPTS)
    && (Holds(t) && !t.pc.Dead? ==> t.todo != [])
  }

  /** The state file is what the committed calls make of an empty store, one after the other, and
      each reply is the one its call gets in that sequence. */
  ghost predicate Sequential(s: System) {
    s.Contents() == After(File, Calls(s.log))
    && (forall k | 0 <= k < |s.log| :: s.log[k].reply == ReplyAt(File, Calls(s.log), k))
    && ClockMonotone(Calls(s.log))
    && (forall k | 0 <= k < |s.log| :: s.log[k].call.clock <= s.now)
  }

  ghost predicate Inv(s: System) {
    MutualExclusion(s) && Sequential(s) && forall i | 0 <= i < |s.threads| :: UpToDate(s, s.threads[i])
  }

  lemma InitialInv(s: System)
    requires Initial(s)
    ensures Inv(s)
  {
  }

  /** Calls that do not write leave the state as it is, so skipping the save loses nothing. */
  lemma UnwrittenUnchanged(s: State, op: Op, clock: Time)
    ensures var (next, reply) := Step(File, s, op, clock); !Writes(op, reply) ==> next == s
  {
    if op.FlushExpiredNonces? {
      RetainShrinks(s.nonces, op.reference);
    }
  }

  lemma CommitExtends(s: System, c: Committed)
    requires Sequential(s) && c.call.clock <= s.now
    requires forall k | 0 <= k < |s.log| :: s.log[k].call.clock <= c.call.clock
    requires c.reply == Step(File, s.Contents(), c.call.op, c.call.clock).1
    ensures var log := s.log + [c];
            After(File, Calls(log)) == Step(File, s.Contents(), c.call.op, c.call.clock).0
            && ClockMonotone(Calls(log))
            && forall k | 0 <= k < |log| :: log[k].reply == ReplyAt(File, Calls(log), k) && log[k].call.clock <= s.now
  {
    var log := s.log + [c];
    assert Calls(log)[..|s.log|] == Calls(s.log);
    forall k | 0 <= k < |log| ensures log[k].reply == ReplyAt(File, Calls(log), k) && log[k].call.clock <= s.now {
      if k < |s.log| {
        PrefixReplies(File, Calls(log), |s.log|, k);
      }
    }
  }

  lemma HolderIsUnique(s: System, i: nat, j: nat)
    requires MutualExclusion(s) && i < |s.threads| && j < |s.threads| && Holds(s.threads[i])
    ensures Holds(s.threads[j]) <==> i == j
  {
  }

  lemma AdvanceKeepsMutualExclusion(s: System, a: Action)
    requires Inv(s)
    ensures MutualExclusion(Next(s, a))
  {
    var s' := Next(s, a);
    if s' != s && a.tid < |s.threads| {
      var t := s.threads[a.tid];
      assert forall i | 0 <= i < |s.threads| && i != a.tid :: s'.threads[i] == s.threads[i];
      if Holds(t) {
        forall i | 0 <= i < |s.threads| && i != a.tid ensures !Holds(s'.threads[i]) {
          HolderIsUnique(s, a.tid, i);
        }
        assert s'.lockFile ==> Holds(s'.threads[a.tid]);
      } else if Holds(s'.threads[a.tid]) {
        assert !s.lockFile;
      } else if s.lockFile {
        var h :| 0 <= h < |s.threads| && Holds(s.threads[h]);
        assert Holds(s'.threads[h]);
      }
    }
  }

  lemma AdvanceKeepsSequential(s: System, a: Action)
    requires Inv(s)
    ensures Sequential(Next(s, a))
  {
    hide Step, ReplyAt;
    if a.tid < |s.threads| && a.Advance? {
      var t := s.threads[a.tid];
      assert UpToDate(s, t);
      if t.pc.Saving? && a.clock >= s.now && t.todo != [] {
        UnwrittenUnchanged(s.Contents(), t.todo[0], t.pc.clock);
        CommitExtends(s.(now := a.clock), Committed(a.tid, Call(t.todo[0], t.pc.clock), t.pc.reply));
      }
    }
  }

  lemma AdvanceKeepsUpToDate(s: System, a: Action)
    requires Inv(s)
    ensures var s' := Next(s, a); forall i | 0 <= i < |s'.threads| :: UpToDate(s', s'.threads[i])
  {
    hide Step;
    var s' := Next(s, a);
    forall i | 0 <= i < |s'.threads| ensures UpToDate(s', s'.threads[i]) {
      assert UpToDate(s, s.threads[i]);
      if a.tid < |s.threads| && Holds(s.threads[a.tid]) {
        HolderIsUnique(s, a.tid, i);
      }
    }
  }

  lemma NextKeepsInv(s: System, a: Action)
    requires Inv(s)
    ensures Inv(Next(s, a))
  {
    AdvanceKeepsMutualExclusion(s, a);
    AdvanceKeepsSequential(s, a);
    AdvanceKeepsUpToDate(s, a);
    hide Next, MutualExclusion, Sequential, UpToDate;
  }

  lemma {:induction false} RunKeepsInv(s: System, schedule: seq<Action>)
    requires Inv(s)
    ensures Inv(Run(s, schedule))
    decreases |schedule|
  {
    if schedule != [] {
      NextKeepsInv(s, schedule[0]);
      RunKeepsInv(Next(s, schedule[0]), schedule[1..]);
    }
  }

  // ---------------------------------------------------------------- what every interleaving gives

  /** At most one thread is ever in its critical section. */
  lemma AtMostOneHolder(s: System, schedule: seq<Action>, i: nat, j: nat)
    requires Initial(s)
    ensures var e := Run(s, schedule);
            i < |e.threads| && j < |e.threads| && Holds(e.threads[i]) && Holds(e.threads[j]) ==> i == j
  {
    InitialInv(s);
    RunKeepsInv(s, schedule);
  }

  /** No update is lost: whatever the interleaving, and whoever dies when, the state file holds
      what the committed calls produce one at a time in lock order, and every caller got the
      answer that sequence gives. */
  lemma CommittedInLockOrder(s: System, schedule: seq<Action>)
    requires Initial(s)
    ensures var e := Run(s, schedule);
            e.Contents() == After(File, Calls(e.log))
            && forall k | 0 <= k < |e.log| :: e.log[k].reply == ReplyAt(File, Calls(e.log), k)
  {
    InitialInv(s);
    RunKeepsInv(s, schedule);
  }

  /** Two threads never both consume a nonce that is still unexpired. */
  lemma NonceConsumedOnce(s: System, schedule: seq<Action>, i: nat, j: nat, nonce: string)
    requires Initial(s)
    requires var e := Run(s, schedule); i < j < |e.log| && FlushesNotAhead(Calls(e.log))
    requires var e := Run(s, schedule);
             forall k | k == i || k == j ::
               e.log[k].call.op.ConsumeNonce? && e.log[k].call.op.nonce == nonce && e.log[k].reply == Answer(true)
    ensures var e := Run(s, schedule); e.log[i].call.op.validUntil < e.log[j].call.clock
  {
    var e := Run(s, schedule);
    InitialInv(s);
    RunKeepsInv(s, schedule);
    var calls := Calls(e.log);
    assert e.log[i].reply == ReplyAt(File, calls, i) && e.log[j].reply == ReplyAt(File, calls, j);
    assert calls[i] == e.log[i].call && calls[j] == e.log[j].call;
    SecondAcceptanceIsAfterExpiry(File, calls, i, j, nonce);
  }

  /** Replies a thread has been given, without its timeouts. */
  function Replies(outcomes: seq<Outcome>): seq<Reply> {
    if outcomes == [] then []
    else
      var rest := Replies(outcomes[..|outcomes| - 1]);
      var last := outcomes[|outcomes| - 1];
      if last.TimedOut? then rest else rest + [last.reply]
  }

  function RepliesIn(log: seq<Committed>, tid: nat): seq<Reply> {
    if log == [] then []
    else
      var rest := RepliesIn(log[..|log| - 1], tid);
      var last := log[|log| - 1];
      if last.tid == tid then rest + [last.reply] else rest
  }

  /** A reply on its way: committed, and not yet returned. */
  function Pending(t: Thread): seq<Reply> {
    if t.pc.Unlocking? then [t.pc.reply] else []
  }

  predicate Accounted(s: System, tid: nat)
    requires tid < |s.threads|
  {
    var t := s.threads[tid];
    !t.pc.Dead? ==> Replies(t.outcomes) + Pending(t) == RepliesIn(s.log, tid)
  }

  lemma RepliesExtend(outcomes: seq<Outcome>, o: Outcome)
    ensures Replies(outcomes + [o]) == Replies(outcomes) + (if o.TimedOut? then [] else [o.reply])
  {
    assert (outcomes + [o])[..|outcomes|] == outcomes;
  }

  lemma RepliesInExtend(log: seq<Committed>, c: Committed, tid: nat)
    ensures RepliesIn(log + [c], tid) == RepliesIn(log, tid) + (if c.tid == tid then [c.reply] else [])
  {
    assert (log + [c])[..|log|] == log;
  }

  lemma NextKeepsAccounts(s: System, a: Action, tid: nat)
    requires tid < |s.threads| && Accounted(s, tid)
    ensures Accounted(Next(s, a), tid)
  {
    hide Step, Replies, RepliesIn;
    if a.Advance? && a.tid < |s.threads| && a.clock >= s.now && s.threads[a.tid].todo != [] {
      var t := s.threads[a.tid];
      match t.pc {
        case Acquiring(_) => RepliesExtend(t.outcomes, TimedOut);
        case Saving(_, read, reply) => RepliesInExtend(s.log, Committed(a.tid, Call(t.todo[0], read), reply), tid);
        case Unlocking(reply) => RepliesExtend(t.outcomes, Replied(reply));
        case _ =>
      }
    }
  }

  /** A thread that is alive has been told, in order, exactly the replies committed for it. */
  lemma {:induction false} EveryReplyIsDelivered(s: System, schedule: seq<Action>, tid: nat)
    requires tid < |s.threads| && Accounted(s, tid)
    ensures tid < |Run(s, schedule).threads| && Accounted(Run(s, schedule), tid)
    decreases |schedule|
  {
    if schedule != [] {
      NextKeepsAccounts(s, schedule[0], tid);
      EveryReplyIsDelivered(Next(s, schedule[0]), schedule[1..], tid);
    }
  }

  /** Along this schedule the lock file is there at every step and the thread lives. */
  predicate KeepsFailing(s: System, schedule: seq<Action>, tid: nat)
    decreases |schedule|
  {
    schedule == []
    || (s.lockFile && schedule[0] != Die(tid) && (schedule[0].Advance? ==> schedule[0].clock >= s.now)
        && KeepsFailing(Next(s, schedule[0]), schedule[1..], tid))
  }

  function Turns(schedule: seq<Action>, tid: nat): nat {
    if schedule == [] then 0
    else (if schedule[0].Advance? && schedule[0].tid == tid then 1 else 0) + Turns(schedule[1..], tid)
  }

  /** Trying to acquire ends: whatever the others do, a thread that keeps finding the lock taken is
      turned away at its twenty-first failure, and not before. */
  lemma {:induction false} AcquireEnds(s: System, schedule: seq<Action>, tid: nat, failed: nat)
    requires tid < |s.threads| && s.threads[tid].todo != [] && s.threads[tid].pc == Acquiring(failed)
    requires KeepsFailing(s, schedule, tid) && failed <= 20
    requires failed + Turns(schedule, tid) <= 21
    ensures var e := Run(s, schedule);
            var n := failed + Turns(schedule, tid);
            tid < |e.threads|
            && e.threads[tid] == if n <= 20 then s.threads[tid].(pc := Acquiring(n))
                                 else Thread(s.threads[tid].todo[1..], Acquiring(0), s.threads[tid].outcomes + [TimedOut])
    decreases |schedule|
  {
    if schedule != [] {
      var a := schedule[0];
      var next := Next(s, a);
      if a.Advance? && a.tid == tid {
        if failed < 20 {
          AcquireEnds(next, schedule[1..], tid, failed + 1);
        } else {
          NoMoreTurns(next, schedule[1..], tid);
        }
      } else {
        AcquireEnds(next, schedule[1..], tid, failed);
      }
    }
  }

  lemma {:induction false} NoMoreTurns(s: System, schedule: seq<Action>, tid: nat)
    requires tid < |s.threads| && KeepsFailing(s, schedule, tid) && Turns(schedule, tid) == 0
    ensures tid < |Run(s, schedule).threads| && Run(s, schedule).threads[tid] == s.threads[tid]
    decreases |schedule|
  {
    if schedule != [] {
      NoMoreTurns(Next(s, schedule[0]), schedule[1..], tid);
    }
  }

  /** A thread that dies holding the lock stops the store for good: from then on nothing is
      committed and nothing changes on disk, whoever runs. */
  lemma {:induction false} DeadHolderStopsTheStore(s: System, schedule: seq<Action>, tid: nat)
    requires Inv(s) && tid < |s.threads| && s.threads[tid].pc == Dead(true)
    ensures var e := Run(s, schedule);
            e.lockFile && e.stateFile == s.stateFile && e.log == s.log
            && tid < |e.threads| && e.threads[tid].pc == Dead(true)
    decreases |schedule|
  {
    if schedule != [] {
      var a := schedule[0];
      var s' := Next(s, a);
      assert Holds(s.threads[tid]);
      if a.tid < |s.threads| {
        HolderIsUnique(s, tid, a.tid);
      }
      RunKeepsInv(s, [a]);
      assert Run(s, [a]) == s' by {
        assert [a][1..] == [];
      }
      DeadHolderStopsTheStore(s', schedule[1..], tid);
    }
  }

  // ---------------------------------------------------------------- and nothing else stops it

  predicate SomeoneDiedHolding(s: System) {
    exists i | 0 <= i < |s.threads| :: s.threads[i].pc == Dead(true)
  }

  /** Run to the end of its call, the thread has one reply more; nobody else has moved. */
  predicate Finishes(s: System, e: System, tid: nat)
    requires tid < |s.threads|
  {
    |e.threads| == |s.threads| && (forall j | 0 <= j < |s.threads| && j != tid :: e.threads[j] == s.threads[j])
    && e.threads[tid].pc == Acquiring(0)
    && |e.threads[tid].outcomes| == |s.threads[tid].outcomes| + 1
    && e.threads[tid].outcomes[..|s.threads[tid].outcomes|] == s.threads[tid].outcomes
    && e.threads[tid].outcomes[|s.threads[tid].outcomes|].Replied?
  }

  /** A living holder left alone finishes its call and removes the lock file. */
  lemma {:induction false} HolderFinishes(s: System, tid: nat) returns (schedule: seq<Action>)
    requires tid < |s.threads| && Holds(s.threads[tid]) && !s.threads[tid].pc.Dead? && s.threads[tid].todo != []
    ensures !Run(s, schedule).lockFile && Finishes(s, Run(s, schedule), tid)
    decreases if s.threads[tid].pc.Locked? then 3 else if s.threads[tid].pc.Loaded? then 2 else if s.threads[tid].pc.Saving? then 1 else 0
  {
    hide Step;
    var a := Advance(tid, s.now);
    schedule := [];
    if !s.threads[tid].pc.Unlocking? {
      schedule := HolderFinishes(Next(s, a), tid);
    }
    assert ([a] + schedule)[1..] == schedule;
    schedule := [a] + schedule;
  }

  /** Some schedule removes the lock file exactly when nobody died holding it. */
  lemma LockCanBeFreedIff(s: System)
    requires Inv(s)
    ensures (exists schedule :: !Run(s, schedule).lockFile) <==> !SomeoneDiedHolding(s)
  {
    if SomeoneDiedHolding(s) {
      var d :| 0 <= d < |s.threads| && s.threads[d].pc == Dead(true);
      forall schedule ensures Run(s, schedule).lockFile {
        DeadHolderStopsTheStore(s, schedule, d);
      }
    } else if s.lockFile {
      var h :| 0 <= h < |s.threads| && Holds(s.threads[h]);
      assert UpToDate(s, s.threads[h]);
      var schedule := HolderFinishes(s, h);
    } else {
      assert !Run(s, []).lockFile;
    }
  }

  lemma {:induction false} RunConcat(s: System, first: seq<Action>, second: seq<Action>)
    ensures Run(s, first + second) == Run(Run(s, first), second)
    decreases |first|
  {
    if first == [] {
      assert first + second == second;
    } else {
      assert (first + second)[0] == first[0] && (first + second)[1..] == first[1..] + second;
      RunConcat(Next(s, first[0]), first[1..], second);
    }
  }

  /** With the lock free, a living thread's call goes through when it alone runs. */
  lemma AloneIsServed(s: System, tid: nat) returns (schedule: seq<Action>)
    requires tid < |s.threads| && s.threads[tid].pc.Acquiring? && s.threads[tid].todo != [] && !s.lockFile
    ensures Finishes(s, Run(s, schedule), tid)
  {
    var a := Advance(tid, s.now);
    var rest := HolderFinishes(Next(s, a), tid);
    assert ([a] + rest)[1..] == rest;
    schedule := [a] + rest;
  }

  /** The thread has been given another reply. */
  predicate Served(s: System, schedule: seq<Action>, tid: nat)
    requires tid < |s.threads|
  {
    var e := Run(s, schedule);
    tid < |e.threads| && |Replies(e.threads[tid].outcomes)| > |Replies(s.threads[tid].outcomes)|
  }

  lemma FinishedIsServed(s: System, schedule: seq<Action>, tid: nat)
    requires tid < |s.threads| && tid < |Run(s, schedule).threads|
    requires var before, after := s.threads[tid].outcomes, Run(s, schedule).threads[tid].outcomes;
             |after| == |before| + 1 && after[..|before|] == before && after[|before|].Replied?
    ensures Served(s, schedule, tid)
  {
    var before, after := s.threads[tid].outcomes, Run(s, schedule).threads[tid].outcomes;
    assert after == before + [after[|before|]];
    RepliesExtend(before, after[|before|]);
  }

  lemma NextServesNobody(s: System, a: Action, d: nat, tid: nat)
    requires MutualExclusion(s) && d < |s.threads| && s.threads[d].pc == Dead(true) && tid < |s.threads|
    ensures var s' := Next(s, a);
            |s'.threads| == |s.threads| && s'.threads[d].pc == Dead(true)
            && Replies(s'.threads[tid].outcomes) == Replies(s.threads[tid].outcomes)
  {
    hide Replies, Step;
    assert Holds(s.threads[d]);
    if a.tid < |s.threads| {
      HolderIsUnique(s, d, a.tid);
    }
    RepliesExtend(s.threads[tid].outcomes, TimedOut);
  }

  lemma {:induction false} NobodyServed(s: System, schedule: seq<Action>, d: nat, tid: nat)
    requires Inv(s) && d < |s.threads| && s.threads[d].pc == Dead(true) && tid < |s.threads|
    ensures !Served(s, schedule, tid)
    decreases |schedule|
  {
    hide Replies, Next, MutualExclusion, Sequential, UpToDate;
    if schedule != [] {
      NextServesNobody(s, schedule[0], d, tid);
      NextKeepsInv(s, schedule[0]);
      NobodyServed(Next(s, schedule[0]), schedule[1..], d, tid);
    }
  }

  /** A living thread with a call to make can be served exactly when nobody died holding the lock. */
  lemma CanBeServedIff(s: System, tid: nat)
    requires Inv(s) && tid < |s.threads| && !s.threads[tid].pc.Dead? && s.threads[tid].todo != []
    ensures (exists schedule :: Served(s, schedule, tid)) <==> !SomeoneDiedHolding(s)
  {
    if SomeoneDiedHolding(s) {
      var d :| 0 <= d < |s.threads| && s.threads[d].pc == Dead(true);
      forall schedule ensures !Served(s, schedule, tid) {
        NobodyServed(s, schedule, d, tid);
      }
    } else {
      var schedule := CanBeServed(s, tid);
    }
  }

  lemma CanBeServed(s: System, tid: nat) returns (schedule: seq<Action>)
    requires Inv(s) && tid < |s.threads| && !s.threads[tid].pc.Dead? && s.threads[tid].todo != []
    requires !SomeoneDiedHolding(s)
    ensures Served(s, schedule, tid)
  {
    hide Next, Replies;
    if Holds(s.threads[tid]) {
      schedule := HolderFinishes(s, tid);
    } else {
      var first := [];
      if s.lockFile {
        var h :| 0 <= h < |s.threads| && Holds(s.threads[h]);
        assert UpToDate(s, s.threads[h]);
        first := HolderFinishes(s, h);
      }
      var second := AloneIsServed(Run(s, first), tid);
      schedule := first + second;
      RunConcat(s, first, second);
    }
    FinishedIsServed(s, schedule, tid);
  }
}
