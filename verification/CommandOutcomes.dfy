/**
 * Why a call ends as it does, over every run: an outcome is given exactly where the tables, the device or the broker gave its
 * cause, and no answer of a device that a refresh reads is passed over.
 */
module CommandOutcomes {
  import opened Wrappers
  import opened Devices
  import opened CommandStore
  import opened CommandCalls
  import opened CommandProtocol

  // ----- causes -----

  predicate AtCheck(call: Call) {
    call.CreateCheck? || call.RefreshCheck?
  }

  predicate AtInsert(call: Call) {
    call.CreateInsert? || call.RefreshInsert?
  }

  predicate HasStatus(s: Store, id: CommandId, status: Status) {
    id in s.commands && s.commands[id].status == status
  }

  /** Action `a` lets call `c` go on. */
  predicate Resumes(w: World, a: Action, c: CallId) {
    a.Resume? && a.caller == c && c in w.calls
  }

  /** What ends a call with this outcome: where the call stands, and what its statement finds. */
  predicate CauseOf(outcome: Outcome, call: Call, s: Store, choice: Choice) {
    match outcome
    case NotFound => AtCheck(call) && call.deviceId !in s.devices
    case NotEnrolled =>
      AtCheck(call) && call.deviceId in s.devices && s.devices[call.deviceId].enrollmentStatus != Enrolled
    case Blocked =>
      && AtCheck(call) && call.deviceId in s.devices && s.devices[call.deviceId].enrollmentStatus == Enrolled
      && s.devices[call.deviceId].blockedAt.Some?
    case Offline =>
      && call.RefreshCheck? && call.deviceId in s.devices && s.devices[call.deviceId].enrollmentStatus == Enrolled
      && s.devices[call.deviceId].blockedAt.None? && !s.devices[call.deviceId].online
    case StoreRefused => AtInsert(call) && choice.id !in s.issued && call.deviceId !in s.devices
    case Created(id) => call == CreateMark(id) || (call == CreatePublish(id) && !choice.confirmed)
    case Refreshed(id) => call.RefreshRead? && call.id == id && HasStatus(s, id, Succeeded)
    case DeviceFailed(id, error) =>
      call.RefreshRead? && call.id == id && HasStatus(s, id, Failed) && s.commands[id].error == error
    case BrokerUnreachable(id) => call == RefreshAbandon(id)
    case TimedOut(id) => call == RefreshGiveUp(id)
    case Swept(scope, queue) => call.SweepPublish? && call.scope == scope && call.queue == queue && call.next >= |queue|
    case Handled => call.AckApply? || (call.StatusSet? && !call.online)
  }

  /** The next statement of call `c` ends it with this outcome. */
  predicate Decides(w: World, a: Action, c: CallId, outcome: Outcome) {
    Resumes(w, a, c) && CauseOf(outcome, w.calls[c], w.store, a.choice)
  }

  lemma CauseEndsTheCall(outcome: Outcome, call: Call, s: Store, choice: Choice)
    requires !call.Done?
    ensures CauseOf(outcome, call, s, choice) <==> Possible(call, s, choice) && NextCall(call, s, choice) == Done(outcome)
  {
  }

  lemma DecidesExactly(w: World, a: Action, c: CallId, outcome: Outcome)
    requires c in w.calls ==> !w.calls[c].Done?
    ensures c in Step(w, a).calls && Step(w, a).calls[c] == Done(outcome) <==> Decides(w, a, c, outcome)
  {
    if Resumes(w, a, c) {
      CauseEndsTheCall(outcome, w.calls[c], w.store, a.choice);
    }
  }

  lemma DoneStep(w: World, a: Action, c: CallId)
    requires c in w.calls && w.calls[c].Done?
    ensures c in Step(w, a).calls && Step(w, a).calls[c] == w.calls[c]
  {
  }

  lemma {:induction false} DoneStays(w: World, actions: seq<Action>, c: CallId)
    requires c in w.calls && w.calls[c].Done?
    ensures c in RunWorld(w, actions).calls && RunWorld(w, actions).calls[c] == w.calls[c]
  {
    if actions != [] {
      DoneStays(w, actions[..|actions| - 1], c);
      DoneStep(RunWorld(w, actions[..|actions| - 1]), actions[|actions| - 1], c);
    }
  }

  predicate EndsWith(w: World, c: CallId, outcome: Outcome) {
    c in w.calls && w.calls[c] == Done(outcome)
  }

  predicate DecidesAt(w: World, actions: seq<Action>, m: nat, c: CallId, outcome: Outcome) {
    m < |actions| && Decides(RunWorld(w, actions[..m]), actions[m], c, outcome)
  }

  ghost predicate Caused(w: World, actions: seq<Action>, c: CallId, outcome: Outcome) {
    exists m: nat :: DecidesAt(w, actions, m, c, outcome)
  }

  /** What is decided at action `m` is the outcome for the rest of the run. */
  lemma DecidedStays(w: World, actions: seq<Action>, m: nat, c: CallId, outcome: Outcome)
    requires DecidesAt(w, actions, m, c, outcome)
    ensures EndsWith(RunWorld(w, actions), c, outcome)
  {
    DecidesExactly(RunWorld(w, actions[..m]), actions[m], c, outcome);
    assert actions[..m + 1][..m] == actions[..m];
    assert actions == actions[..m + 1] + actions[m + 1..];
    RunWorldConcat(w, actions[..m + 1], actions[m + 1..]);
    DoneStays(RunWorld(w, actions[..m + 1]), actions[m + 1..], c);
  }

  lemma {:induction false} OutcomeWasDecided(w: World, actions: seq<Action>, c: CallId, outcome: Outcome) returns (m: nat)
    requires c !in w.calls && EndsWith(RunWorld(w, actions), c, outcome)
    ensures DecidesAt(w, actions, m, c, outcome)
  {
    var n := |actions| - 1;
    var before := RunWorld(w, actions[..n]);
    if c in before.calls && before.calls[c].Done? {
      DoneStep(before, actions[n], c);
      m := OutcomeWasDecided(w, actions[..n], c, outcome);
      assert actions[..n][..m] == actions[..m];
    } else {
      DecidesExactly(before, actions[n], c, outcome);
      m := n;
    }
  }

  /** Over every run: a call ends with an outcome exactly when one of its statements met the cause of that outcome. */
  lemma OutcomeHasItsCause(w: World, actions: seq<Action>, c: CallId, outcome: Outcome)
    requires c !in w.calls
    ensures EndsWith(RunWorld(w, actions), c, outcome) <==> Caused(w, actions, c, outcome)
  {
    if EndsWith(RunWorld(w, actions), c, outcome) {
      var m := OutcomeWasDecided(w, actions, c, outcome);
    }
    if m: nat :| DecidesAt(w, actions, m, c, outcome) {
      DecidedStays(w, actions, m, c, outcome);
    }
  }

  // ----- the reads of a refresh -----

  /** Action `n` is a read, by call `c`, of the command it waits for. */
  predicate Reads(w: World, actions: seq<Action>, n: nat, c: CallId, id: CommandId) {
    && n < |actions| && Resumes(RunWorld(w, actions[..n]), actions[n], c)
    && RunWorld(w, actions[..n]).calls[c].RefreshRead? && RunWorld(w, actions[..n]).calls[c].id == id
  }

  /** A read that finds the device's answer ends the wait with it. */
  lemma AnswerEndsTheWait(w: World, actions: seq<Action>, n: nat, c: CallId, id: CommandId)
    requires Reads(w, actions, n, c, id)
    ensures var found, end := RunWorld(w, actions[..n]).store, RunWorld(w, actions);
            && (HasStatus(found, id, Succeeded) ==> EndsWith(end, c, Refreshed(id)))
            && (HasStatus(found, id, Failed) ==> EndsWith(end, c, DeviceFailed(id, found.commands[id].error)))
  {
    var found := RunWorld(w, actions[..n]).store;
    if HasStatus(found, id, Succeeded) {
      DecidedStays(w, actions, n, c, Refreshed(id));
    } else if HasStatus(found, id, Failed) {
      DecidedStays(w, actions, n, c, DeviceFailed(id, found.commands[id].error));
    }
  }

  predicate GivesUp(call: Call, id: CommandId) {
    call == RefreshGiveUp(id) || call == Done(TimedOut(id))
  }

  /** Past its last read: at its deadline check, or giving up, the deadline over. */
  predicate PastItsRead(w: World, c: CallId, id: CommandId, deadline: Instant) {
    && c in w.calls
    && (w.calls[c] == RefreshPause(id, deadline) || (GivesUp(w.calls[c], id) && w.store.now >= deadline))
  }

  predicate IsPastARead(w: World, c: CallId, id: CommandId) {
    c in w.calls && ((w.calls[c].RefreshPause? && w.calls[c].id == id) || GivesUp(w.calls[c], id))
  }

  /** A call that is past a read stays past the same one, its deadline included, or was just reading, without an answer. */
  lemma PastStep(w: World, a: Action, c: CallId, id: CommandId, deadline: Instant)
    requires IsPastARead(Step(w, a), c, id)
    ensures IsPastARead(w, c, id) || (Resumes(w, a, c) && w.calls[c].RefreshRead? && w.calls[c].id == id)
    ensures PastItsRead(w, c, id, deadline) ==> PastItsRead(Step(w, a), c, id, deadline)
    ensures c in w.calls && w.calls[c] == RefreshRead(id, deadline) ==>
              && PastItsRead(Step(w, a), c, id, deadline)
              && !HasStatus(w.store, id, Succeeded) && !HasStatus(w.store, id, Failed)
  {
  }

  /** The call is reading its command, which has no answer. */
  predicate FindsNoAnswer(w: World, c: CallId, id: CommandId, deadline: Instant) {
    && c in w.calls && w.calls[c] == RefreshRead(id, deadline)
    && !HasStatus(w.store, id, Succeeded) && !HasStatus(w.store, id, Failed)
  }

  ghost predicate StaysPast(w: World, actions: seq<Action>, m: nat, c: CallId, id: CommandId, deadline: Instant) {
    forall k | m < k <= |actions| :: PastItsRead(RunWorld(w, actions[..k]), c, id, deadline)
  }

  /** Action `m` is the last read of call `c`, which found no answer; from then on the call only checks its deadline and gives
      up once it is over. */
  ghost predicate LastReadAt(w: World, actions: seq<Action>, m: nat, c: CallId, id: CommandId, deadline: Instant) {
    && Reads(w, actions, m, c, id) && FindsNoAnswer(RunWorld(w, actions[..m]), c, id, deadline)
    && StaysPast(w, actions, m, c, id, deadline)
  }

  lemma StaysPastExtends(w: World, actions: seq<Action>, m: nat, c: CallId, id: CommandId, deadline: Instant)
    requires m + 1 < |actions| && StaysPast(w, actions[..|actions| - 1], m, c, id, deadline)
    requires PastItsRead(RunWorld(w, actions), c, id, deadline)
    ensures StaysPast(w, actions, m, c, id, deadline)
  {
    var n := |actions| - 1;
    forall k | m < k <= |actions| ensures PastItsRead(RunWorld(w, actions[..k]), c, id, deadline) {
      if k <= n {
        assert actions[..n][..k] == actions[..k];
      } else {
        assert actions[..k] == actions;
      }
    }
  }

  lemma LastReadExtends(w: World, actions: seq<Action>, m: nat, c: CallId, id: CommandId, deadline: Instant)
    requires actions != [] && LastReadAt(w, actions[..|actions| - 1], m, c, id, deadline)
    requires PastItsRead(RunWorld(w, actions[..|actions| - 1]), c, id, deadline) ==> PastItsRead(RunWorld(w, actions), c, id, deadline)
    ensures LastReadAt(w, actions, m, c, id, deadline)
  {
    var n := |actions| - 1;
    ReadsPrefix(w, actions, n, m, c, id);
    assert actions[..n][..n] == actions[..n];
    assert PastItsRead(RunWorld(w, actions[..n][..n]), c, id, deadline);
    StaysPastExtends(w, actions, m, c, id, deadline);
  }

  lemma {:induction false} LastRead(w: World, actions: seq<Action>, c: CallId, id: CommandId)
    returns (m: nat, deadline: Instant)
    requires c !in w.calls && IsPastARead(RunWorld(w, actions), c, id)
    ensures LastReadAt(w, actions, m, c, id, deadline)
  {
    var n := |actions| - 1;
    var before := RunWorld(w, actions[..n]);
    PastStep(before, actions[n], c, id, 0);
    if IsPastARead(before, c, id) {
      m, deadline := LastRead(w, actions[..n], c, id);
      PastStep(before, actions[n], c, id, deadline);
      LastReadExtends(w, actions, m, c, id, deadline);
    } else {
      m, deadline := n, before.calls[c].deadline;
      PastStep(before, actions[n], c, id, deadline);
      assert actions[..|actions|] == actions;
    }
  }

  lemma ReadsPrefix(w: World, actions: seq<Action>, n: nat, m: nat, c: CallId, id: CommandId)
    requires m < n <= |actions|
    ensures Reads(w, actions[..n], m, c, id) <==> Reads(w, actions, m, c, id)
    ensures RunWorld(w, actions[..n][..m]) == RunWorld(w, actions[..m])
  {
    assert actions[..n][..m] == actions[..m];
  }

  /** How a refresh ends is what its reads found: the first answer read is the outcome; without one, the call gave up after its
      deadline, having read the command once more and found nothing. */
  ghost predicate EndsAsRead(w: World, actions: seq<Action>, c: CallId, outcome: Outcome) {
    && (forall n: nat, id | Reads(w, actions, n, c, id) ::
          var found := RunWorld(w, actions[..n]).store;
          && (HasStatus(found, id, Succeeded) ==> outcome == Refreshed(id))
          && (HasStatus(found, id, Failed) ==> outcome == DeviceFailed(id, found.commands[id].error)))
    && (outcome.TimedOut? ==> exists m: nat, deadline :: LastReadAt(w, actions, m, c, outcome.id, deadline))
  }

  lemma ReadsDecide(w: World, actions: seq<Action>, c: CallId, outcome: Outcome)
    requires c !in w.calls && EndsWith(RunWorld(w, actions), c, outcome)
    ensures EndsAsRead(w, actions, c, outcome)
  {
    forall n: nat, id | Reads(w, actions, n, c, id)
      ensures var found := RunWorld(w, actions[..n]).store;
              && (HasStatus(found, id, Succeeded) ==> outcome == Refreshed(id))
              && (HasStatus(found, id, Failed) ==> outcome == DeviceFailed(id, found.commands[id].error))
    {
      AnswerEndsTheWait(w, actions, n, c, id);
    }
    if outcome.TimedOut? {
      var m, deadline := LastRead(w, actions, c, outcome.id);
    }
  }

  // ----- the broker's answer -----

  /** What the broker said of the one publication of a create or a refresh, once it said it. */
  function Verdict(call: Call): Option<(CommandId, bool)> {
    match call
    case CreateMark(id) => Some((id, true))
    case RefreshMark(id) => Some((id, true))
    case RefreshWait(id) => Some((id, true))
    case RefreshRead(id, _) => Some((id, true))
    case RefreshPause(id, _) => Some((id, true))
    case RefreshGiveUp(id) => Some((id, true))
    case RefreshAbandon(id) => Some((id, false))
    case Done(Refreshed(id)) => Some((id, true))
    case Done(DeviceFailed(id, _)) => Some((id, true))
    case Done(TimedOut(id)) => Some((id, true))
    case Done(BrokerUnreachable(id)) => Some((id, false))
    case _ => None
  }

  /** All the call published, and what the broker answered. */
  ghost predicate BrokerSaid(log: seq<Attempt>, c: CallId, verdict: (CommandId, bool)) {
    && Attempt(c, verdict.0, verdict.1) in log
    && forall p | p in log && p.caller == c :: p == Attempt(c, verdict.0, verdict.1)
  }

  lemma {:induction false} NoAttempts(log: seq<Attempt>, c: CallId)
    requires AttemptsBy(log, c) == []
    ensures forall p | p in log :: p.caller != c
  {
    if log != [] {
      var n := |log| - 1;
      assert AttemptsBy(log[..n], c) == [];
      NoAttempts(log[..n], c);
      assert log == log[..n] + [log[n]];
    }
  }

  lemma VerdictStep(w: World, a: Action, c: CallId)
    requires Inv(w) && c in Step(w, a).calls && Verdict(Step(w, a).calls[c]).Some?
    requires c in w.calls && Verdict(w.calls[c]).Some? ==> BrokerSaid(w.store.log, c, Verdict(w.calls[c]).value)
    ensures BrokerSaid(Step(w, a).store.log, c, Verdict(Step(w, a).calls[c]).value)
  {
    LogStep(w.store, Effect(w, a), c);
    if c in w.calls && Verdict(w.calls[c]).None? {
      assert AttemptsBy(w.store.log, c) == Attempted(w.calls[c]);
      VerdictIsGiven(w, a, c);
    } else if c in w.calls {
      VerdictIsKept(w, a, c);
    }
  }

  lemma VerdictAppears(caller: CallId, call: Call, s: Store, choice: Choice)
    requires Verdict(call).None? && Verdict(NextCall(call, s, choice)).Some?
    ensures Attempted(call) == []
    ensures var verdict := Verdict(NextCall(call, s, choice)).value;
            EventOf(caller, call, choice) == Publish(caller, verdict.0, verdict.1)
  {
  }

  lemma VerdictRemains(caller: CallId, call: Call, s: Store, choice: Choice)
    requires Verdict(call).Some?
    ensures !EventOf(caller, call, choice).Publish?
    ensures Verdict(NextCall(call, s, choice)).Some? ==> Verdict(NextCall(call, s, choice)) == Verdict(call)
  {
  }

  lemma VerdictIsGiven(w: World, a: Action, c: CallId)
    requires c in w.calls && Verdict(w.calls[c]).None? && Verdict(Step(w, a).calls[c]).Some?
    requires AttemptsBy(w.store.log, c) == Attempted(w.calls[c])
    ensures BrokerSaid(Step(w, a).store.log, c, Verdict(Step(w, a).calls[c]).value)
  {
    VerdictAppears(c, w.calls[c], w.store, a.choice);
    LogStep(w.store, Effect(w, a), c);
    NoAttempts(w.store.log, c);
  }

  lemma VerdictIsKept(w: World, a: Action, c: CallId)
    requires c in w.calls && Verdict(w.calls[c]).Some? && Verdict(Step(w, a).calls[c]).Some?
    ensures Verdict(Step(w, a).calls[c]) == Verdict(w.calls[c])
    ensures Effect(w, a).Publish? ==> Effect(w, a).caller != c
  {
    if a.Resume? && a.caller == c && Possible(w.calls[c], w.store, a.choice) {
      VerdictRemains(c, w.calls[c], w.store, a.choice);
    } else {
      ActorOnly(w, a, c);
    }
  }

  lemma {:induction false} VerdictHolds(boot: World, actions: seq<Action>, c: CallId)
    requires Boot(boot) && c in RunWorld(boot, actions).calls && Verdict(RunWorld(boot, actions).calls[c]).Some?
    ensures BrokerSaid(RunWorld(boot, actions).store.log, c, Verdict(RunWorld(boot, actions).calls[c]).value)
  {
    if actions != [] {
      var n := |actions| - 1;
      var before := RunWorld(boot, actions[..n]);
      ReachableInv(boot, actions[..n]);
      if c in before.calls && Verdict(before.calls[c]).Some? {
        VerdictHolds(boot, actions[..n], c);
      }
      VerdictStep(before, actions[n], c);
    }
  }

  /** A refresh fails for its broker exactly when it published and the broker refused or did not answer: otherwise, once its
      command exists, the broker took the one publication it made. */
  lemma RefreshFollowsItsBroker(boot: World, actions: seq<Action>, c: CallId, outcome: Outcome)
    requires Boot(boot) && EndsWith(RunWorld(boot, actions), c, outcome) && RefreshedCommand(outcome).Some?
    ensures BrokerSaid(RunWorld(boot, actions).store.log, c, (RefreshedCommand(outcome).value, !outcome.BrokerUnreachable?))
  {
    VerdictHolds(boot, actions, c);
  }
}
