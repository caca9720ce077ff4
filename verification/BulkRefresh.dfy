/** What `refreshMany` reports of each device, for every run: its refreshes are calls like any other, run in parallel. */
module BulkRefresh {
  import opened Devices
  import opened CommandStore
  import opened CommandCalls
  import opened CommandOutcomes
  import opened CommandProtocol

  datatype Report =
    | ReportRefreshed | ReportOffline | ReportTimeout | ReportNotFound | ReportNotEnrolled | ReportBlocked | ReportFailed

  /** `refreshOutcome`: any error it does not know is a failure. */
  function RefreshReport(outcome: Outcome): Report {
    match outcome
    case Refreshed(_) => ReportRefreshed
    case NotFound => ReportNotFound
    case NotEnrolled => ReportNotEnrolled
    case Blocked => ReportBlocked
    case Offline => ReportOffline
    case TimedOut(_) => ReportTimeout
    case _ => ReportFailed
  }

  /** The command was created for the device. */
  predicate CreatedFor(s: Store, id: CommandId, deviceId: DeviceId) {
    id in s.issued && (id in s.commands ==> s.commands[id].deviceId == deviceId)
  }

  /** The call is a refresh of the device, at any point of it. */
  predicate Serves(call: Call, s: Store, deviceId: DeviceId) {
    match call
    case RefreshCheck(d) => d == deviceId
    case RefreshStamp(d) => d == deviceId
    case RefreshInsert(d, _) => d == deviceId
    case Done(outcome) =>
      if RefreshedCommand(outcome).Some? then CreatedFor(s, RefreshedCommand(outcome).value, deviceId)
      else !outcome.Created? && !outcome.Swept? && !outcome.Handled?
    case _ => Refreshing(call).Some? && CreatedFor(s, Refreshing(call).value, deviceId)
  }

  lemma CreatedForStays(s: Store, e: Event, id: CommandId, deviceId: DeviceId)
    requires CreatedFor(s, id, deviceId)
    ensures CreatedFor(Apply(s, e), id, deviceId)
  {
  }

  lemma ServesStep(caller: CallId, call: Call, s: Store, choice: Choice, deviceId: DeviceId)
    requires Serves(call, s, deviceId) && Possible(call, s, choice)
    ensures Serves(NextCall(call, s, choice), Apply(s, EventOf(caller, call, choice)), deviceId)
  {
    if Refreshing(call).Some? {
      CreatedForStays(s, EventOf(caller, call, choice), Refreshing(call).value, deviceId);
    }
  }

  lemma ServesStays(call: Call, s: Store, e: Event, deviceId: DeviceId)
    requires Serves(call, s, deviceId)
    ensures Serves(call, Apply(s, e), deviceId)
  {
    if Refreshing(call).Some? {
      CreatedForStays(s, e, Refreshing(call).value, deviceId);
    } else if call.Done? && RefreshedCommand(call.outcome).Some? {
      CreatedForStays(s, e, RefreshedCommand(call.outcome).value, deviceId);
    }
  }

  lemma {:induction false} RefreshServesItsDevice(w: World, actions: seq<Action>, c: CallId, deviceId: DeviceId)
    requires c in w.calls && Serves(w.calls[c], w.store, deviceId)
    ensures var after := RunWorld(w, actions);
            c in after.calls && Serves(after.calls[c], after.store, deviceId)
  {
    if actions != [] {
      var before, a := RunWorld(w, actions[..|actions| - 1]), actions[|actions| - 1];
      RefreshServesItsDevice(w, actions[..|actions| - 1], c, deviceId);
      if a.Resume? && a.caller == c && Possible(before.calls[c], before.store, a.choice) {
        ServesStep(c, before.calls[c], before.store, a.choice, deviceId);
      } else {
        ActorOnly(before, a, c);
        ServesStays(before.calls[c], before.store, Effect(before, a), deviceId);
      }
    }
  }

  /** A refused device was sent nothing; otherwise at most one command was sent, to that device, and it is over, succeeded
      if the report says refreshed. */
  predicate TrueReport(report: Report, sent: seq<CommandId>, s: Store, deviceId: DeviceId) {
    && |sent| <= 1
    && (report.ReportNotFound? || report.ReportNotEnrolled? || report.ReportBlocked? || report.ReportOffline? ==> sent == [])
    && (report.ReportRefreshed? || report.ReportTimeout? ==> |sent| == 1)
    && (forall id | id in sent ::
          && CreatedFor(s, id, deviceId)
          && Settled(s, id, if report.ReportRefreshed? then {Succeeded} else {Succeeded, Failed, Expired}))
  }

  lemma OutcomeIsReported(outcome: Outcome, s: Store, deviceId: DeviceId)
    requires OutcomeInv(outcome, s) && Serves(Done(outcome), s, deviceId)
    ensures TrueReport(RefreshReport(outcome), Attempted(Done(outcome)), s, deviceId)
  {
  }

  lemma StartedRefresh(boot: World, actions: seq<Action>, start: nat, c: CallId, deviceId: DeviceId)
    requires start < |actions| && actions[start] == Start(c, RefreshRequest(deviceId))
    requires c !in RunWorld(boot, actions[..start]).calls
    ensures var after := RunWorld(boot, actions);
            c in after.calls && Serves(after.calls[c], after.store, deviceId)
  {
    var before, rest := actions[..start + 1], actions[start + 1..];
    assert before[..start] == actions[..start];
    assert RunWorld(boot, before).calls[c] == RefreshCheck(deviceId);
    RefreshServesItsDevice(RunWorld(boot, before), rest, c, deviceId);
    RunWorldConcat(boot, before, rest);
    assert before + rest == actions;
  }

  /** Action `start` begins the refresh of the device as call `c`, which is over at the end of the run. */
  predicate AskedAndDone(boot: World, actions: seq<Action>, start: nat, c: CallId, deviceId: DeviceId) {
    && start < |actions| && actions[start] == Start(c, RefreshRequest(deviceId))
    && c !in RunWorld(boot, actions[..start]).calls
    && c in RunWorld(boot, actions).calls && RunWorld(boot, actions).calls[c].Done?
  }

  /** The state in which call `c`, which refreshes the device, takes the step `a` this report is about: what the step finds of
      the device or of its command, or what the broker or the clock said. */
  predicate Reported(report: Report, w: World, a: Action, c: CallId, deviceId: DeviceId) {
    && Resumes(w, a, c)
    && var call, s := w.calls[c], w.store;
       match report
       case ReportNotFound => call == RefreshCheck(deviceId) && deviceId !in s.devices
       case ReportNotEnrolled =>
         call == RefreshCheck(deviceId) && deviceId in s.devices && s.devices[deviceId].enrollmentStatus != Enrolled
       case ReportBlocked =>
         && call == RefreshCheck(deviceId) && deviceId in s.devices && s.devices[deviceId].enrollmentStatus == Enrolled
         && s.devices[deviceId].blockedAt.Some?
       case ReportOffline =>
         && call == RefreshCheck(deviceId) && deviceId in s.devices && s.devices[deviceId].enrollmentStatus == Enrolled
         && s.devices[deviceId].blockedAt.None? && !s.devices[deviceId].online
       case ReportRefreshed => call.RefreshRead? && HasStatus(s, call.id, Succeeded)
       case ReportTimeout => call.RefreshGiveUp?
       case ReportFailed =>
         || (call.RefreshRead? && HasStatus(s, call.id, Failed))
         || call.RefreshAbandon?
         || (call.RefreshInsert? && a.choice.id !in s.issued && deviceId !in s.devices)
  }

  predicate ReportedAt(report: Report, boot: World, actions: seq<Action>, m: nat, c: CallId, deviceId: DeviceId) {
    m < |actions| && Reported(report, RunWorld(boot, actions[..m]), actions[m], c, deviceId)
  }

  lemma DecidedIsReported(w: World, a: Action, c: CallId, outcome: Outcome, deviceId: DeviceId)
    requires Decides(w, a, c, outcome) && Serves(w.calls[c], w.store, deviceId)
    ensures Reported(RefreshReport(outcome), w, a, c, deviceId)
  {
  }

  /** The report a step is about is that of the outcome it decides. */
  lemma ReportedIsDecided(report: Report, w: World, a: Action, c: CallId, deviceId: DeviceId) returns (outcome: Outcome)
    requires Reported(report, w, a, c, deviceId) && Serves(w.calls[c], w.store, deviceId)
    ensures Decides(w, a, c, outcome) && RefreshReport(outcome) == report
  {
    var call, s := w.calls[c], w.store;
    match report
    case ReportNotFound => outcome := NotFound;
    case ReportNotEnrolled => outcome := NotEnrolled;
    case ReportBlocked => outcome := Blocked;
    case ReportOffline => outcome := Offline;
    case ReportRefreshed => outcome := Refreshed(call.id);
    case ReportTimeout => outcome := TimedOut(call.id);
    case ReportFailed =>
      outcome := if call.RefreshRead? then DeviceFailed(call.id, s.commands[call.id].error)
      else if call.RefreshAbandon? then BrokerUnreachable(call.id) else StoreRefused;
  }

  lemma StartedBefore(boot: World, actions: seq<Action>, start: nat, m: nat, c: CallId)
    requires m <= |actions| && start < |actions| && c !in RunWorld(boot, actions[..start]).calls
    requires c in RunWorld(boot, actions[..m]).calls
    ensures start < m
  {
    if m <= start {
      assert actions[..m] + actions[m..start] == actions[..start];
      RunWorldConcat(boot, actions[..m], actions[m..start]);
      CallsStay(RunWorld(boot, actions[..m]), actions[m..start], c);
    }
  }

  lemma {:induction false} CallsStay(w: World, actions: seq<Action>, c: CallId)
    requires c in w.calls
    ensures c in RunWorld(w, actions).calls
  {
    if actions != [] {
      CallsStay(w, actions[..|actions| - 1], c);
      CallsRemain(RunWorld(w, actions[..|actions| - 1]), actions[|actions| - 1], c);
    }
  }

  /** While it runs, the call serves the device it was started for. */
  lemma ServesUntil(boot: World, actions: seq<Action>, start: nat, m: nat, c: CallId, deviceId: DeviceId)
    requires AskedAndDone(boot, actions, start, c, deviceId) && m <= |actions| && c in RunWorld(boot, actions[..m]).calls
    ensures Serves(RunWorld(boot, actions[..m]).calls[c], RunWorld(boot, actions[..m]).store, deviceId)
  {
    StartedBefore(boot, actions, start, m, c);
    assert actions[..m][..start] == actions[..start];
    StartedRefresh(boot, actions[..m], start, c, deviceId);
  }

  /** Which report a device gets: exactly the one whose cause some step of its refresh met. */
  lemma ReportHasItsCause(boot: World, actions: seq<Action>, start: nat, c: CallId, deviceId: DeviceId, report: Report)
    requires Boot(boot) && AskedAndDone(boot, actions, start, c, deviceId)
    ensures RefreshReport(RunWorld(boot, actions).calls[c].outcome) == report
            <==> exists m: nat :: ReportedAt(report, boot, actions, m, c, deviceId)
  {
    var outcome := RunWorld(boot, actions).calls[c].outcome;
    if RefreshReport(outcome) == report {
      var m := OutcomeWasDecided(boot, actions, c, outcome);
      ServesUntil(boot, actions, start, m, c, deviceId);
      DecidedIsReported(RunWorld(boot, actions[..m]), actions[m], c, outcome, deviceId);
      assert ReportedAt(report, boot, actions, m, c, deviceId);
    }
    if m: nat :| ReportedAt(report, boot, actions, m, c, deviceId) {
      ServesUntil(boot, actions, start, m, c, deviceId);
      var decided := ReportedIsDecided(report, RunWorld(boot, actions[..m]), actions[m], c, deviceId);
      DecidedStays(boot, actions, m, c, decided);
    }
  }

  /** Every report is true of its device, whatever ran at the same time. */
  lemma ReportIsTrue(boot: World, actions: seq<Action>, start: nat, c: CallId, deviceId: DeviceId)
    requires Boot(boot) && AskedAndDone(boot, actions, start, c, deviceId)
    ensures var w := RunWorld(boot, actions);
            TrueReport(RefreshReport(w.calls[c].outcome), AttemptsBy(w.store.log, c), w.store, deviceId)
  {
    var w := RunWorld(boot, actions);
    StartedRefresh(boot, actions, start, c, deviceId);
    ReachableInv(boot, actions);
    assert CallInv(w.calls[c], w.store) && AttemptsBy(w.store.log, c) == Attempted(w.calls[c]);
    OutcomeIsReported(w.calls[c].outcome, w.store, deviceId);
  }

  /** What `refreshMany` answers: one report per id, in the order of the request, from the refreshes it ran in parallel. */
  function Reports(w: World, ids: seq<DeviceId>, callers: seq<CallId>): seq<(DeviceId, Report)>
    requires |ids| == |callers|
    requires forall i | 0 <= i < |callers| :: callers[i] in w.calls && w.calls[callers[i]].Done?
  {
    seq(|ids|, i requires 0 <= i < |ids| => (ids[i], RefreshReport(w.calls[callers[i]].outcome)))
  }

  /** The whole answer: the requested ids in order, repetitions included, each with a report true of its device. */
  lemma EveryReportIsTrue(boot: World, actions: seq<Action>, ids: seq<DeviceId>, callers: seq<CallId>, starts: seq<nat>)
    requires Boot(boot) && |ids| == |callers| == |starts|
    requires forall i | 0 <= i < |ids| :: AskedAndDone(boot, actions, starts[i], callers[i], ids[i])
    ensures var w := RunWorld(boot, actions);
            && (forall i | 0 <= i < |callers| :: callers[i] in w.calls && w.calls[callers[i]].Done?)
            && var reports := Reports(w, ids, callers);
               && |reports| == |ids|
               && forall i | 0 <= i < |ids| ::
                    && reports[i].0 == ids[i]
                    && TrueReport(reports[i].1, AttemptsBy(w.store.log, callers[i]), w.store, ids[i])
                    && exists m: nat :: ReportedAt(reports[i].1, boot, actions, m, callers[i], ids[i])
  {
    var w := RunWorld(boot, actions);
    forall i | 0 <= i < |ids|
      ensures callers[i] in w.calls && w.calls[callers[i]].Done?
      ensures TrueReport(RefreshReport(w.calls[callers[i]].outcome), AttemptsBy(w.store.log, callers[i]), w.store, ids[i])
      ensures exists m: nat :: ReportedAt(RefreshReport(w.calls[callers[i]].outcome), boot, actions, m, callers[i], ids[i])
    {
      assert AskedAndDone(boot, actions, starts[i], callers[i], ids[i]);
      ReportHasItsCause(boot, actions, starts[i], callers[i], ids[i], RefreshReport(w.calls[callers[i]].outcome));
      ReportIsTrue(boot, actions, starts[i], callers[i], ids[i]);
    }
  }
}
