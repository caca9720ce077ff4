/**
 * The service methods, statement by statement.
 *
 * A method's contract says that the recorded run goes on with the request it serves, and that the call this starts is
 * done: with `Valid`, that pins every statement the method sent to the ones of its process, in order.
 *
 * Every `await` of a method is a call to `Await`, during which any other calls run, in a schedule no method chooses.
 * Every statement is recorded as the step of the process it is (`Advance` checks that it is that step), so
 * a run of these methods is a run of `CommandCalls`, and everything proved of those runs is true here.
 */
module CommandServices {
  import opened Wrappers
  import opened Devices
  import opened CommandStore
  import opened CommandCalls
  import opened CommandGate
  import opened CommandGuarantees
  import opened CommandHistory
  import opened CommandOutcomes
  import opened CommandProtocol
  import opened CommandRepositories

  /** `others` never moves the call `me`. */
  predicate Foreign(me: CallId, others: seq<Action>) {
    forall a | a in others :: (a.Start? ==> a.caller != me) && (a.Resume? ==> a.caller != me)
  }

  function Ticks(actions: seq<Action>): nat {
    if actions == [] then 0
    else Ticks(actions[..|actions| - 1]) + match actions[|actions| - 1] case Outside(Tick(ms)) => ms case _ => 0
  }

  lemma ForeignStep(w: World, me: CallId, a: Action)
    requires !a.Outside? ==> a.caller != me
    ensures me in Step(w, a).calls <==> me in w.calls
    ensures me in w.calls ==> Step(w, a).calls[me] == w.calls[me]
    ensures Step(w, a).store.now == w.store.now + match a case Outside(Tick(ms)) => ms case _ => 0
  {
  }

  lemma {:induction false} OthersLeaveMeAlone(w: World, me: CallId, others: seq<Action>)
    requires Foreign(me, others)
    ensures me in RunWorld(w, others).calls <==> me in w.calls
    ensures me in w.calls ==> RunWorld(w, others).calls[me] == w.calls[me]
    ensures RunWorld(w, others).store.now == w.store.now + Ticks(others)
  {
    if others != [] {
      var before, a := others[..|others| - 1], others[|others| - 1];
      OthersLeaveMeAlone(w, me, before);
      ForeignStep(RunWorld(w, before), me, a);
    }
  }

  /** A schedule without the moves of `me`. */
  function OnlyOthers(me: CallId, actions: seq<Action>): (others: seq<Action>)
    ensures Foreign(me, others)
  {
    if actions == [] then []
    else
      var before := OnlyOthers(me, actions[..|actions| - 1]);
      var last := actions[|actions| - 1];
      if !last.Outside? && last.caller == me then before else before + [last]
  }

  lemma RunWorldSnoc(w: World, actions: seq<Action>, a: Action)
    ensures RunWorld(w, actions + [a]) == Step(RunWorld(w, actions), a)
  {
    assert (actions + [a])[..|actions|] == actions;
  }

  /** Nothing was created. */
  predicate Refused(outcome: Outcome) {
    match outcome
    case NotFound => true
    case NotEnrolled => true
    case Blocked => true
    case Offline => true
    case StoreRefused => true
    case _ => false
  }

  /** The columns a row is created with and keeps. */
  predicate IsAskedFor(row: Command, deviceId: DeviceId, kind: CommandKind, payload: Json, createdAt: Instant, expiresAt: Instant) {
    && row.deviceId == deviceId && row.kind == kind && row.payload == payload
    && row.createdAt == createdAt && row.expiresAt == expiresAt
  }

  /** What an ack leaves: the device's command with the answer and its dates, or, when the ack was ignored, one that is
      gone, is another device's, or had moved past it. */
  predicate AckTaken(s: Store, id: CommandId, deviceId: DeviceId, ack: Ack, result: Option<Json>, error: Option<string>,
                     updated: Option<Command>) {
    match updated
    case Some(row) =>
      && id in s.commands && row == s.commands[id] && row.deviceId == deviceId
      && row.status == (match ack case AckReceived => Acknowledged case AckSucceeded => Succeeded case AckFailed => Failed)
      && (result.Some? ==> row.result == result) && (error.Some? ==> row.error == error)
      && row.acknowledgedAt.Some? && (ack != AckReceived ==> row.completedAt == Some(s.now))
    case None => id in s.commands && s.commands[id].deviceId == deviceId ==> s.commands[id].status !in AllowedFrom(ack)
  }

  class CommandService {
    const repository: CommandRepository
    var calls: map<CallId, Call>
    ghost const boot: World
    ghost var history: seq<Action>

    function State(): World
      reads this, repository
    {
      World(repository.Value(), calls)
    }

    /** The state is the one the recorded run leads to. */
    ghost predicate Valid()
      reads this, repository
    {
      Boot(boot) && State() == RunWorld(boot, history)
    }

    constructor (repository: CommandRepository)
      requires repository.commands == map[] && repository.issued == {} && repository.log == []
      ensures Valid() && this.repository == repository && calls == map[] && history == []
    {
      this.repository, calls, history := repository, map[], [];
      boot := World(repository.Value(), map[]);
    }

    /** A request or a message comes in. */
    method Begin(me: CallId, request: Request)
      requires Valid() && me !in calls && Accepted(request)
      modifies this
      ensures Valid() && calls == old(calls)[me := FirstCall(request)]
      ensures history == old(history) + [Start(me, request)]
    {
      RunWorldSnoc(boot, history, Start(me, request));
      calls := calls[me := FirstCall(request)];
      history := history + [Start(me, request)];
    }

    /** `await`: any other calls run, then this one goes on where it stood. */
    method Await(me: CallId)
      requires Valid() && me in calls
      modifies this, repository
      ensures Valid() && old(history) <= history
      ensures me in calls && calls[me] == old(calls[me])
      ensures repository.now >= old(repository.now)
    {
      var schedule: seq<Action> := *;
      Interleave(me, OnlyOthers(me, schedule));
    }

    /** `await sleep(ms)`: the same, and the clock moves by at least `ms`. */
    method Sleep(me: CallId, ms: nat)
      requires Valid() && me in calls
      modifies this, repository
      ensures Valid() && old(history) <= history
      ensures me in calls && calls[me] == old(calls[me])
      ensures repository.now >= old(repository.now) + ms
    {
      Interleave(me, [Outside(Tick(ms))]);
      Await(me);
    }

    method Interleave(me: CallId, others: seq<Action>)
      requires Valid() && me in calls && Foreign(me, others)
      modifies this, repository
      ensures Valid() && history == old(history) + others
      ensures me in calls && calls[me] == old(calls[me])
      ensures repository.now == old(repository.now) + Ticks(others)
    {
      var after := RunWorld(State(), others);
      OthersLeaveMeAlone(State(), me, others);
      RunWorldConcat(boot, history, others);
      repository.Become(after.store);
      calls := after.calls;
      history := history + others;
    }

    /** Records the statement just sent as the step of `me` from `before`; it must be that step. */
    method Advance(me: CallId, next: Call, ghost choice: Choice, ghost before: World)
      requires Boot(boot) && before == RunWorld(boot, history) && calls == before.calls
      requires me in before.calls && Possible(before.calls[me], before.store, choice)
      requires next == NextCall(before.calls[me], before.store, choice)
      requires repository.Value() == Apply(before.store, EventOf(me, before.calls[me], choice))
      modifies this
      ensures Valid() && calls == old(calls)[me := next] && history == old(history) + [Resume(me, choice)]
    {
      RunWorldSnoc(boot, history, Resume(me, choice));
      calls := calls[me := next];
      history := history + [Resume(me, choice)];
    }

    // ----- the statements of the methods, each with the await before it -----

    method AssertCommandable(deviceId: DeviceId) returns (refusal: Option<Outcome>)
      ensures refusal == Refusal(repository.devices, deviceId)
      ensures refusal.None? <==> Commandable(repository.devices, deviceId)
    {
      if deviceId !in repository.devices { return Some(NotFound); }
      var device := repository.devices[deviceId];
      if device.enrollmentStatus != Enrolled { return Some(NotEnrolled); }
      if device.blockedAt.Some? { return Some(Blocked); }
      return None;
    }

    method CheckCreate(me: CallId, deviceId: DeviceId, kind: CommandKind, payload: Json, ttl: nat)
      returns (refusal: Option<Outcome>)
      requires Valid() && me in calls && calls[me] == CreateCheck(deviceId, kind, payload, ttl)
      modifies this, repository
      ensures Valid() && old(history) < history && me in calls
      ensures calls[me] == if refusal.Some? then Done(refusal.value) else CreateStamp(deviceId, kind, payload, ttl)
      ensures refusal.Some? ==> Refused(refusal.value)
      ensures repository.now >= old(repository.now)
    {
      Await(me);
      ghost var before := State();
      refusal := AssertCommandable(deviceId);
      var next := if refusal.Some? then Done(refusal.value) else CreateStamp(deviceId, kind, payload, ttl);
      Advance(me, next, Choice(0, false, []), before);
    }

    method CheckRefresh(me: CallId, deviceId: DeviceId) returns (refusal: Option<Outcome>)
      requires Valid() && me in calls && calls[me] == RefreshCheck(deviceId)
      modifies this, repository
      ensures Valid() && old(history) < history && me in calls
      ensures calls[me] == if refusal.Some? then Done(refusal.value) else RefreshStamp(deviceId)
      ensures refusal.Some? ==> Refused(refusal.value)
    {
      Await(me);
      ghost var before := State();
      refusal := AssertCommandable(deviceId);
      if refusal.None? && !repository.devices[deviceId].online {
        refusal := Some(Offline);
      }
      var next := if refusal.Some? then Done(refusal.value) else RefreshStamp(deviceId);
      Advance(me, next, Choice(0, false, []), before);
    }

    /** The id the database draws: one it never drew. */
    method DrawId() returns (id: CommandId)
      ensures id !in repository.issued
    {
      id := 0;
      var rest := repository.issued;
      while rest != {}
        invariant rest <= repository.issued
        invariant forall drawn | drawn in repository.issued && drawn !in rest :: drawn < id
        decreases rest
      {
        var drawn :| drawn in rest;
        id, rest := if drawn >= id then drawn + 1 else id, rest - {drawn};
      }
    }

    /** `Date.now()`, once the check resolved and before the insert is sent. */
    method StampCommand(me: CallId, deviceId: DeviceId, kind: CommandKind, payload: Json, ttl: nat)
      returns (expiresAt: Instant)
      requires Valid() && me in calls && calls[me] == CreateStamp(deviceId, kind, payload, ttl)
      modifies this, repository
      ensures Valid() && old(history) < history && me in calls
      ensures calls[me] == CreateInsert(deviceId, kind, payload, expiresAt)
      ensures expiresAt == repository.now + ttl && repository.now >= old(repository.now)
    {
      Await(me);
      ghost var before := State();
      expiresAt := repository.now + ttl;
      Advance(me, CreateInsert(deviceId, kind, payload, expiresAt), Choice(0, false, []), before);
    }

    method StampRefresh(me: CallId, deviceId: DeviceId) returns (expiresAt: Instant)
      requires Valid() && me in calls && calls[me] == RefreshStamp(deviceId)
      modifies this, repository
      ensures Valid() && old(history) < history && me in calls
      ensures calls[me] == RefreshInsert(deviceId, expiresAt)
      ensures expiresAt == repository.now + REFRESH_TTL_MS
    {
      Await(me);
      ghost var before := State();
      expiresAt := repository.now + REFRESH_TTL_MS;
      Advance(me, RefreshInsert(deviceId, expiresAt), Choice(0, false, []), before);
    }

    method InsertCommand(me: CallId, deviceId: DeviceId, kind: CommandKind, payload: Json, expiresAt: Instant)
      returns (id: Option<CommandId>)
      requires Valid() && me in calls && calls[me] == CreateInsert(deviceId, kind, payload, expiresAt)
      modifies this, repository
      ensures Valid() && old(history) < history && me in calls
      ensures calls[me] == if id.Some? then CreatePublish(id.value) else Done(StoreRefused)
      ensures id.Some? ==> id.value in repository.commands && Untouched(repository.commands[id.value])
                           && IsAskedFor(repository.commands[id.value], deviceId, kind, payload, repository.now, expiresAt)
      ensures repository.now >= old(repository.now)
    {
      Await(me);
      ghost var before := State();
      var drawn := DrawId();
      var created := repository.Create(deviceId, kind, payload, expiresAt, drawn);
      var next := if created then CreatePublish(drawn) else Done(StoreRefused);
      Advance(me, next, Choice(drawn, false, []), before);
      id := if created then Some(drawn) else None;
    }

    method InsertRefresh(me: CallId, deviceId: DeviceId, expiresAt: Instant) returns (id: Option<CommandId>)
      requires Valid() && me in calls && calls[me] == RefreshInsert(deviceId, expiresAt)
      modifies this, repository
      ensures Valid() && old(history) < history && me in calls
      ensures calls[me] == if id.Some? then RefreshPublish(id.value) else Done(StoreRefused)
      ensures id.Some? ==> id.value in repository.commands && Untouched(repository.commands[id.value])
                           && IsAskedFor(repository.commands[id.value], deviceId, Refresh, "{}", repository.now, expiresAt)
    {
      Await(me);
      ghost var before := State();
      var drawn := DrawId();
      var created := repository.Create(deviceId, Refresh, "{}", expiresAt, drawn);
      var next := if created then RefreshPublish(drawn) else Done(StoreRefused);
      Advance(me, next, Choice(drawn, false, []), before);
      id := if created then Some(drawn) else None;
    }

    /** `publish`: the call goes on according to the broker's answer; no row changes. */
    method PublishCommand(me: CallId, id: CommandId) returns (confirmed: bool)
      requires Valid() && me in calls
      requires || calls[me] == CreatePublish(id) || calls[me] == RefreshPublish(id)
               || (calls[me].SweepPublish? && calls[me].next < |calls[me].queue| && calls[me].queue[calls[me].next] == id)
      modifies this, repository
      ensures Valid() && old(history) < history && me in calls
      ensures old(calls[me]).CreatePublish? ==> calls[me] == if confirmed then CreateMark(id) else Done(Created(id))
      ensures old(calls[me]).RefreshPublish? ==> calls[me] == if confirmed then RefreshMark(id) else RefreshAbandon(id)
      ensures old(calls[me]).SweepPublish? ==>
                var SweepPublish(scope, queue, next) := old(calls[me]);
                calls[me] == if confirmed then SweepMark(scope, queue, next) else SweepPublish(scope, queue, next + 1)
    {
      Await(me);
      ghost var before := State();
      confirmed := *;
      repository.RecordPublish(me, id, confirmed);
      var choice := Choice(0, confirmed, []);
      Advance(me, NextCall(calls[me], repository.Value(), choice), choice, before);
    }

    /** Records the publication; the row comes back if the command was still pending. */
    method MarkCommandSent(me: CallId, id: CommandId) returns (row: Option<Command>)
      requires Valid() && me in calls && Recording(calls[me]) == Some(id)
      modifies this, repository
      ensures Valid() && old(history) < history && me in calls
      ensures old(calls[me]).CreateMark? ==> calls[me] == Done(Created(id))
      ensures old(calls[me]).RefreshMark? ==> calls[me] == RefreshWait(id)
      ensures old(calls[me]).SweepMark? ==>
                calls[me] == SweepPublish(old(calls[me]).scope, old(calls[me]).queue, old(calls[me]).next + 1)
      ensures !StillPending(repository.Value(), id)
      ensures row.Some? ==> id in repository.commands && row.value == repository.commands[id] && row.value.status == Sent
    {
      Await(me);
      ghost var before := State();
      row := repository.MarkSent(id);
      var choice := Choice(0, false, []);
      Advance(me, NextCall(calls[me], repository.Value(), choice), choice, before);
    }

    method GiveUp(me: CallId, id: CommandId)
      requires Valid() && me in calls
      requires calls[me] == RefreshAbandon(id) || calls[me] == RefreshGiveUp(id)
      modifies this, repository
      ensures Valid() && old(history) < history && me in calls
      ensures calls[me] == Done(if old(calls[me]).RefreshAbandon? then BrokerUnreachable(id) else TimedOut(id))
      ensures repository.now >= old(repository.now)
    {
      Await(me);
      ghost var before := State();
      repository.Expire(id);
      var next := Done(if calls[me].RefreshAbandon? then BrokerUnreachable(id) else TimedOut(id));
      Advance(me, next, Choice(0, false, []), before);
    }

    /** One read of the command the refresh waits for: how the wait ends, if it does. */
    method ReadCommand(me: CallId, id: CommandId, deadline: Instant)
      returns (answer: Option<Outcome>)
      requires Valid() && me in calls && calls[me] == RefreshRead(id, deadline)
      modifies this, repository
      ensures Valid() && old(history) < history && me in calls
      ensures calls[me] == if answer.Some? then Done(answer.value) else RefreshPause(id, deadline)
      ensures answer.Some? ==> answer.value == Refreshed(id) || (answer.value.DeviceFailed? && answer.value.id == id)
      ensures repository.now >= old(repository.now)
    {
      Await(me);
      ghost var before := State();
      var command := repository.FindById(id);
      if command.Some? && command.value.status == Succeeded {
        answer := Some(Refreshed(id));
      } else if command.Some? && command.value.status == Failed {
        answer := Some(DeviceFailed(id, command.value.error));
      } else {
        answer := None;
      }
      var next := if answer.Some? then Done(answer.value) else RefreshPause(id, deadline);
      Advance(me, next, Choice(0, false, []), before);
    }

    /** `Date.now() >= deadline`, after the read resolved. */
    method CheckDeadline(me: CallId, id: CommandId, deadline: Instant) returns (expired: bool)
      requires Valid() && me in calls && calls[me] == RefreshPause(id, deadline)
      modifies this, repository
      ensures Valid() && old(history) < history && me in calls
      ensures calls[me] == if expired then RefreshGiveUp(id) else RefreshRead(id, deadline)
      ensures repository.now >= old(repository.now) && (expired <==> repository.now >= deadline)
    {
      Await(me);
      ghost var before := State();
      expired := repository.now >= deadline;
      Advance(me, if expired then RefreshGiveUp(id) else RefreshRead(id, deadline), Choice(0, false, []), before);
    }

    method StartWaiting(me: CallId, id: CommandId) returns (deadline: Instant)
      requires Valid() && me in calls && calls[me] == RefreshWait(id)
      modifies this, repository
      ensures Valid() && old(history) < history && me in calls
      ensures deadline == repository.now + REFRESH_TIMEOUT_MS && calls[me] == RefreshRead(id, deadline)
      ensures repository.now >= old(repository.now)
    {
      Await(me);
      ghost var before := State();
      deadline := repository.now + REFRESH_TIMEOUT_MS;
      Advance(me, RefreshRead(id, deadline), Choice(0, false, []), before);
    }

    /** What the outcome says of the command is true of its row. */
    lemma OutcomeHolds(me: CallId, outcome: Outcome)
      requires Valid() && me in calls && calls[me] == Done(outcome)
      ensures OutcomeInv(outcome, repository.Value())
    {
      ReachableInv(boot, history);
      assert CallInv(State().calls[me], State().store);
    }

    /** The log holds the publications of a finished sweep: its queue, once each. */
    lemma SweptIsPublished(me: CallId, scope: Option<DeviceId>, queue: seq<CommandId>)
      requires Valid() && me in calls && calls[me] == Done(Swept(scope, queue))
      ensures AttemptsBy(repository.log, me) == queue && Distinct(queue)
    {
      ReachableInv(boot, history);
      SweptQueueIsPublished(State(), me, scope, queue);
    }

    /** What a finished call published, and that none of its confirmed publications went unrecorded. */
    lemma DoneIsRecorded(me: CallId, outcome: Outcome)
      requires Valid() && me in calls && calls[me] == Done(outcome)
      ensures AttemptsBy(repository.log, me) == Attempted(Done(outcome))
      ensures forall id: CommandId | Attempt(me, id, true) in repository.log :: !StillPending(repository.Value(), id)
    {
      ReachableInv(boot, history);
      assert AttemptsBy(State().store.log, me) == Attempted(State().calls[me]);
      forall id: CommandId | Attempt(me, id, true) in repository.log ensures !StillPending(repository.Value(), id) {
        FinishedCallRecorded(State(), me, id);
      }
    }

    /** The outcome of a call has its cause in the run, and is what its reads found. */
    lemma OutcomeIsExplained(me: CallId, outcome: Outcome)
      requires Valid() && me in calls && calls[me] == Done(outcome)
      ensures Caused(boot, history, me, outcome) && EndsAsRead(boot, history, me, outcome)
      ensures RefreshedCommand(outcome).Some? ==>
                BrokerSaid(repository.log, me, (RefreshedCommand(outcome).value, !outcome.BrokerUnreachable?))
    {
      OutcomeHasItsCause(boot, history, me, outcome);
      ReadsDecide(boot, history, me, outcome);
      if RefreshedCommand(outcome).Some? {
        RefreshFollowsItsBroker(boot, history, me, outcome);
      }
    }

    lemma RefreshIsExplained(me: CallId, outcome: Outcome)
      requires Valid() && me in calls && calls[me] == Done(outcome) && (Refused(outcome) || RefreshedCommand(outcome).Some?)
      ensures OutcomeInv(outcome, repository.Value())
      ensures Caused(boot, history, me, outcome) && EndsAsRead(boot, history, me, outcome)
      ensures RefreshedCommand(outcome).Some? ==>
                BrokerSaid(repository.log, me, (RefreshedCommand(outcome).value, !outcome.BrokerUnreachable?))
      ensures AttemptsBy(repository.log, me) == if Refused(outcome) then [] else [RefreshedCommand(outcome).value]
    {
      OutcomeHolds(me, outcome);
      DoneIsRecorded(me, outcome);
      OutcomeIsExplained(me, outcome);
    }

    /** What a finished sweep published is what its select was to find, at some instant of the run. */
    lemma SweepWasFound(me: CallId, scope: Option<DeviceId>, queue: seq<CommandId>) returns (k: nat)
      requires Valid() && me in calls && calls[me] == Done(Swept(scope, queue))
      ensures k < |history| && IsSweepList(RunWorld(boot, history[..k]).store, scope, queue)
    {
      k := SweepPublishesItsListing(boot, history, me, scope, queue);
    }

    /** The row of a command is the one inserted, moved forward by the system alone. */
    lemma RowMovedOn(earlier: seq<Action>, id: CommandId)
      requires Valid() && earlier <= history && id in RunWorld(boot, earlier).store.commands
      ensures id in repository.commands ==> MovesForward(RunWorld(boot, earlier).store.commands[id], repository.commands[id])
    {
      RowsAreConsistent(boot, earlier, history[|earlier|..], id);
      assert earlier + history[|earlier|..] == history;
    }

    // ----- the methods -----

    /** Refused, nothing was published; created, the command was published once, is the one asked for and, if the broker
        took it, is no longer pending. Its expiry counts from the clock read before the insert. The row that answers the
        request is the one inserted, or the one `markSent` made of it. */
    method Create(me: CallId, deviceId: DeviceId, kind: CommandKind, payload: Json, ttl: nat)
      returns (outcome: Outcome, answer: Option<Command>, ghost createdAt: Instant, ghost expiresAt: Instant)
      requires Valid() && me !in calls && kind in {Lock, Unlock, Reboot, SetLockMessage, RemoveDeviceOwner}
      modifies this, repository
      ensures Valid() && old(history) + [Start(me, CreateRequest(deviceId, kind, payload, ttl))] <= history
      ensures me in calls && calls[me] == Done(outcome)
      ensures (Refused(outcome) || outcome.Created?) && Caused(boot, history, me, outcome)
      ensures AttemptsBy(repository.log, me) == if outcome.Created? then [outcome.id] else []
      ensures forall id: CommandId | Attempt(me, id, true) in repository.log :: !StillPending(repository.Value(), id)
      ensures outcome.Created? && outcome.id in repository.commands ==>
                IsAskedFor(repository.commands[outcome.id], deviceId, kind, payload, createdAt, expiresAt)
      ensures answer.Some? <==> outcome.Created?
      ensures outcome.Created? ==> IsAskedFor(answer.value, deviceId, kind, payload, createdAt, expiresAt)
      ensures outcome.Created? ==> old(repository.now) + ttl <= expiresAt <= createdAt + ttl
      ensures outcome.Created? ==>
                || Untouched(answer.value)
                || (outcome.id in repository.commands && answer.value == repository.commands[outcome.id] && answer.value.status == Sent)
    {
      Begin(me, CreateRequest(deviceId, kind, payload, ttl));
      outcome, answer, createdAt, expiresAt := CheckAndCreate(me, deviceId, kind, payload, ttl);
      DoneIsRecorded(me, outcome);
      OutcomeIsExplained(me, outcome);
    }

    method CheckAndCreate(me: CallId, deviceId: DeviceId, kind: CommandKind, payload: Json, ttl: nat)
      returns (outcome: Outcome, answer: Option<Command>, ghost createdAt: Instant, ghost expiresAt: Instant)
      requires Valid() && me in calls && calls[me] == CreateCheck(deviceId, kind, payload, ttl)
      modifies this, repository
      ensures Valid() && old(history) < history
      ensures me in calls && calls[me] == Done(outcome)
      ensures Refused(outcome) || outcome.Created?
      ensures outcome.Created? && outcome.id in repository.commands ==>
                IsAskedFor(repository.commands[outcome.id], deviceId, kind, payload, createdAt, expiresAt)
      ensures answer.Some? <==> outcome.Created?
      ensures outcome.Created? ==> IsAskedFor(answer.value, deviceId, kind, payload, createdAt, expiresAt)
      ensures outcome.Created? ==> old(repository.now) + ttl <= expiresAt <= createdAt + ttl
      ensures outcome.Created? ==>
                || Untouched(answer.value)
                || (outcome.id in repository.commands && answer.value == repository.commands[outcome.id] && answer.value.status == Sent)
    {
      createdAt, expiresAt, answer := 0, 0, None;
      var refusal := CheckCreate(me, deviceId, kind, payload, ttl);
      if refusal.Some? { return refusal.value, None, createdAt, expiresAt; }
      var id;
      id, expiresAt := AddCommand(me, deviceId, kind, payload, ttl);
      if id.None? { return StoreRefused, None, createdAt, expiresAt; }
      ghost var inserted := history;
      createdAt := repository.now;
      var row := PublishCreated(me, id.value, repository.commands[id.value]);
      RowMovedOn(inserted, id.value);
      outcome, answer := Created(id.value), Some(row);
    }

    method AddCommand(me: CallId, deviceId: DeviceId, kind: CommandKind, payload: Json, ttl: nat)
      returns (id: Option<CommandId>, ghost expiresAt: Instant)
      requires Valid() && me in calls && calls[me] == CreateStamp(deviceId, kind, payload, ttl)
      modifies this, repository
      ensures Valid() && old(history) < history && me in calls
      ensures calls[me] == if id.Some? then CreatePublish(id.value) else Done(StoreRefused)
      ensures id.Some? ==> id.value in repository.commands && Untouched(repository.commands[id.value])
                           && IsAskedFor(repository.commands[id.value], deviceId, kind, payload, repository.now, expiresAt)
      ensures old(repository.now) + ttl <= expiresAt <= repository.now + ttl
    {
      var expiry := StampCommand(me, deviceId, kind, payload, ttl);
      expiresAt := expiry;
      id := InsertCommand(me, deviceId, kind, payload, expiry);
    }

    /** The rest of `create`, once its command exists. */
    method PublishCreated(me: CallId, id: CommandId, command: Command) returns (row: Command)
      requires Valid() && me in calls && calls[me] == CreatePublish(id)
      modifies this, repository
      ensures Valid() && old(history) < history
      ensures me in calls && calls[me] == Done(Created(id))
      ensures row == command || (id in repository.commands && row == repository.commands[id] && row.status == Sent)
    {
      row := command;
      var confirmed := PublishCommand(me, id);
      if confirmed {
        var marked := MarkCommandSent(me, id);
        row := marked.GetOr(command);
      }
    }

    /** Ends with the command settled, whatever ran meanwhile; `CommandGuarantees.EndedRefreshIsSettled` says what
        follows from there. The outcome has its cause, and is the first answer the wait read, if it read one. The wait reads
        the command at most 31 times. */
    method RefreshDevice(me: CallId, deviceId: DeviceId) returns (outcome: Outcome, polls: nat)
      requires Valid() && me !in calls
      modifies this, repository
      ensures Valid() && old(history) + [Start(me, RefreshRequest(deviceId))] <= history
      ensures me in calls && calls[me] == Done(outcome)
      ensures OutcomeInv(outcome, repository.Value())
      ensures Caused(boot, history, me, outcome) && EndsAsRead(boot, history, me, outcome)
      ensures RefreshedCommand(outcome).Some? ==>
                BrokerSaid(repository.log, me, (RefreshedCommand(outcome).value, !outcome.BrokerUnreachable?))
      ensures Refused(outcome) || RefreshedCommand(outcome).Some?
      ensures AttemptsBy(repository.log, me) == if Refused(outcome) then [] else [RefreshedCommand(outcome).value]
      ensures RefreshedCommand(outcome).Some? && RefreshedCommand(outcome).value in repository.commands ==>
                repository.commands[RefreshedCommand(outcome).value].deviceId == deviceId
      ensures polls <= REFRESH_TIMEOUT_MS / REFRESH_POLL_MS + 1
    {
      Begin(me, RefreshRequest(deviceId));
      outcome, polls := CheckAndRefresh(me, deviceId);
      RefreshIsExplained(me, outcome);
    }

    method CheckAndRefresh(me: CallId, deviceId: DeviceId) returns (outcome: Outcome, polls: nat)
      requires Valid() && me in calls && calls[me] == RefreshCheck(deviceId)
      modifies this, repository
      ensures Valid() && old(history) < history
      ensures me in calls && calls[me] == Done(outcome)
      ensures Refused(outcome) || RefreshedCommand(outcome).Some?
      ensures RefreshedCommand(outcome).Some? && RefreshedCommand(outcome).value in repository.commands ==>
                repository.commands[RefreshedCommand(outcome).value].deviceId == deviceId
      ensures polls <= REFRESH_TIMEOUT_MS / REFRESH_POLL_MS + 1
    {
      var refusal := CheckRefresh(me, deviceId);
      if refusal.Some? { return refusal.value, 0; }
      var id := AddRefresh(me, deviceId);
      if id.None? { return StoreRefused, 0; }
      outcome, polls := AskDevice(me, id.value, deviceId);
    }

    method AddRefresh(me: CallId, deviceId: DeviceId) returns (id: Option<CommandId>)
      requires Valid() && me in calls && calls[me] == RefreshStamp(deviceId)
      modifies this, repository
      ensures Valid() && old(history) < history && me in calls
      ensures calls[me] == if id.Some? then RefreshPublish(id.value) else Done(StoreRefused)
      ensures id.Some? ==> id.value in repository.commands && repository.commands[id.value].deviceId == deviceId
    {
      var expiresAt := StampRefresh(me, deviceId);
      id := InsertRefresh(me, deviceId, expiresAt);
    }

    method AskDevice(me: CallId, id: CommandId, deviceId: DeviceId) returns (outcome: Outcome, polls: nat)
      requires Valid() && me in calls && calls[me] == RefreshPublish(id)
      requires id in repository.commands && repository.commands[id].deviceId == deviceId
      modifies this, repository
      ensures Valid() && old(history) < history
      ensures me in calls && calls[me] == Done(outcome)
      ensures RefreshedCommand(outcome) == Some(id)
      ensures id in repository.commands ==> repository.commands[id].deviceId == deviceId
      ensures polls <= REFRESH_TIMEOUT_MS / REFRESH_POLL_MS + 1
    {
      ghost var inserted := history;
      outcome, polls := AskAndWait(me, id);
      RowMovedOn(inserted, id);
    }

    /** The rest of `refresh`, once its command exists. */
    method AskAndWait(me: CallId, id: CommandId) returns (outcome: Outcome, polls: nat)
      requires Valid() && me in calls && calls[me] == RefreshPublish(id)
      modifies this, repository
      ensures Valid() && old(history) < history
      ensures me in calls && calls[me] == Done(outcome)
      ensures || outcome == BrokerUnreachable(id) || outcome == Refreshed(id) || outcome == TimedOut(id)
              || (outcome.DeviceFailed? && outcome.id == id)
      ensures polls <= REFRESH_TIMEOUT_MS / REFRESH_POLL_MS + 1
    {
      var confirmed := PublishCommand(me, id);
      if !confirmed {
        GiveUp(me, id);
        return BrokerUnreachable(id), 0;
      }
      outcome, polls := RecordAndWait(me, id);
    }

    method RecordAndWait(me: CallId, id: CommandId) returns (outcome: Outcome, polls: nat)
      requires Valid() && me in calls && calls[me] == RefreshMark(id)
      modifies this, repository
      ensures Valid() && old(history) < history
      ensures me in calls && calls[me] == Done(outcome)
      ensures outcome == Refreshed(id) || outcome == TimedOut(id) || (outcome.DeviceFailed? && outcome.id == id)
      ensures polls <= REFRESH_TIMEOUT_MS / REFRESH_POLL_MS + 1
    {
      var marked := MarkCommandSent(me, id);
      outcome, polls := WaitForCompletion(me, id);
    }

    /** One turn of the polling loop: the command's answer or, failing that, whether the deadline has come. */
    method Poll(me: CallId, id: CommandId, deadline: Instant) returns (answer: Option<Outcome>, expired: bool)
      requires Valid() && me in calls && calls[me] == RefreshRead(id, deadline)
      modifies this, repository
      ensures Valid() && old(history) < history && me in calls
      ensures calls[me] == if answer.Some? then Done(answer.value)
                           else if expired then RefreshGiveUp(id) else RefreshRead(id, deadline)
      ensures answer.Some? ==> answer.value == Refreshed(id) || (answer.value.DeviceFailed? && answer.value.id == id)
      ensures repository.now >= old(repository.now)
      ensures answer.None? ==> (expired <==> repository.now >= deadline)
    {
      expired := false;
      answer := ReadCommand(me, id, deadline);
      if answer.None? {
        expired := CheckDeadline(me, id, deadline);
      }
    }

    /** The wait, and what its end says of what it read: the first answer, or none up to the deadline. */
    method WaitForCompletion(me: CallId, id: CommandId)
      returns (outcome: Outcome, polls: nat)
      requires Valid() && me in calls && calls[me] == RefreshWait(id)
      modifies this, repository
      ensures Valid() && old(history) < history
      ensures me in calls && calls[me] == Done(outcome)
      ensures outcome == Refreshed(id) || outcome == TimedOut(id) || (outcome.DeviceFailed? && outcome.id == id)
      ensures EndsAsRead(boot, history, me, outcome)
      ensures outcome == TimedOut(id) ==> repository.now >= old(repository.now) + REFRESH_TIMEOUT_MS
      ensures 1 <= polls <= REFRESH_TIMEOUT_MS / REFRESH_POLL_MS + 1
    {
      outcome, polls := PollUntilOver(me, id);
      OutcomeIsExplained(me, outcome);
    }

    /** Polls the command until the device completes it; gives up, and expires it, after `REFRESH_TIMEOUT_MS`, no sooner. */
    method PollUntilOver(me: CallId, id: CommandId)
      returns (outcome: Outcome, polls: nat)
      requires Valid() && me in calls && calls[me] == RefreshWait(id)
      modifies this, repository
      ensures Valid() && old(history) < history
      ensures me in calls && calls[me] == Done(outcome)
      ensures outcome == Refreshed(id) || outcome == TimedOut(id) || (outcome.DeviceFailed? && outcome.id == id)
      ensures outcome == TimedOut(id) ==> repository.now >= old(repository.now) + REFRESH_TIMEOUT_MS
      ensures 1 <= polls <= REFRESH_TIMEOUT_MS / REFRESH_POLL_MS + 1
    {
      var deadline := StartWaiting(me, id);
      polls := 0;
      while true
        invariant Valid() && old(history) < history
        invariant me in calls && calls[me] == RefreshRead(id, deadline)
        invariant deadline >= old(repository.now) + REFRESH_TIMEOUT_MS
        invariant repository.now + REFRESH_TIMEOUT_MS >= deadline + polls * REFRESH_POLL_MS
        invariant polls <= REFRESH_TIMEOUT_MS / REFRESH_POLL_MS
        decreases REFRESH_TIMEOUT_MS - polls
      {
        var answer, expired := Poll(me, id, deadline);
        if answer.Some? { return answer.value, polls + 1; }
        if expired { break; }
        Sleep(me, REFRESH_POLL_MS);
        polls := polls + 1;
      }
      GiveUp(me, id);
      return TimedOut(id), polls + 1;
    }

    method HandleAck(me: CallId, deviceId: DeviceId, id: CommandId, ack: Ack, result: Option<Json>,
                     error: Option<string>) returns (updated: Option<Command>)
      requires Valid() && me !in calls
      modifies this, repository
      ensures Valid() && old(history) + [Start(me, AckMessage(deviceId, id, ack, result, error))] <= history
      ensures me in calls && calls[me] == Done(Handled)
      ensures id in repository.commands && repository.commands[id].deviceId == deviceId ==>
                repository.commands[id].status !in {Pending, Sent}
      ensures AckTaken(repository.Value(), id, deviceId, ack, result, error, updated)
    {
      Begin(me, AckMessage(deviceId, id, ack, result, error));
      updated := ApplyAck(me, deviceId, id, ack, result, error);
    }

    method ApplyAck(me: CallId, deviceId: DeviceId, id: CommandId, ack: Ack, result: Option<Json>, error: Option<string>)
      returns (updated: Option<Command>)
      requires Valid() && me in calls && calls[me] == AckApply(deviceId, id, ack, result, error)
      modifies this, repository
      ensures Valid() && old(history) < history && me in calls && calls[me] == Done(Handled)
      ensures id in repository.commands && repository.commands[id].deviceId == deviceId ==>
                repository.commands[id].status !in {Pending, Sent}
      ensures AckTaken(repository.Value(), id, deviceId, ack, result, error, updated)
    {
      Await(me);
      ghost var before := State();
      var allowedFrom := if ack == AckReceived then {Pending, Sent} else {Pending, Sent, Acknowledged};
      updated := repository.ApplyAck(id, deviceId, ack, allowedFrom, result, error);
      Advance(me, Done(Handled), Choice(0, false, []), before);
    }

    method SetPresence(me: CallId, deviceId: DeviceId, online: bool)
      requires Valid() && me in calls && calls[me] == StatusSet(deviceId, online)
      modifies this, repository
      ensures Valid() && old(history) < history && me in calls
      ensures calls[me] == if online then SweepExpire(Some(deviceId)) else Done(Handled)
      ensures deviceId in repository.devices ==> repository.devices[deviceId].online == online
    {
      Await(me);
      ghost var before := State();
      repository.SetPresence(deviceId, online);
      Advance(me, if online then SweepExpire(Some(deviceId)) else Done(Handled), Choice(0, false, []), before);
    }

    /** A device that comes online is sent everything it has not acknowledged; one that goes offline is sent nothing. */
    method HandleStatus(me: CallId, deviceId: DeviceId, online: bool) returns (queue: seq<CommandId>, ghost found: nat)
      requires Valid() && me !in calls
      modifies this, repository
      ensures Valid() && old(history) + [Start(me, StatusMessage(deviceId, online))] <= history
      ensures me in calls && calls[me] == if online then Done(Swept(Some(deviceId), queue)) else Done(Handled)
      ensures online ==> AttemptsBy(repository.log, me) == queue && Distinct(queue)
      ensures !online ==>
                && AttemptsBy(repository.log, me) == []
                && (deviceId in repository.devices ==> !repository.devices[deviceId].online)
      ensures online ==> found < |history| && IsSweepList(RunWorld(boot, history[..found]).store, Some(deviceId), queue)
      ensures forall id: CommandId | Attempt(me, id, true) in repository.log :: !StillPending(repository.Value(), id)
    {
      Begin(me, StatusMessage(deviceId, online));
      SetPresence(me, deviceId, online);
      queue, found := [], 0;
      if online {
        queue, found := Sweep(me, Some(deviceId));
      } else {
        DoneIsRecorded(me, Handled);
      }
    }

    method FlushPendingForOnlineDevices(me: CallId)
      returns (queue: seq<CommandId>, ghost found: nat)
      requires Valid() && me !in calls
      modifies this, repository
      ensures Valid() && old(history) + [Start(me, Reconnected)] <= history
      ensures me in calls && calls[me] == Done(Swept(None, queue))
      ensures found < |history| && IsSweepList(RunWorld(boot, history[..found]).store, None, queue)
      ensures AttemptsBy(repository.log, me) == queue && Distinct(queue)
      ensures forall id: CommandId | Attempt(me, id, true) in repository.log :: !StillPending(repository.Value(), id)
    {
      Begin(me, Reconnected);
      queue, found := Sweep(me, None);
    }

    method ExpireOverdue(me: CallId, scope: Option<DeviceId>)
      requires Valid() && me in calls && calls[me] == SweepExpire(scope)
      modifies this, repository
      ensures Valid() && old(history) < history && me in calls && calls[me] == SweepFind(scope)
    {
      Await(me);
      ghost var before := State();
      repository.ExpireOverdue(scope);
      Advance(me, SweepFind(scope), Choice(0, false, []), before);
    }

    method Select(me: CallId, scope: Option<DeviceId>) returns (queue: seq<CommandId>)
      requires Valid() && me in calls && calls[me] == SweepFind(scope)
      modifies this, repository
      ensures Valid() && old(history) < history && me in calls && calls[me] == SweepPublish(scope, queue, 0)
      ensures IsListing(repository.commands, Selected(repository.Value(), scope), queue)
    {
      Await(me);
      ghost var before := State();
      queue := Find(scope);
      Advance(me, SweepPublish(scope, queue, 0), Choice(0, false, queue), before);
    }

    method Find(scope: Option<DeviceId>) returns (queue: seq<CommandId>)
      ensures IsListing(repository.commands, Selected(repository.Value(), scope), queue)
    {
      if scope.Some? {
        queue := repository.FindDeliverable(scope.value);
      } else {
        queue := repository.FindPendingForOnlineDevices();
      }
    }

    /** The common body of `redeliver` (scope `Some`) and of the flush (scope `None`): expire what ran out, select,
        publish each command once in the order selected, record the publications the broker confirmed. */
    method Sweep(me: CallId, scope: Option<DeviceId>)
      returns (queue: seq<CommandId>, ghost found: nat)
      requires Valid() && me in calls && calls[me] == SweepExpire(scope)
      modifies this, repository
      ensures Valid() && old(history) < history
      ensures me in calls && calls[me] == Done(Swept(scope, queue))
      ensures found < |history| && IsSweepList(RunWorld(boot, history[..found]).store, scope, queue)
      ensures AttemptsBy(repository.log, me) == queue && Distinct(queue)
      ensures forall id: CommandId | Attempt(me, id, true) in repository.log :: !StillPending(repository.Value(), id)
    {
      ExpireOverdue(me, scope);
      queue := Select(me, scope);
      Deliver(me, scope, queue);
      SweptIsPublished(me, scope, queue);
      found := SweepWasFound(me, scope, queue);
      DoneIsRecorded(me, Swept(scope, queue));
    }

    method Deliver(me: CallId, scope: Option<DeviceId>, queue: seq<CommandId>)
      requires Valid() && me in calls && calls[me] == SweepPublish(scope, queue, 0)
      modifies this, repository
      ensures Valid() && old(history) < history
      ensures me in calls && calls[me] == Done(Swept(scope, queue))
    {
      var next := 0;
      while next < |queue|
        invariant next <= |queue|
        invariant Valid() && old(history) <= history
        invariant me in calls && calls[me] == SweepPublish(scope, queue, next)
      {
        DeliverNext(me, scope, queue, next);
        next := next + 1;
      }
      Finish(me, scope, queue);
    }

    /** One turn of the loop: the publication, recorded if the broker took it. */
    method DeliverNext(me: CallId, scope: Option<DeviceId>, queue: seq<CommandId>, next: nat)
      requires Valid() && next < |queue| && me in calls && calls[me] == SweepPublish(scope, queue, next)
      modifies this, repository
      ensures Valid() && old(history) < history && me in calls && calls[me] == SweepPublish(scope, queue, next + 1)
    {
      var confirmed := PublishCommand(me, queue[next]);
      if confirmed {
        var marked := MarkCommandSent(me, queue[next]);
      }
    }

    method Finish(me: CallId, scope: Option<DeviceId>, queue: seq<CommandId>)
      requires Valid() && me in calls && calls[me] == SweepPublish(scope, queue, |queue|)
      modifies this
      ensures Valid() && old(history) < history && me in calls && calls[me] == Done(Swept(scope, queue))
    {
      Advance(me, Done(Swept(scope, queue)), Choice(0, false, []), State());
    }
  }
}
