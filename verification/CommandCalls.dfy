/**
 * The service calls as processes.
 *
 * Each call is suspended between two steps (its `await`s), and any other call may run meanwhile. A `Call` says where
 * a call stands; `Step` is one step of the whole system; a run is a sequence of actions picked by no one in
 * particular, so what holds of every run holds under every interleaving.
 */
module CommandCalls {
  import opened Wrappers
  import opened Devices
  import opened CommandStore

  const REFRESH_TIMEOUT_MS: nat := 15_000
  const REFRESH_TTL_MS: nat := REFRESH_TIMEOUT_MS + 5_000
  const REFRESH_POLL_MS: nat := 500

  /** How a call ends: the value it returns or the HTTP error it throws. */
  datatype Outcome =
    | NotFound                                            // 404
    | NotEnrolled                                         // 403 DEVICE_NOT_ENROLLED
    | Blocked                                             // 403 DEVICE_BLOCKED
    | Offline                                             // 409
    | StoreRefused                                        // the insert violates the foreign key
    | Created(id: CommandId)
    | Refreshed(id: CommandId)
    | DeviceFailed(id: CommandId, error: Option<string>)  // 502
    | BrokerUnreachable(id: CommandId)                    // 503
    | TimedOut(id: CommandId)                             // 504
    | Swept(scope: Option<DeviceId>, queue: seq<CommandId>)
    | Handled

  datatype Request =
    | CreateRequest(deviceId: DeviceId, kind: CommandKind, payload: Json, ttl: nat)
    | RefreshRequest(deviceId: DeviceId)
    | StatusMessage(deviceId: DeviceId, online: bool)
    | AckMessage(deviceId: DeviceId, id: CommandId, ack: Ack, result: Option<Json>, error: Option<string>)
    | Reconnected

  /** Where a call stands: the statement it is about to send, or the clock it is about to read: a `Stamp` computes the
      expiry before the insert is sent, `RefreshWait` the deadline. */
  datatype Call =
    // create
    | CreateCheck(deviceId: DeviceId, kind: CommandKind, payload: Json, ttl: nat)
    | CreateStamp(deviceId: DeviceId, kind: CommandKind, payload: Json, ttl: nat)
    | CreateInsert(deviceId: DeviceId, kind: CommandKind, payload: Json, expiresAt: Instant)
    | CreatePublish(id: CommandId)
    | CreateMark(id: CommandId)
    // refresh and waitForCompletion
    | RefreshCheck(deviceId: DeviceId)
    | RefreshStamp(deviceId: DeviceId)
    | RefreshInsert(deviceId: DeviceId, expiresAt: Instant)
    | RefreshPublish(id: CommandId)
    | RefreshAbandon(id: CommandId)
    | RefreshMark(id: CommandId)
    | RefreshWait(id: CommandId)
    | RefreshRead(id: CommandId, deadline: Instant)
    | RefreshPause(id: CommandId, deadline: Instant)
    | RefreshGiveUp(id: CommandId)
    // handleStatus, then redeliver (scope `Some`); flushPendingForOnlineDevices (scope `None`)
    | StatusSet(deviceId: DeviceId, online: bool)
    | SweepExpire(scope: Option<DeviceId>)
    | SweepFind(scope: Option<DeviceId>)
    | SweepPublish(scope: Option<DeviceId>, queue: seq<CommandId>, next: nat)
    | SweepMark(scope: Option<DeviceId>, queue: seq<CommandId>, next: nat)
    // handleAck
    | AckApply(deviceId: DeviceId, id: CommandId, ack: Ack, result: Option<Json>, error: Option<string>)
    | Done(outcome: Outcome)

  /** What a step does not decide itself: the id drawn by the database, the answer of `publishJson`, the order of
      rows of the same date. */
  datatype Choice = Choice(id: CommandId, confirmed: bool, listing: seq<CommandId>)

  datatype World = World(store: Store, calls: map<CallId, Call>)

  datatype Action =
    | Start(caller: CallId, request: Request)
    | Resume(caller: CallId, choice: Choice)
    | Outside(event: Event)

  function FirstCall(request: Request): Call {
    match request
    case CreateRequest(deviceId, kind, payload, ttl) => CreateCheck(deviceId, kind, payload, ttl)
    case RefreshRequest(deviceId) => RefreshCheck(deviceId)
    case StatusMessage(deviceId, online) => StatusSet(deviceId, online)
    case AckMessage(deviceId, id, ack, result, error) => AckApply(deviceId, id, ack, result, error)
    case Reconnected => SweepExpire(None)
  }

  /** Zod accepts only the admin kinds. */
  predicate Accepted(request: Request) {
    request.CreateRequest? ==> AdminKind(request.kind)
  }

  /** `assertCommandable`: the refusal, if any. */
  function Refusal(devices: DeviceTable, deviceId: DeviceId): Option<Outcome> {
    if deviceId !in devices then Some(NotFound)
    else if devices[deviceId].enrollmentStatus != Enrolled then Some(NotEnrolled)
    else if devices[deviceId].blockedAt.Some? then Some(Blocked)
    else None
  }

  /** The choices the database and the broker can make at this point. */
  predicate Possible(call: Call, s: Store, choice: Choice) {
    match call
    case CreateInsert(_, _, _, _) => choice.id !in s.issued
    case RefreshInsert(_, _) => choice.id !in s.issued
    case SweepFind(scope) => IsListing(s.commands, Selected(s, scope), choice.listing)
    case Done(_) => false
    case _ => true
  }

  /** The statement a call sends; a mere read is a tick of zero. */
  function EventOf(caller: CallId, call: Call, choice: Choice): Event {
    match call
    case CreateInsert(deviceId, kind, payload, expiresAt) => Insert(choice.id, deviceId, kind, payload, expiresAt)
    case CreatePublish(id) => Publish(caller, id, choice.confirmed)
    case CreateMark(id) => MarkSent(id)
    case RefreshInsert(deviceId, expiresAt) => Insert(choice.id, deviceId, Refresh, "{}", expiresAt)
    case RefreshPublish(id) => Publish(caller, id, choice.confirmed)
    case RefreshAbandon(id) => Expire(id)
    case RefreshMark(id) => MarkSent(id)
    case RefreshGiveUp(id) => Expire(id)
    case StatusSet(deviceId, online) => SetPresence(deviceId, online)
    case SweepExpire(scope) => ExpireOverdue(scope)
    case SweepPublish(_, queue, next) => if next < |queue| then Publish(caller, queue[next], choice.confirmed) else Tick(0)
    case SweepMark(_, queue, next) => if next < |queue| then MarkSent(queue[next]) else Tick(0)
    case AckApply(deviceId, id, ack, result, error) => ApplyAck(id, deviceId, ack, result, error)
    case _ => Tick(0)
  }

  /** Where the call stands after its statement, given the store that statement found. */
  function NextCall(call: Call, s: Store, choice: Choice): Call {
    match call
    case CreateCheck(deviceId, kind, payload, ttl) =>
      var refusal := Refusal(s.devices, deviceId);
      if refusal.Some? then Done(refusal.value) else CreateStamp(deviceId, kind, payload, ttl)
    case CreateStamp(deviceId, kind, payload, ttl) => CreateInsert(deviceId, kind, payload, s.now + ttl)
    case CreateInsert(deviceId, _, _, _) => if deviceId in s.devices then CreatePublish(choice.id) else Done(StoreRefused)
    case CreatePublish(id) => if choice.confirmed then CreateMark(id) else Done(Created(id))
    case CreateMark(id) => Done(Created(id))
    case RefreshCheck(deviceId) =>
      var refusal := Refusal(s.devices, deviceId);
      if refusal.Some? then Done(refusal.value)
      else if !s.devices[deviceId].online then Done(Offline)
      else RefreshStamp(deviceId)
    case RefreshStamp(deviceId) => RefreshInsert(deviceId, s.now + REFRESH_TTL_MS)
    case RefreshInsert(deviceId, _) => if deviceId in s.devices then RefreshPublish(choice.id) else Done(StoreRefused)
    case RefreshPublish(id) => if choice.confirmed then RefreshMark(id) else RefreshAbandon(id)
    case RefreshAbandon(id) => Done(BrokerUnreachable(id))
    case RefreshMark(id) => RefreshWait(id)
    case RefreshWait(id) => RefreshRead(id, s.now + REFRESH_TIMEOUT_MS)
    case RefreshRead(id, deadline) =>
      if id in s.commands && s.commands[id].status == Succeeded then Done(Refreshed(id))
      else if id in s.commands && s.commands[id].status == Failed then Done(DeviceFailed(id, s.commands[id].error))
      else RefreshPause(id, deadline)
    case RefreshPause(id, deadline) => if s.now >= deadline then RefreshGiveUp(id) else RefreshRead(id, deadline)
    case RefreshGiveUp(id) => Done(TimedOut(id))
    case StatusSet(deviceId, online) => if online then SweepExpire(Some(deviceId)) else Done(Handled)
    case SweepExpire(scope) => SweepFind(scope)
    case SweepFind(scope) => SweepPublish(scope, choice.listing, 0)
    case SweepPublish(scope, queue, next) =>
      if next >= |queue| then Done(Swept(scope, queue))
      else if choice.confirmed then SweepMark(scope, queue, next)
      else SweepPublish(scope, queue, next + 1)
    case SweepMark(scope, queue, next) => SweepPublish(scope, queue, next + 1)
    case AckApply(_, _, _, _, _) => Done(Handled)
    case Done(_) => call
  }

  /** Everything else that may happen: time passes, devices are enrolled, edited, blocked or deleted. */
  predicate OutsideEvent(e: Event) {
    e.Tick? || e.PutDevice? || e.DeleteDevice?
  }

  /** The statement an action sends in `w`; a tick of zero when the action is not possible there. */
  function Effect(w: World, a: Action): Event {
    match a
    case Start(_, _) => Tick(0)
    case Resume(caller, choice) =>
      if caller in w.calls && Possible(w.calls[caller], w.store, choice)
      then EventOf(caller, w.calls[caller], choice)
      else Tick(0)
    case Outside(e) => if OutsideEvent(e) then e else Tick(0)
  }

  function NextCalls(w: World, a: Action): map<CallId, Call> {
    match a
    case Start(caller, request) =>
      if caller !in w.calls && Accepted(request) then w.calls[caller := FirstCall(request)] else w.calls
    case Resume(caller, choice) =>
      if caller in w.calls && Possible(w.calls[caller], w.store, choice)
      then w.calls[caller := NextCall(w.calls[caller], w.store, choice)]
      else w.calls
    case Outside(_) => w.calls
  }

  function Step(w: World, a: Action): World {
    World(Apply(w.store, Effect(w, a)), NextCalls(w, a))
  }

  function RunWorld(w: World, actions: seq<Action>): World {
    if actions == [] then w else Step(RunWorld(w, actions[..|actions| - 1]), actions[|actions| - 1])
  }

  /** The statements a run sends to the database. */
  function Trace(w: World, actions: seq<Action>): seq<Event> {
    if actions == [] then []
    else
      var before := actions[..|actions| - 1];
      Trace(w, before) + [Effect(RunWorld(w, before), actions[|actions| - 1])]
  }

  /** A run of the calls is a run of the store: what holds of every trace holds of every interleaving. */
  lemma {:induction false} StoreFollowsTrace(w: World, actions: seq<Action>)
    ensures RunWorld(w, actions).store == Run(w.store, Trace(w, actions))
  {
    if actions != [] {
      var before := actions[..|actions| - 1];
      StoreFollowsTrace(w, before);
      var trace := Trace(w, actions);
      assert trace[..|trace| - 1] == Trace(w, before);
    }
  }

  lemma {:induction false} RunWorldConcat(w: World, a: seq<Action>, b: seq<Action>)
    ensures RunWorld(w, a + b) == RunWorld(RunWorld(w, a), b)
  {
    if b == [] {
      assert a + b == a;
    } else {
      RunWorldConcat(w, a, b[..|b| - 1]);
      assert (a + b)[..|a + b| - 1] == a + b[..|b| - 1];
    }
  }

  lemma RunFromFront(w: World, a: Action, rest: seq<Action>)
    ensures RunWorld(w, [a] + rest) == RunWorld(Step(w, a), rest)
  {
    RunWorldConcat(w, [a], rest);
    assert RunWorld(w, [a]) == Step(w, a) by {
      assert [a][..0] == [];
    }
  }

  // ----- one step -----

  function Pause(ms: nat): Action {
    Outside(Tick(ms))
  }

  lemma Starts(w: World, c: CallId, request: Request)
    requires c !in w.calls && Accepted(request)
    ensures Step(w, Start(c, request)) == World(w.store, w.calls[c := FirstCall(request)])
  {
  }

  lemma Moves(w: World, c: CallId, choice: Choice)
    requires c in w.calls && Possible(w.calls[c], w.store, choice)
    ensures Step(w, Resume(c, choice))
         == World(Apply(w.store, EventOf(c, w.calls[c], choice)), w.calls[c := NextCall(w.calls[c], w.store, choice)])
  {
  }

  lemma Passes(w: World, ms: nat)
    ensures Step(w, Pause(ms)) == World(w.store.(now := w.store.now + ms), w.calls)
  {
  }

  /** The system before any request: some devices, no command. */
  predicate Boot(w: World) {
    w.store.commands == map[] && w.store.issued == {} && w.store.log == [] && w.calls == map[]
  }
}
