/** The gate of every remote command: what must have been true of the device before a command of it can exist. */
module CommandGate {
  import opened Devices
  import opened CommandStore
  import opened CommandCalls
  import opened CommandProtocol

  /** The device exists, is enrolled and is not blocked. */
  predicate Commandable(devices: DeviceTable, deviceId: DeviceId) {
    && deviceId in devices
    && devices[deviceId].enrollmentStatus == Enrolled
    && devices[deviceId].blockedAt.None?
  }

  /** A call that passed the gate and has not inserted its command yet. */
  predicate PastTheGate(call: Call) {
    call.CreateStamp? || call.CreateInsert? || call.RefreshStamp? || call.RefreshInsert?
  }

  predicate Refreshes(call: Call) {
    call.RefreshStamp? || call.RefreshInsert?
  }

  function KindOf(call: Call): CommandKind
    requires PastTheGate(call)
  {
    if Refreshes(call) then Refresh else call.kind
  }

  function PayloadOf(call: Call): Json
    requires PastTheGate(call)
  {
    if Refreshes(call) then "{}" else call.payload
  }

  /** `gate` is the same call at the gate. */
  predicate AtTheGate(gate: Call, call: Call)
    requires PastTheGate(call)
  {
    if Refreshes(call) then gate == RefreshCheck(call.deviceId)
    else gate.CreateCheck? && gate.deviceId == call.deviceId && gate.kind == call.kind && gate.payload == call.payload
  }

  /** What the gate asks of the device: of a refresh, that it is online, too. */
  predicate Allowed(devices: DeviceTable, call: Call)
    requires PastTheGate(call)
  {
    Commandable(devices, call.deviceId) && (Refreshes(call) ==> devices[call.deviceId].online)
  }

  /** The same request, at another point past the gate. */
  predicate SameRequest(a: Call, b: Call) {
    && PastTheGate(a) && PastTheGate(b) && a.deviceId == b.deviceId && Refreshes(a) == Refreshes(b)
    && (!Refreshes(a) ==> a.kind == b.kind && a.payload == b.payload)
  }

  lemma PassesTheGate(w: World, a: Action, c: CallId)
    requires c in Step(w, a).calls && PastTheGate(Step(w, a).calls[c])
    requires !(c in w.calls && SameRequest(w.calls[c], Step(w, a).calls[c]))
    ensures var call := Step(w, a).calls[c];
            c in w.calls && AtTheGate(w.calls[c], call) && Allowed(w.store.devices, call)
  {
  }

  /** A call past the gate stood at it at some instant of the run, and its device was allowed then. */
  lemma {:induction false} GateWasPassed(w: World, actions: seq<Action>, c: CallId) returns (m: nat)
    requires c !in w.calls
    requires c in RunWorld(w, actions).calls && PastTheGate(RunWorld(w, actions).calls[c])
    ensures m < |actions|
    ensures var found, call := RunWorld(w, actions[..m]), RunWorld(w, actions).calls[c];
            c in found.calls && AtTheGate(found.calls[c], call) && Allowed(found.store.devices, call)
  {
    var n := |actions| - 1;
    var before, call := RunWorld(w, actions[..n]), RunWorld(w, actions).calls[c];
    if c in before.calls && SameRequest(before.calls[c], call) {
      m := GateWasPassed(w, actions[..n], c);
      assert actions[..n][..m] == actions[..m];
    } else {
      m := n;
      PassesTheGate(before, actions[n], c);
    }
  }

  /** Call `c` stands before the insert of command `id`, which becomes this row. */
  predicate Inserts(w: World, a: Action, c: CallId, id: CommandId, row: Command) {
    && a.Resume? && a.caller == c && a.choice.id == id
    && c in w.calls && (w.calls[c].CreateInsert? || w.calls[c].RefreshInsert?)
    && w.calls[c].deviceId == row.deviceId && KindOf(w.calls[c]) == row.kind && PayloadOf(w.calls[c]) == row.payload
    && w.calls[c].expiresAt == row.expiresAt && w.store.now == row.createdAt
  }

  /** A row nothing has happened to yet. */
  predicate Untouched(row: Command) {
    && row.status == Pending && row.result.None? && row.error.None?
    && row.sentAt.None? && row.acknowledgedAt.None? && row.completedAt.None?
  }

  lemma RowAppears(w: World, a: Action, id: CommandId)
    requires id !in w.store.commands && id in Step(w, a).store.commands
    ensures a.Resume? && Inserts(w, a, a.caller, id, Step(w, a).store.commands[id])
    ensures Untouched(Step(w, a).store.commands[id])
  {
  }

  lemma RowKeepsItsDevice(s: Store, e: Event, id: CommandId)
    requires id in s.commands && id in s.issued && id in Apply(s, e).commands
    ensures Apply(s, e).commands[id].deviceId == s.commands[id].deviceId
    ensures var before, after := s.commands[id], Apply(s, e).commands[id];
            && after.kind == before.kind && after.payload == before.payload
            && after.createdAt == before.createdAt && after.expiresAt == before.expiresAt
  {
  }

  lemma {:induction false} RowWasInserted(boot: World, actions: seq<Action>, id: CommandId) returns (n: nat, c: CallId)
    requires Boot(boot) && id in RunWorld(boot, actions).store.commands
    ensures n < |actions| && Inserts(RunWorld(boot, actions[..n]), actions[n], c, id, RunWorld(boot, actions).store.commands[id])
    ensures var born := RunWorld(boot, actions[..n + 1]).store.commands;
            id !in RunWorld(boot, actions[..n]).store.commands && id in born && Untouched(born[id])
  {
    assert actions[..|actions|] == actions;
    n := |actions| - 1;
    var before := RunWorld(boot, actions[..n]);
    if id in before.store.commands {
      ReachableInv(boot, actions[..n]);
      assert RowInv(before.store, id);
      RowKeepsItsDevice(before.store, Effect(before, actions[n]), id);
      var last := n;
      n, c := RowWasInserted(boot, actions[..last], id);
      assert actions[..last][..n] == actions[..n] && actions[..last][n] == actions[n];
      assert actions[..last][..n + 1] == actions[..n + 1];
    } else {
      RowAppears(before, actions[n], id);
      c := actions[n].caller;
    }
  }

  /** The kinds an admin may create, all along a `create`. */
  predicate AdminKindOnly(call: Call) {
    call.CreateCheck? || call.CreateStamp? || call.CreateInsert? ==>
      call.kind in {Lock, Unlock, Reboot, SetLockMessage, RemoveDeviceOwner}
  }

  lemma {:induction false} CreatesAreAdmin(w: World, actions: seq<Action>, c: CallId)
    requires w.calls == map[] && c in RunWorld(w, actions).calls
    ensures AdminKindOnly(RunWorld(w, actions).calls[c])
  {
    if actions != [] {
      var n := |actions| - 1;
      if c in RunWorld(w, actions[..n]).calls {
        CreatesAreAdmin(w, actions[..n], c);
      }
    }
  }

  /** No command reaches a device that was not allowed one: every row of the table was inserted by a call that, earlier in
      the run, found its device present, enrolled and not blocked, and, for a refresh, online. */
  lemma EveryCommandWasAllowed(boot: World, actions: seq<Action>, id: CommandId) returns (m: nat, n: nat, c: CallId)
    requires Boot(boot) && id in RunWorld(boot, actions).store.commands
    ensures m < n < |actions|
    ensures var row := RunWorld(boot, actions).store.commands[id];
            var checked, inserting := RunWorld(boot, actions[..m]), RunWorld(boot, actions[..n]);
            && Inserts(inserting, actions[n], c, id, row)
            && c in checked.calls && AtTheGate(checked.calls[c], inserting.calls[c])
            && Commandable(checked.store.devices, row.deviceId)
            && (if row.kind == Refresh then checked.store.devices[row.deviceId].online
                else row.kind in {Lock, Unlock, Reboot, SetLockMessage, RemoveDeviceOwner})
  {
    n, c := RowWasInserted(boot, actions, id);
    m := GateWasPassed(boot, actions[..n], c);
    assert actions[..n][..m] == actions[..m];
    CreatesAreAdmin(boot, actions[..n], c);
  }

  // ----- from the request to the row -----

  /** A call that has not inserted its command yet. */
  predicate BeforeInsert(call: Call) {
    call.CreateCheck? || call.RefreshCheck? || PastTheGate(call)
  }

  /** The call serves the request. */
  predicate Asks(request: Request, call: Call) {
    match call
    case CreateCheck(deviceId, kind, payload, ttl) => request == CreateRequest(deviceId, kind, payload, ttl)
    case CreateStamp(deviceId, kind, payload, ttl) => request == CreateRequest(deviceId, kind, payload, ttl)
    case CreateInsert(deviceId, kind, payload, _) =>
      request.CreateRequest? && request.deviceId == deviceId && request.kind == kind && request.payload == payload
    case RefreshCheck(deviceId) => request == RefreshRequest(deviceId)
    case RefreshStamp(deviceId) => request == RefreshRequest(deviceId)
    case RefreshInsert(deviceId, _) => request == RefreshRequest(deviceId)
    case _ => false
  }

  /** How long the command of a request lives. */
  function LifeOf(request: Request): nat {
    if request.CreateRequest? then request.ttl else REFRESH_TTL_MS
  }

  predicate AboutToInsert(call: Call) {
    call.CreateInsert? || call.RefreshInsert?
  }

  lemma RequestStep(w: World, a: Action, c: CallId, request: Request)
    requires c in Step(w, a).calls && BeforeInsert(Step(w, a).calls[c])
    ensures c !in w.calls ==> a.Start? && a.caller == c && Asks(a.request, Step(w, a).calls[c])
    ensures c !in w.calls ==> !AboutToInsert(Step(w, a).calls[c])
    ensures c in w.calls ==> BeforeInsert(w.calls[c])
    ensures c in w.calls && Asks(request, w.calls[c]) ==> Asks(request, Step(w, a).calls[c])
    ensures c in w.calls && Asks(request, w.calls[c]) && AboutToInsert(Step(w, a).calls[c]) ==>
              if AboutToInsert(w.calls[c]) then Step(w, a).calls[c].expiresAt == w.calls[c].expiresAt
              else Step(w, a).calls[c].expiresAt == w.store.now + LifeOf(request)
  {
  }

  /** A call before its insert: the action `s` that asked for it and, once its expiry is computed, the action `t` that did. */
  lemma {:induction false} CallWasAsked(w: World, actions: seq<Action>, c: CallId) returns (s: nat, t: nat)
    requires c !in w.calls && c in RunWorld(w, actions).calls && BeforeInsert(RunWorld(w, actions).calls[c])
    ensures s < |actions| && actions[s].Start? && actions[s].caller == c
    ensures Asks(actions[s].request, RunWorld(w, actions).calls[c])
    ensures AboutToInsert(RunWorld(w, actions).calls[c]) ==>
              && s < t < |actions|
              && RunWorld(w, actions).calls[c].expiresAt == RunWorld(w, actions[..t]).store.now + LifeOf(actions[s].request)
  {
    var n := |actions| - 1;
    var before := RunWorld(w, actions[..n]);
    if c in before.calls {
      RequestStep(before, actions[n], c, RefreshRequest(0));
      s, t := CallWasAsked(w, actions[..n], c);
      RequestStep(before, actions[n], c, actions[s].request);
      if !AboutToInsert(before.calls[c]) {
        t := n;
      }
      assert t <= n ==> actions[..n][..t] == actions[..t];
    } else {
      RequestStep(before, actions[n], c, RefreshRequest(0));
      s, t := n, n;
    }
  }

  /** The row holds what the request asked for. */
  predicate HoldsTheRequest(row: Command, request: Request) {
    match request
    case CreateRequest(deviceId, kind, payload, _) => row.deviceId == deviceId && row.kind == kind && row.payload == payload
    case RefreshRequest(deviceId) => row.deviceId == deviceId && row.kind == Refresh && row.payload == "{}"
    case _ => false
  }

  /** Every row of the table, over every run, holds what some request asked for: its device, its kind and its payload; it was
      created at the instant of its insert, and expires the lifetime of the request after an instant between the two. */
  lemma RowHoldsItsRequest(boot: World, actions: seq<Action>, id: CommandId) returns (s: nat, t: nat, n: nat, c: CallId)
    requires Boot(boot) && id in RunWorld(boot, actions).store.commands
    ensures s < t < n < |actions| && actions[s].Start? && actions[s].caller == c
    ensures actions[n].Resume? && actions[n].caller == c
    ensures var row, request := RunWorld(boot, actions).store.commands[id], actions[s].request;
            && HoldsTheRequest(row, request)
            && row.createdAt == RunWorld(boot, actions[..n]).store.now
            && row.expiresAt == RunWorld(boot, actions[..t]).store.now + LifeOf(request)
  {
    n, c := RowWasInserted(boot, actions, id);
    s, t := CallWasAsked(boot, actions[..n], c);
    assert actions[..n][..t] == actions[..t];
  }
}
