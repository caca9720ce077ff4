/** The guarantees of the command service, for every run from a boot and every interleaving of its calls. */
module CommandGuarantees {
  import opened Wrappers
  import opened Devices
  import opened CommandStore
  import opened CommandHistory
  import opened CommandCalls
  import opened CommandProtocol

  /** Every row: statuses only move up, dates agree with them, and only a refresh can expire after an ack. */
  lemma RowsAreConsistent(boot: World, actions: seq<Action>, more: seq<Action>, id: CommandId)
    requires Boot(boot)
    requires id in RunWorld(boot, actions).store.commands
    ensures var row := RunWorld(boot, actions).store.commands[id];
            && Consistent(row)
            && (row.status == Expired && row.acknowledgedAt.Some? ==> row.kind == Refresh)
            && var later := RunWorld(boot, actions + more).store;
               id in later.commands ==> MovesForward(row, later.commands[id])
  {
    var now := RunWorld(boot, actions);
    ReachableInv(boot, actions);
    assert RowInv(now.store, id);
    RunWorldConcat(boot, actions, more);
    StoreFollowsTrace(now, more);
    RowIsIndependent(now.store, id, Trace(now, more));
    RowsMoveForward(now.store.commands[id], id, now.store.now, Trace(now, more));
  }

  /** A sent command was confirmed by the broker; a pending one was not, unless the call that got the confirmation
      has yet to record it. */
  lemma StatusAgreesWithBroker(boot: World, actions: seq<Action>, id: CommandId)
    requires Boot(boot)
    requires id in RunWorld(boot, actions).store.commands
    ensures var w := RunWorld(boot, actions);
            && (w.store.commands[id].status == Sent ==> Confirmed(w.store.log, id))
            && (w.store.commands[id].status == Pending ==>
                  forall p | p in w.store.log && p.id == id && p.confirmed ::
                    p.caller in w.calls && Recording(w.calls[p.caller]) == Some(id))
  {
    var w := RunWorld(boot, actions);
    ReachableInv(boot, actions);
    assert RowInv(w.store, id);
    if w.store.commands[id].status == Pending {
      assert StillPending(w.store, id);
    }
  }

  lemma {:induction false} IssuedIsForever(s: Store, id: CommandId, trace: seq<Event>)
    requires id in s.issued
    ensures id in Run(s, trace).issued
  {
    if trace != [] {
      IssuedIsForever(s, id, trace[..|trace| - 1]);
    }
  }

  lemma {:induction false} GoneIsForever(s: Store, id: CommandId, trace: seq<Event>)
    requires id in s.issued && id !in s.commands
    ensures id !in Run(s, trace).commands
  {
    if trace != [] {
      GoneIsForever(s, id, trace[..|trace| - 1]);
      IssuedIsForever(s, id, trace[..|trace| - 1]);
    }
  }

  /** However a refresh ends (200, 502, 503, 504), its command is completed or gone with its device, from then on and
      for every continuation: no query delivers it again, a success is a success of the row and stays one. */
  lemma EndedRefreshIsSettled(boot: World, actions: seq<Action>, more: seq<Action>, c: CallId)
    requires Boot(boot)
    requires var w := RunWorld(boot, actions);
             c in w.calls && w.calls[c].Done? && RefreshedCommand(w.calls[c].outcome).Some?
    ensures var w := RunWorld(boot, actions);
            var id := RefreshedCommand(w.calls[c].outcome).value;
            var later := RunWorld(w, more).store;
            && Settled(later, id, {Succeeded, Failed, Expired})
            && (w.calls[c].outcome.Refreshed? ==> Settled(later, id, {Succeeded}))
            && (w.calls[c].outcome.DeviceFailed? ==> Settled(later, id, {Failed}))
            && (id in later.commands ==> id in w.store.commands && later.commands[id] == w.store.commands[id])
            && forall scope :: id !in Selected(later, scope)
  {
    var w := RunWorld(boot, actions);
    var id := RefreshedCommand(w.calls[c].outcome).value;
    ReachableInv(boot, actions);
    assert CallInv(w.calls[c], w.store);
    var trace := Trace(w, more);
    StoreFollowsTrace(w, more);
    IssuedIsForever(w.store, id, trace);
    if id in w.store.commands {
      assert RowInv(w.store, id);
      TerminalIsForever(w.store, id, trace);
    } else {
      GoneIsForever(w.store, id, trace);
    }
  }

  /** The list a sweep works through, once it has one. */
  predicate HasQueue(call: Call, scope: Option<DeviceId>, queue: seq<CommandId>) {
    || (call.SweepPublish? && call.scope == scope && call.queue == queue)
    || (call.SweepMark? && call.scope == scope && call.queue == queue)
    || call == Done(Swept(scope, queue))
  }

  lemma QueueAppears(w: World, a: Action, c: CallId, scope: Option<DeviceId>, queue: seq<CommandId>)
    requires c in Step(w, a).calls && HasQueue(Step(w, a).calls[c], scope, queue)
    requires !(c in w.calls && HasQueue(w.calls[c], scope, queue))
    ensures c in w.calls && w.calls[c] == SweepFind(scope) && IsListing(w.store.commands, Selected(w.store, scope), queue)
  {
  }

  lemma {:induction false} QueueWasListed(w: World, actions: seq<Action>, c: CallId, scope: Option<DeviceId>,
                                          queue: seq<CommandId>) returns (k: nat)
    requires c !in w.calls
    requires var end := RunWorld(w, actions); c in end.calls && HasQueue(end.calls[c], scope, queue)
    ensures k < |actions|
    ensures var found := RunWorld(w, actions[..k]);
            && c in found.calls && found.calls[c] == SweepFind(scope)
            && IsListing(found.store.commands, Selected(found.store, scope), queue)
  {
    var n := |actions| - 1;
    var before := RunWorld(w, actions[..n]);
    if c in before.calls && HasQueue(before.calls[c], scope, queue) {
      k := QueueWasListed(w, actions[..n], c, scope, queue);
      assert actions[..n][..k] == actions[..k];
    } else {
      k := n;
      QueueAppears(before, actions[n], c, scope, queue);
    }
  }

  /** What a sweep is to publish in this state, each command once, oldest first: for a device, its own pending and sent commands
      that have not run out; for a flush, the pending ones of the devices online. */
  ghost predicate IsSweepList(s: Store, scope: Option<DeviceId>, queue: seq<CommandId>) {
    && (forall id :: id in queue
          <==>
          && id in s.commands && s.now < s.commands[id].expiresAt
          && match scope
             case Some(deviceId) => s.commands[id].deviceId == deviceId && s.commands[id].status in {Pending, Sent}
             case None =>
               s.commands[id].status == Pending && s.commands[id].deviceId in s.devices && s.devices[s.commands[id].deviceId].online)
    && (forall i, j | 0 <= i < j < |queue| ::
          && queue[i] != queue[j] && queue[i] in s.commands && queue[j] in s.commands
          && s.commands[queue[i]].createdAt <= s.commands[queue[j]].createdAt)
  }

  lemma ListingIsSpelled(s: Store, scope: Option<DeviceId>, queue: seq<CommandId>)
    requires IsListing(s.commands, Selected(s, scope), queue)
    ensures IsSweepList(s, scope, queue)
  {
    forall id ensures id in queue <==> id in Selected(s, scope) {
      assert id in queue <==> id in (set i | i in queue);
    }
    match scope
    case Some(_) =>
    case None =>
    forall i | 0 <= i < |queue| ensures queue[i] in s.commands {
      assert queue[i] in queue;
    }
  }

  /** A redelivery (or a flush) that ran to its end, interleaved with anything: the commands it published are exactly
      those its select found deliverable at one instant of the run, each once, oldest first. */
  lemma SweepPublishesItsListing(boot: World, actions: seq<Action>, c: CallId, scope: Option<DeviceId>,
                                 queue: seq<CommandId>) returns (k: nat)
    requires Boot(boot)
    requires c in RunWorld(boot, actions).calls && RunWorld(boot, actions).calls[c] == Done(Swept(scope, queue))
    ensures k < |actions|
    ensures var found := RunWorld(boot, actions[..k]).store;
            IsListing(found.commands, Selected(found, scope), queue) && IsSweepList(found, scope, queue)
    ensures AttemptsBy(RunWorld(boot, actions).store.log, c) == queue && Distinct(queue)
  {
    k := QueueWasListed(boot, actions, c, scope, queue);
    ListingIsSpelled(RunWorld(boot, actions[..k]).store, scope, queue);
    ReachableInv(boot, actions);
    SweptQueueIsPublished(RunWorld(boot, actions), c, scope, queue);
  }

  /** What a redelivery reaches, told by the history: of the commands created before its select, those that nothing
      ended, that no ack of the device reached and that have not run out. */
  lemma SweepReachesTheUnanswered(boot: World, actions: seq<Action>, j: nat, k: nat, deviceId: DeviceId,
                                  queue: seq<CommandId>, id: CommandId)
    requires Boot(boot) && j <= k <= |actions|
    requires var found := RunWorld(boot, actions[..k]).store;
             IsListing(found.commands, Selected(found, Some(deviceId)), queue)
    requires var created := RunWorld(boot, actions[..j]).store; id in created.commands && Fresh(created.commands[id])
    ensures var created := RunWorld(boot, actions[..j]);
            var row := created.store.commands[id];
            var trace := Trace(created, actions[j..k]);
            id in queue
            <==>
            && deviceId == row.deviceId && DeleteDevice(deviceId) !in trace
            && !AckedBefore(row, id, trace, |trace|)
            && !Ended(row, id, created.store.now, trace)
            && row.expiresAt > created.store.now + Elapsed(trace)
  {
    var created := RunWorld(boot, actions[..j]);
    var found := RunWorld(boot, actions[..k]).store;
    assert actions[..k] == actions[..j] + actions[j..k];
    RunWorldConcat(boot, actions[..j], actions[j..k]);
    StoreFollowsTrace(created, actions[j..k]);
    ReachableInv(boot, actions[..j]);
    assert RowInv(created.store, id);
    DeliverableByHistory(created.store, id, Trace(created, actions[j..k]), deviceId);
    assert id in queue <==> id in (set i | i in queue);
  }

  /** What a flush reaches, told by the history: of the commands created before its select, those that nothing ended, that no
      ack of their device reached, that nobody recorded as sent and that have not run out, if their device is online. */
  lemma FlushReachesTheOnline(boot: World, actions: seq<Action>, j: nat, k: nat, queue: seq<CommandId>, id: CommandId)
    requires Boot(boot) && j <= k <= |actions|
    requires var found := RunWorld(boot, actions[..k]).store; IsListing(found.commands, Selected(found, None), queue)
    requires var created := RunWorld(boot, actions[..j]).store; id in created.commands && Fresh(created.commands[id])
    ensures var created, devices := RunWorld(boot, actions[..j]), RunWorld(boot, actions[..k]).store.devices;
            var row := created.store.commands[id];
            var trace := Trace(created, actions[j..k]);
            id in queue
            <==>
            && DeleteDevice(row.deviceId) !in trace
            && !AckedBefore(row, id, trace, |trace|)
            && !Ended(row, id, created.store.now, trace)
            && MarkSent(id) !in trace
            && row.expiresAt > created.store.now + Elapsed(trace)
            && row.deviceId in devices && devices[row.deviceId].online
  {
    var created := RunWorld(boot, actions[..j]);
    assert actions[..k] == actions[..j] + actions[j..k];
    RunWorldConcat(boot, actions[..j], actions[j..k]);
    StoreFollowsTrace(created, actions[j..k]);
    ReachableInv(boot, actions[..j]);
    assert RowInv(created.store, id);
    FlushableByHistory(created.store, id, Trace(created, actions[j..k]));
    assert id in queue <==> id in (set i | i in queue);
  }

  /** A status message sets the presence of its device, and nothing else of it, until something else writes that row. */
  lemma PresenceFollowsItsMessage(boot: World, actions: seq<Action>, n: nat, c: CallId, deviceId: DeviceId, online: bool)
    requires n < |actions| && actions[n].Resume? && actions[n].caller == c
    requires c in RunWorld(boot, actions[..n]).calls && RunWorld(boot, actions[..n]).calls[c] == StatusSet(deviceId, online)
    requires deviceId in RunWorld(boot, actions[..n]).store.devices
    requires forall e | e in Trace(RunWorld(boot, actions[..n + 1]), actions[n + 1..]) :: !WritesDevice(e, deviceId)
    ensures var before, after := RunWorld(boot, actions[..n]).store.devices[deviceId], RunWorld(boot, actions).store.devices;
            && deviceId in after && after[deviceId].online == online
            && after[deviceId].(online := before.online) == before
  {
    var rest, told := actions[n + 1..], RunWorld(boot, actions[..n + 1]);
    assert actions[..n + 1][..n] == actions[..n] && actions == actions[..n + 1] + rest;
    RunWorldConcat(boot, actions[..n + 1], rest);
    StoreFollowsTrace(told, rest);
    DeviceStays(told.store, Trace(told, rest), deviceId);
  }

  /** The foreign key: in every reachable state, a command's device is in the table. */
  lemma {:induction false} CommandsHaveTheirDevice(boot: World, actions: seq<Action>, id: CommandId)
    requires Boot(boot) && id in RunWorld(boot, actions).store.commands
    ensures var s := RunWorld(boot, actions).store; s.commands[id].deviceId in s.devices
  {
    var n := |actions| - 1;
    var before := RunWorld(boot, actions[..n]);
    if id in before.store.commands {
      CommandsHaveTheirDevice(boot, actions[..n], id);
    }
  }

  /** Whatever a finished call got confirmed is no longer pending, then or later. */
  lemma ConfirmedByFinishedCall(boot: World, actions: seq<Action>, more: seq<Action>, p: Attempt)
    requires Boot(boot)
    requires var w := RunWorld(boot, actions);
             p in w.store.log && p.confirmed && p.caller in w.calls && w.calls[p.caller].Done?
    ensures !StillPending(RunWorld(RunWorld(boot, actions), more).store, p.id)
  {
    var w := RunWorld(boot, actions);
    ReachableInv(boot, actions);
    var trace := Trace(w, more);
    StoreFollowsTrace(w, more);
    assert p.id in w.store.issued;
    if p.id in w.store.commands {
      assert RowInv(w.store, p.id);
      RowIsIndependent(w.store, p.id, trace);
      RowsMoveForward(w.store.commands[p.id], p.id, w.store.now, trace);
    } else {
      GoneIsForever(w.store, p.id, trace);
    }
  }
}
