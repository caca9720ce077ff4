/** What every reachable state of the command system guarantees. */
module CommandProtocol {
  import opened Wrappers
  import opened Devices
  import opened CommandStore
  import opened CommandHistory
  import opened CommandCalls

  // ----- the table -----

  ghost predicate RowInv(s: Store, id: CommandId)
    requires id in s.commands
  {
    var row := s.commands[id];
    && id in s.issued
    && Consistent(row)
    && (row.status == Sent ==> Confirmed(s.log, id))
    && (row.status == Expired && row.acknowledgedAt.Some? ==> row.kind == Refresh)
  }

  ghost predicate StoreInv(s: Store) {
    && (forall id | id in s.commands :: RowInv(s, id))
    && (forall a | a in s.log :: a.id in s.issued)
  }

  // ----- the calls -----

  /** The command whose confirmed publication this call is about to record. */
  function Recording(call: Call): Option<CommandId> {
    match call
    case CreateMark(id) => Some(id)
    case RefreshMark(id) => Some(id)
    case SweepMark(_, queue, next) => if next < |queue| then Some(queue[next]) else None
    case _ => None
  }

  /** The refresh command a call is working on, after having created it. */
  function Refreshing(call: Call): Option<CommandId> {
    match call
    case RefreshPublish(id) => Some(id)
    case RefreshAbandon(id) => Some(id)
    case RefreshMark(id) => Some(id)
    case RefreshWait(id) => Some(id)
    case RefreshRead(id, _) => Some(id)
    case RefreshPause(id, _) => Some(id)
    case RefreshGiveUp(id) => Some(id)
    case _ => None
  }

  /** The command a refresh created, once the refresh is over. */
  function RefreshedCommand(outcome: Outcome): Option<CommandId> {
    match outcome
    case Refreshed(id) => Some(id)
    case DeviceFailed(id, _) => Some(id)
    case BrokerUnreachable(id) => Some(id)
    case TimedOut(id) => Some(id)
    case _ => None
  }

  predicate Issued(s: Store, queue: seq<CommandId>) {
    forall id | id in queue :: id in s.issued
  }

  /** The command is gone with its device, or completed with one of these statuses. */
  predicate Settled(s: Store, id: CommandId, statuses: set<Status>) {
    id in s.issued && (id in s.commands ==> s.commands[id].status in statuses)
  }

  predicate OutcomeInv(outcome: Outcome, s: Store) {
    match outcome
    case Refreshed(id) => Settled(s, id, {Succeeded})
    case DeviceFailed(id, error) => Settled(s, id, {Failed}) && (id in s.commands ==> s.commands[id].error == error)
    case BrokerUnreachable(id) => Settled(s, id, {Succeeded, Failed, Expired})
    case TimedOut(id) => Settled(s, id, {Succeeded, Failed, Expired})
    case Swept(_, queue) => Distinct(queue)
    case _ => true
  }

  ghost predicate RecordingInv(call: Call, s: Store) {
    Recording(call).Some? ==> Confirmed(s.log, Recording(call).value)
  }

  predicate RefreshingInv(call: Call, s: Store) {
    Refreshing(call).Some? ==>
      var id := Refreshing(call).value;
      id in s.issued && (id in s.commands ==> s.commands[id].kind == Refresh)
  }

  predicate PositionInv(call: Call, s: Store) {
    match call
    case CreatePublish(id) => id in s.issued
    case CreateMark(id) => id in s.issued
    case SweepPublish(_, queue, next) => next <= |queue| && Issued(s, queue) && Distinct(queue)
    case SweepMark(_, queue, next) => next < |queue| && Issued(s, queue) && Distinct(queue)
    case Done(outcome) => OutcomeInv(outcome, s)
    case _ => true
  }

  ghost predicate CallInv(call: Call, s: Store) {
    RecordingInv(call, s) && RefreshingInv(call, s) && PositionInv(call, s)
  }

  /** The publications a call has attempted so far, read off where it stands. */
  function Attempted(call: Call): seq<CommandId> {
    match call
    case CreateMark(id) => [id]
    case RefreshAbandon(id) => [id]
    case RefreshMark(id) => [id]
    case RefreshWait(id) => [id]
    case RefreshRead(id, _) => [id]
    case RefreshPause(id, _) => [id]
    case RefreshGiveUp(id) => [id]
    case SweepPublish(_, queue, next) => if next <= |queue| then queue[..next] else queue
    case SweepMark(_, queue, next) => if next < |queue| then queue[..next + 1] else queue
    case Done(outcome) => (
      match outcome
      case Created(id) => [id]
      case Refreshed(id) => [id]
      case DeviceFailed(id, _) => [id]
      case BrokerUnreachable(id) => [id]
      case TimedOut(id) => [id]
      case Swept(_, queue) => queue
      case _ => [])
    case _ => []
  }

  /** The publications `caller` attempted, in order, read off the log. */
  function AttemptsBy(log: seq<Attempt>, caller: CallId): seq<CommandId> {
    if log == [] then []
    else
      var before := AttemptsBy(log[..|log| - 1], caller);
      var last := log[|log| - 1];
      if last.caller == caller then before + [last.id] else before
  }

  ghost predicate CallsInv(w: World) {
    && (forall c | c in w.calls :: CallInv(w.calls[c], w.store))
    && (forall c | c in w.calls :: AttemptsBy(w.store.log, c) == Attempted(w.calls[c]))
    && (forall a | a in w.store.log :: a.caller in w.calls)
  }

  predicate StillPending(s: Store, id: CommandId) {
    id in s.commands && s.commands[id].status == Pending
  }

  /** A pending command has no confirmed publication, but for calls standing between theirs and its `markSent`. */
  ghost predicate Agreement(w: World) {
    forall p | p in w.store.log && p.confirmed && StillPending(w.store, p.id) ::
      p.caller in w.calls && Recording(w.calls[p.caller]) == Some(p.id)
  }

  ghost predicate Inv(w: World) {
    StoreInv(w.store) && CallsInv(w) && Agreement(w)
  }

  // ----- every step keeps it -----

  lemma ConfirmedGrows(s: Store, e: Event, id: CommandId)
    ensures Confirmed(s.log, id) ==> Confirmed(Apply(s, e).log, id)
    ensures Confirmed(Apply(s, e).log, id)
            ==> Confirmed(s.log, id) || (e.Publish? && e.id == id && e.confirmed)
  {
  }

  /** What a statement may do to a row without breaking the table's invariant. */
  ghost predicate Permitted(s: Store, e: Event) {
    match e
    case MarkSent(id) => Confirmed(s.log, id)
    case Expire(id) => id in s.commands ==> s.commands[id].kind == Refresh
    case Publish(_, id, _) => id in s.issued
    case _ => true
  }

  lemma RowStep(s: Store, e: Event, id: CommandId)
    requires StoreInv(s) && Permitted(s, e)
    requires id in Apply(s, e).commands
    ensures RowInv(Apply(s, e), id)
  {
    ConfirmedGrows(s, e, id);
    if id in s.commands {
      assert RowInv(s, id);
    }
  }

  lemma StoreStep(s: Store, e: Event)
    requires StoreInv(s) && Permitted(s, e)
    ensures StoreInv(Apply(s, e))
  {
    forall id | id in Apply(s, e).commands ensures RowInv(Apply(s, e), id) {
      RowStep(s, e, id);
    }
  }

  lemma ActionsArePermitted(w: World, a: Action)
    requires Inv(w)
    ensures Permitted(w.store, Effect(w, a))
  {
    if a.Resume? && a.caller in w.calls {
      assert CallInv(w.calls[a.caller], w.store);
    }
  }

  /** A suspended call's knowledge survives whatever the others do. */
  lemma CallIsStable(call: Call, s: Store, e: Event)
    requires StoreInv(s) && CallInv(call, s)
    ensures CallInv(call, Apply(s, e))
  {
    if Recording(call).Some? {
      ConfirmedGrows(s, e, Recording(call).value);
    }
    RefreshingIsStable(call, s, e);
    PositionIsStable(call, s, e);
  }

  lemma RefreshingIsStable(call: Call, s: Store, e: Event)
    requires RefreshingInv(call, s)
    ensures RefreshingInv(call, Apply(s, e))
  {
  }

  lemma PositionIsStable(call: Call, s: Store, e: Event)
    requires StoreInv(s) && PositionInv(call, s)
    ensures PositionInv(call, Apply(s, e))
  {
    if call.Done? {
      OutcomeIsStable(call.outcome, s, e);
    }
  }

  lemma OutcomeIsStable(outcome: Outcome, s: Store, e: Event)
    requires StoreInv(s) && OutcomeInv(outcome, s)
    ensures OutcomeInv(outcome, Apply(s, e))
  {
    if RefreshedCommand(outcome).Some? {
      CompletedStays(s, e, RefreshedCommand(outcome).value);
    }
  }

  /** A completed row can only disappear. */
  lemma CompletedStays(s: Store, e: Event, id: CommandId)
    requires StoreInv(s) && Settled(s, id, {Succeeded, Failed, Expired})
    ensures id in Apply(s, e).issued
    ensures id in Apply(s, e).commands ==> id in s.commands && Apply(s, e).commands[id] == s.commands[id]
  {
    if id in s.commands {
      assert RowInv(s, id);
    }
  }

  lemma CallStep(caller: CallId, call: Call, s: Store, choice: Choice)
    requires StoreInv(s) && CallInv(call, s) && Possible(call, s, choice)
    ensures CallInv(NextCall(call, s, choice), Apply(s, EventOf(caller, call, choice)))
  {
    RecordingStep(caller, call, s, choice);
    RefreshingStep(caller, call, s, choice);
    PositionStep(caller, call, s, choice);
  }

  /** Only a publication the broker has just confirmed is about to be recorded. */
  lemma RecordingStep(caller: CallId, call: Call, s: Store, choice: Choice)
    requires PositionInv(call, s) && Possible(call, s, choice)
    ensures RecordingInv(NextCall(call, s, choice), Apply(s, EventOf(caller, call, choice)))
  {
    var next := NextCall(call, s, choice);
    if Recording(next).Some? {
      assert Attempt(caller, Recording(next).value, true) in Apply(s, EventOf(caller, call, choice)).log;
    }
  }

  lemma RefreshingStep(caller: CallId, call: Call, s: Store, choice: Choice)
    requires RefreshingInv(call, s) && Possible(call, s, choice)
    ensures RefreshingInv(NextCall(call, s, choice), Apply(s, EventOf(caller, call, choice)))
  {
    RefreshingIsStable(call, s, EventOf(caller, call, choice));
  }

  lemma PositionStep(caller: CallId, call: Call, s: Store, choice: Choice)
    requires StoreInv(s) && CallInv(call, s) && Possible(call, s, choice)
    ensures PositionInv(NextCall(call, s, choice), Apply(s, EventOf(caller, call, choice)))
  {
    if call.SweepFind? {
      forall id | id in choice.listing ensures id in s.issued {
        assert id in Selected(s, call.scope);
        assert RowInv(s, id);
      }
    }
  }

  lemma AttemptsSnoc(log: seq<Attempt>, a: Attempt, caller: CallId)
    ensures AttemptsBy(log + [a], caller) == AttemptsBy(log, caller) + (if a.caller == caller then [a.id] else [])
  {
    assert (log + [a])[..|log|] == log;
  }

  function PublishedBy(e: Event, caller: CallId): seq<CommandId> {
    if e.Publish? && e.caller == caller then [e.id] else []
  }

  lemma LogStep(s: Store, e: Event, caller: CallId)
    ensures Apply(s, e).log == if e.Publish? then s.log + [Attempt(e.caller, e.id, e.confirmed)] else s.log
    ensures AttemptsBy(Apply(s, e).log, caller) == AttemptsBy(s.log, caller) + PublishedBy(e, caller)
  {
    if e.Publish? {
      AttemptsSnoc(s.log, Attempt(e.caller, e.id, e.confirmed), caller);
    }
  }

  /** A step's publication is exactly what the call's new position adds to what it attempted. */
  lemma AttemptedStep(caller: CallId, call: Call, s: Store, choice: Choice)
    requires CallInv(call, s)
    ensures Attempted(NextCall(call, s, choice)) == Attempted(call) + PublishedBy(EventOf(caller, call, choice), caller)
  {
    if call.SweepPublish? {
      AttemptedSweepStep(caller, call, s, choice);
    }
  }

  lemma AttemptedSweepStep(caller: CallId, call: Call, s: Store, choice: Choice)
    requires CallInv(call, s) && call.SweepPublish?
    ensures Attempted(NextCall(call, s, choice)) == Attempted(call) + PublishedBy(EventOf(caller, call, choice), caller)
  {
    if call.next < |call.queue| {
      assert call.queue[..call.next] + [call.queue[call.next]] == call.queue[..call.next + 1];
    } else {
      assert call.queue[..call.next] == call.queue;
    }
  }

  lemma NoAttemptsYet(log: seq<Attempt>, caller: CallId)
    requires forall a | a in log :: a.caller != caller
    ensures AttemptsBy(log, caller) == []
  {
  }

  /** Only the call that moves publishes, and only its own position changes. */
  lemma ActorOnly(w: World, a: Action, c: CallId)
    requires c in w.calls
    requires !(a.Resume? && a.caller == c && Possible(w.calls[c], w.store, a.choice))
    ensures c in Step(w, a).calls && Step(w, a).calls[c] == w.calls[c]
    ensures PublishedBy(Effect(w, a), c) == []
  {
  }

  lemma CallsStep(w: World, a: Action, c: CallId)
    requires Inv(w) && c in Step(w, a).calls
    ensures CallInv(Step(w, a).calls[c], Step(w, a).store)
    ensures AttemptsBy(Step(w, a).store.log, c) == Attempted(Step(w, a).calls[c])
  {
    var e := Effect(w, a);
    LogStep(w.store, e, c);
    if a.Resume? && a.caller == c && Possible(w.calls[c], w.store, a.choice) {
      CallStep(c, w.calls[c], w.store, a.choice);
      AttemptedStep(c, w.calls[c], w.store, a.choice);
    } else if c in w.calls {
      CallIsStable(w.calls[c], w.store, e);
      ActorOnly(w, a, c);
    } else {
      NoAttemptsYet(w.store.log, c);
    }
  }

  lemma PendingBefore(s: Store, e: Event, id: CommandId)
    requires StoreInv(s) && StillPending(Apply(s, e), id) && id in s.issued
    ensures StillPending(s, id) && e != MarkSent(id)
  {
    if id in s.commands {
      assert RowInv(s, id);
    }
  }

  /** The call about to record `id` stays there unless it does record it. */
  lemma RecorderRemains(w: World, a: Action, id: CommandId, c: CallId)
    requires c in w.calls && Recording(w.calls[c]) == Some(id) && Effect(w, a) != MarkSent(id)
    ensures c in Step(w, a).calls && Recording(Step(w, a).calls[c]) == Some(id)
  {
  }

  /** Whoever confirms a publication of `id` is about to record it. */
  lemma PublisherRecords(w: World, a: Action, p: Attempt)
    requires p.confirmed && Effect(w, a) == Publish(p.caller, p.id, true)
    ensures p.caller in Step(w, a).calls && Recording(Step(w, a).calls[p.caller]) == Some(p.id)
  {
  }

  lemma AgreementStep(w: World, a: Action, p: Attempt)
    requires Inv(w)
    requires p in Step(w, a).store.log && p.confirmed && StillPending(Step(w, a).store, p.id)
    ensures p.caller in Step(w, a).calls && Recording(Step(w, a).calls[p.caller]) == Some(p.id)
  {
    var e := Effect(w, a);
    LogStep(w.store, e, p.caller);
    if p in w.store.log {
      PendingBefore(w.store, e, p.id);
      RecorderRemains(w, a, p.id, p.caller);
    } else {
      PublisherRecords(w, a, p);
    }
  }

  lemma CallsRemain(w: World, a: Action, c: CallId)
    requires c in w.calls
    ensures c in Step(w, a).calls
  {
  }

  lemma PublisherIsKnown(w: World, a: Action)
    requires Effect(w, a).Publish?
    ensures Effect(w, a).caller in w.calls
  {
  }

  lemma CallersAreKnown(w: World, a: Action, p: Attempt)
    requires CallsInv(w) && p in Step(w, a).store.log
    ensures p.caller in Step(w, a).calls
  {
    LogStep(w.store, Effect(w, a), p.caller);
    if p !in w.store.log {
      PublisherIsKnown(w, a);
    }
    CallsRemain(w, a, p.caller);
  }

  lemma StepKeepsCalls(w: World, a: Action)
    requires Inv(w)
    ensures CallsInv(Step(w, a))
  {
    var w' := Step(w, a);
    forall c | c in w'.calls
      ensures CallInv(w'.calls[c], w'.store) && AttemptsBy(w'.store.log, c) == Attempted(w'.calls[c])
    {
      CallsStep(w, a, c);
    }
    forall p | p in w'.store.log ensures p.caller in w'.calls {
      CallersAreKnown(w, a, p);
    }
  }

  lemma StepKeepsAgreement(w: World, a: Action)
    requires Inv(w)
    ensures Agreement(Step(w, a))
  {
    var w' := Step(w, a);
    forall p | p in w'.store.log && p.confirmed && StillPending(w'.store, p.id)
      ensures p.caller in w'.calls && Recording(w'.calls[p.caller]) == Some(p.id)
    {
      AgreementStep(w, a, p);
    }
  }

  lemma StepKeepsInv(w: World, a: Action)
    requires Inv(w)
    ensures Inv(Step(w, a))
  {
    ActionsArePermitted(w, a);
    StoreStep(w.store, Effect(w, a));
    StepKeepsCalls(w, a);
    StepKeepsAgreement(w, a);
  }

  /** Every state reachable from a boot, under every interleaving. */
  lemma {:induction false} ReachableInv(w: World, actions: seq<Action>)
    requires Boot(w)
    ensures Inv(RunWorld(w, actions))
  {
    if actions != [] {
      ReachableInv(w, actions[..|actions| - 1]);
      StepKeepsInv(RunWorld(w, actions[..|actions| - 1]), actions[|actions| - 1]);
    }
  }

  /** A finished call has recorded what the broker confirmed to it. */
  lemma FinishedCallRecorded(w: World, c: CallId, id: CommandId)
    requires Inv(w) && c in w.calls && w.calls[c].Done? && Attempt(c, id, true) in w.store.log
    ensures !StillPending(w.store, id)
  {
    assert Recording(w.calls[c]).None?;
  }

  lemma SweptQueueIsPublished(w: World, c: CallId, scope: Option<DeviceId>, queue: seq<CommandId>)
    requires Inv(w) && c in w.calls && w.calls[c] == Done(Swept(scope, queue))
    ensures AttemptsBy(w.store.log, c) == queue && Distinct(queue)
  {
    assert CallInv(w.calls[c], w.store) && AttemptsBy(w.store.log, c) == Attempted(w.calls[c]);
  }
}
