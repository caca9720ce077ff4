/** Time in the refresh: the wait for an answer against the command's own expiry. */
module CommandTiming {
  import opened Wrappers
  import opened Devices
  import opened CommandStore
  import opened CommandCalls
  import opened CommandProtocol

  /** The deadline of a call that polls. */
  function Deadline(call: Call): Option<Instant> {
    match call
    case RefreshRead(_, deadline) => Some(deadline)
    case RefreshPause(_, deadline) => Some(deadline)
    case _ => None
  }

  /** A refresh under way: nothing but its own run-out expiry has expired its command. */
  predicate RefreshInv(call: Call, s: Store) {
    && (call.RefreshInsert? ==> call.expiresAt <= s.now + REFRESH_TTL_MS)
    && (Refreshing(call).Some? && Refreshing(call).value in s.commands ==>
          var row := s.commands[Refreshing(call).value];
          && row.createdAt <= s.now
          && row.expiresAt <= row.createdAt + REFRESH_TTL_MS
          && (row.status == Expired ==> row.expiresAt <= s.now)
          && (Deadline(call).Some? ==>
                row.createdAt + REFRESH_TIMEOUT_MS <= Deadline(call).value <= s.now + REFRESH_TIMEOUT_MS))
  }

  /** No two calls work on the same refresh command. */
  ghost predicate OneOwner(w: World) {
    forall c, d | c in w.calls && d in w.calls && Refreshing(w.calls[c]).Some?
                  && Refreshing(w.calls[c]) == Refreshing(w.calls[d]) :: c == d
  }

  ghost predicate TimingInv(w: World) {
    OneOwner(w) && forall c | c in w.calls :: RefreshInv(w.calls[c], w.store)
  }

  /** A step leaves the command a call refreshes, or starts to refresh one never issued before. */
  lemma OwnershipStep(w: World, a: Action, c: CallId)
    requires Inv(w) && c in Step(w, a).calls && Refreshing(Step(w, a).calls[c]).Some?
    ensures var id := Refreshing(Step(w, a).calls[c]).value;
            || (c in w.calls && Refreshing(w.calls[c]) == Some(id) && id in w.store.issued)
            || (id !in w.store.issued && a.Resume? && a.caller == c)
  {
    if c in w.calls {
      assert CallInv(w.calls[c], w.store);
      if a.Resume? && a.caller == c && Possible(w.calls[c], w.store, a.choice) {
        CallOwnership(w.calls[c], w.store, a.choice);
      } else {
        ActorOnly(w, a, c);
      }
    }
  }

  lemma CallOwnership(call: Call, s: Store, choice: Choice)
    requires CallInv(call, s) && Possible(call, s, choice) && Refreshing(NextCall(call, s, choice)).Some?
    ensures var id := Refreshing(NextCall(call, s, choice)).value;
            (Refreshing(call) == Some(id) && id in s.issued) || id !in s.issued
  {
  }

  lemma OneOwnerStep(w: World, a: Action)
    requires Inv(w) && OneOwner(w)
    ensures OneOwner(Step(w, a))
  {
    var w' := Step(w, a);
    forall c, d | c in w'.calls && d in w'.calls && Refreshing(w'.calls[c]).Some?
                  && Refreshing(w'.calls[c]) == Refreshing(w'.calls[d])
      ensures c == d
    {
      OwnershipStep(w, a, c);
      OwnershipStep(w, a, d);
    }
  }

  /** Another call's statement cannot give up on the command `call` refreshes. */
  lemma RefreshIsStable(call: Call, s: Store, e: Event)
    requires CallInv(call, s) && RefreshInv(call, s) && StoreInv(s)
    requires Refreshing(call).Some? ==> e != Expire(Refreshing(call).value)
    ensures RefreshInv(call, Apply(s, e))
  {
  }

  lemma RefreshStep(caller: CallId, call: Call, s: Store, choice: Choice)
    requires CallInv(call, s) && RefreshInv(call, s) && StoreInv(s) && Possible(call, s, choice)
    ensures RefreshInv(NextCall(call, s, choice), Apply(s, EventOf(caller, call, choice)))
  {
    var e := EventOf(caller, call, choice);
    if call.RefreshInsert? {
      RefreshBegins(caller, call, s, choice);
    } else if Refreshing(call).None? || e == Expire(Refreshing(call).value) {
      NotRefreshing(caller, call, s, choice);
    } else {
      RefreshIsStable(call, s, e);
      DeadlineStep(caller, call, s, choice);
    }
  }

  /** A call that refreshes nothing, or gives up, works on no refresh afterwards. */
  lemma NotRefreshing(caller: CallId, call: Call, s: Store, choice: Choice)
    requires Refreshing(call).None? || EventOf(caller, call, choice) == Expire(Refreshing(call).value)
    requires !call.RefreshInsert?
    ensures Refreshing(NextCall(call, s, choice)).None?
  {
  }

  lemma RefreshBegins(caller: CallId, call: Call, s: Store, choice: Choice)
    requires call.RefreshInsert? && RefreshInv(call, s) && Possible(call, s, choice)
    ensures RefreshInv(NextCall(call, s, choice), Apply(s, EventOf(caller, call, choice)))
  {
  }

  /** The deadline is set from the clock of the step that sets it, and kept. */
  lemma DeadlineStep(caller: CallId, call: Call, s: Store, choice: Choice)
    requires Refreshing(call).Some?
    ensures var next := NextCall(call, s, choice);
            Refreshing(next).Some? ==>
              && Refreshing(next) == Refreshing(call)
              && (Deadline(next).Some? ==> Deadline(next) == Deadline(call) || Deadline(next).value == s.now + REFRESH_TIMEOUT_MS)
  {
  }

  lemma OnlyTheOwnerGivesUp(w: World, a: Action, c: CallId)
    requires OneOwner(w) && c in w.calls && Refreshing(w.calls[c]).Some?
    requires Effect(w, a) == Expire(Refreshing(w.calls[c]).value)
    ensures a.Resume? && a.caller == c && Possible(w.calls[c], w.store, a.choice)
  {
    assert Refreshing(w.calls[a.caller]) == Refreshing(w.calls[c]);
  }

  lemma TimingStep(w: World, a: Action, c: CallId)
    requires Inv(w) && TimingInv(w) && c in Step(w, a).calls
    ensures RefreshInv(Step(w, a).calls[c], Step(w, a).store)
  {
    if a.Resume? && a.caller == c && Possible(w.calls[c], w.store, a.choice) {
      RefreshStep(c, w.calls[c], w.store, a.choice);
    } else if c in w.calls {
      ActorOnly(w, a, c);
      if Refreshing(w.calls[c]).Some? && Effect(w, a) == Expire(Refreshing(w.calls[c]).value) {
        OnlyTheOwnerGivesUp(w, a, c);
      }
      RefreshIsStable(w.calls[c], w.store, Effect(w, a));
    }
  }

  lemma {:induction false} ReachableTiming(w: World, actions: seq<Action>)
    requires Boot(w)
    ensures TimingInv(RunWorld(w, actions))
  {
    if actions != [] {
      var before := RunWorld(w, actions[..|actions| - 1]);
      var a := actions[|actions| - 1];
      ReachableTiming(w, actions[..|actions| - 1]);
      ReachableInv(w, actions[..|actions| - 1]);
      OneOwnerStep(before, a);
      forall c | c in Step(before, a).calls ensures RefreshInv(Step(before, a).calls[c], Step(before, a).store) {
        TimingStep(before, a, c);
      }
    }
  }

  /** While a refresh waits, its command cannot expire under it before the deadline, provided the deadline comes no later
      than the expiry; for that the wait has to begin at most 5 s after the command was created
      (`CommandDurations.WaitFollowsItsStatements` says exactly when it is so). */
  lemma WaitIsNotCutShort(boot: World, actions: seq<Action>, c: CallId, id: CommandId)
    requires Boot(boot)
    requires var w := RunWorld(boot, actions);
             c in w.calls && Refreshing(w.calls[c]) == Some(id) && Deadline(w.calls[c]).Some? && id in w.store.commands
    ensures var w := RunWorld(boot, actions);
            var row := w.store.commands[id];
            var deadline := Deadline(w.calls[c]).value;
            var waitBegan := deadline - REFRESH_TIMEOUT_MS;
            && (deadline <= row.expiresAt ==> waitBegan - row.createdAt <= REFRESH_TTL_MS - REFRESH_TIMEOUT_MS)
            && (deadline <= row.expiresAt && w.store.now < deadline ==> row.status != Expired)
  {
    ReachableTiming(boot, actions);
  }

  lemma UnusedCall(calls: set<CallId>) returns (k: CallId)
    ensures k !in calls
    ensures forall c | c in calls :: c < k
    decreases |calls|
  {
    if calls == {} {
      k := 0;
    } else {
      var d :| d in calls;
      var j := UnusedCall(calls - {d});
      k := if j > d then j else d + 1;
      forall c | c in calls ensures c < k {
        assert c == d || c in calls - {d};
      }
    }
  }

  lemma ThreeSteps(w: World, a: Action, b: Action, c: Action)
    ensures RunWorld(w, [a] + [b] + [c]) == Step(Step(Step(w, a), b), c)
  {
    assert ([a] + [b] + [c])[..2] == [a] + [b] && ([a] + [b])[..1] == [a];
    assert RunWorld(w, [a]) == Step(w, a);
  }

  /** Until the command of an unanswered refresh runs out. */
  function Remaining(s: Store, id: CommandId): nat
    requires id in s.commands
  {
    if s.commands[id].expiresAt > s.now then s.commands[id].expiresAt - s.now else 0
  }

  lemma FlushExpires(w: World, id: CommandId, flush: CallId)
    requires id in w.store.commands && w.store.commands[id].status in {Pending, Sent} && flush !in w.calls
    ensures var waited := Step(w, Outside(Tick(Remaining(w.store, id))));
            var later := Step(Step(waited, Start(flush, Reconnected)), Resume(flush, Choice(0, false, [])));
            && later.calls == w.calls[flush := SweepFind(None)] && later.store.now == w.store.now + Remaining(w.store, id)
            && later.store.commands == WithoutOverdue(w.store.commands, None, later.store.now)
  {
    var begun := Step(Step(w, Outside(Tick(Remaining(w.store, id)))), Start(flush, Reconnected));
    assert begun.calls == w.calls[flush := SweepExpire(None)];
  }

  /** The bound is needed: an unanswered command that runs out before its deadline can expire while it is waited for,
      by time passing and one flush. */
  lemma LateWaitCanBeCutShort(boot: World, actions: seq<Action>, c: CallId, id: CommandId) returns (more: seq<Action>)
    requires var w := RunWorld(boot, actions);
             && c in w.calls && Deadline(w.calls[c]).Some? && id in w.store.commands
             && w.store.commands[id].status in {Pending, Sent}
             && w.store.commands[id].expiresAt < Deadline(w.calls[c]).value && w.store.now < Deadline(w.calls[c]).value
    ensures var w, later := RunWorld(boot, actions), RunWorld(boot, actions + more);
            && c in later.calls && later.calls[c] == w.calls[c] && later.store.now < Deadline(w.calls[c]).value
            && id in later.store.commands && later.store.commands[id].status == Expired
  {
    var w := RunWorld(boot, actions);
    var flush := UnusedCall(w.calls.Keys);
    var wait, begin, sweep := Outside(Tick(Remaining(w.store, id))), Start(flush, Reconnected), Resume(flush, Choice(0, false, []));
    more := [wait] + [begin] + [sweep];
    RunWorldConcat(boot, actions, more);
    ThreeSteps(w, wait, begin, sweep);
    FlushExpires(w, id, flush);
  }
}
