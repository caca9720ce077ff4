/**
 * How long a refresh takes, read off the run: the time that passes while its call stands at each of its statements.
 *
 * From there: the wait begins as late after the expiry was computed as the statements in between took, and a refresh
 * that times out lasts 15 s plus whatever came before the wait and whatever its last turn overran.
 */
module CommandDurations {
  import opened Devices
  import opened Mqtt
  import opened CommandStore
  import opened CommandCalls
  import opened CommandProtocol
  import opened CommandTiming

  /** The time a refresh spends at the check (until the clock is read for the expiry), at the insert, at the publication,
      at `markSent`, before the deadline is set, in the polling loop and its giving up, and giving up at once for want of
      a broker. */
  datatype Times = Times(checking: nat, inserting: nat, publishing: nat, marking: nat, starting: nat, polling: nat,
                         abandoning: nat)

  const NO_TIME := Times(0, 0, 0, 0, 0, 0, 0)

  function Total(t: Times): nat {
    t.checking + SinceStamp(t) + t.polling + t.abandoning
  }

  /** From the insert to the reading of the clock that sets the deadline. */
  function BeforeWait(t: Times): nat {
    t.publishing + t.marking + t.starting
  }

  /** From the reading of the clock that sets the expiry to the one that sets the deadline. */
  function SinceStamp(t: Times): nat {
    t.inserting + BeforeWait(t)
  }

  function Longer(t: Times, call: Call, ms: nat): Times {
    match call
    case RefreshCheck(_) => t.(checking := t.checking + ms)
    case RefreshStamp(_) => t.(checking := t.checking + ms)
    case RefreshInsert(_, _) => t.(inserting := t.inserting + ms)
    case RefreshPublish(_) => t.(publishing := t.publishing + ms)
    case RefreshMark(_) => t.(marking := t.marking + ms)
    case RefreshWait(_) => t.(starting := t.starting + ms)
    case RefreshRead(_, _) => t.(polling := t.polling + ms)
    case RefreshPause(_, _) => t.(polling := t.polling + ms)
    case RefreshGiveUp(_) => t.(polling := t.polling + ms)
    case RefreshAbandon(_) => t.(abandoning := t.abandoning + ms)
    case _ => t
  }

  function TickOf(e: Event): nat {
    match e
    case Tick(ms) => ms
    case _ => 0
  }

  /** What call `c` spent where, over the run of `actions` from `w`. */
  function TimesOf(w: World, actions: seq<Action>, c: CallId): Times {
    if actions == [] then NO_TIME
    else
      var before, a := RunWorld(w, actions[..|actions| - 1]), actions[|actions| - 1];
      var t := TimesOf(w, actions[..|actions| - 1], c);
      if c in before.calls then Longer(t, before.calls[c], TickOf(Effect(before, a))) else t
  }

  // ----- the clock, the creation, the deadline -----

  /** The refreshed command, while there is one, was created `ago`; its expiry was computed before the insert. */
  predicate CreatedAgo(s: Store, id: CommandId, t: Times, ago: nat) {
    id in s.commands ==>
      && s.commands[id].createdAt + ago == s.now
      && s.commands[id].expiresAt + t.inserting + ago == s.now + REFRESH_TTL_MS
  }

  /** The deadline, against the clock, the creation of the command and its expiry. */
  predicate DeadlineSet(s: Store, id: CommandId, deadline: Instant, t: Times) {
    && deadline + t.polling == s.now + REFRESH_TIMEOUT_MS
    && (id in s.commands ==>
          && deadline == s.commands[id].createdAt + BeforeWait(t) + REFRESH_TIMEOUT_MS
          && deadline + REFRESH_TTL_MS == s.commands[id].expiresAt + SinceStamp(t) + REFRESH_TIMEOUT_MS)
  }

  /** A refresh that began at `began` stands at `call` after spending `t`. */
  predicate Timed(t: Times, call: Call, s: Store, began: Instant) {
    && (!call.Done? ==> s.now == began + Total(t))
    && (!call.RefreshAbandon? && !(call.Done? && !call.outcome.TimedOut?) ==> t.abandoning == 0)
    && match call
       case RefreshCheck(_) => t == NO_TIME.(checking := t.checking)
       case RefreshStamp(_) => t == NO_TIME.(checking := t.checking)
       case RefreshInsert(_, expiresAt) =>
         BeforeWait(t) == 0 && t.polling == 0 && expiresAt + t.inserting == s.now + REFRESH_TTL_MS
       case RefreshPublish(id) => BeforeWait(t) == t.publishing && t.polling == 0 && CreatedAgo(s, id, t, t.publishing)
       case RefreshMark(id) => t.starting == 0 && t.polling == 0 && CreatedAgo(s, id, t, t.publishing + t.marking)
       case RefreshWait(id) => t.polling == 0 && CreatedAgo(s, id, t, BeforeWait(t))
       case RefreshRead(id, deadline) => DeadlineSet(s, id, deadline, t)
       case RefreshPause(id, deadline) => DeadlineSet(s, id, deadline, t)
       case RefreshGiveUp(_) => t.polling >= REFRESH_TIMEOUT_MS
       case RefreshAbandon(_) => true
       case Done(outcome) => outcome.TimedOut? ==> t.polling >= REFRESH_TIMEOUT_MS
       case _ => false
  }

  lemma CreationStays(s: Store, e: Event, id: CommandId)
    requires id in s.issued
    ensures id in Apply(s, e).commands ==>
              && id in s.commands && Apply(s, e).commands[id].createdAt == s.commands[id].createdAt
              && Apply(s, e).commands[id].expiresAt == s.commands[id].expiresAt
    ensures Apply(s, e).now == s.now + TickOf(e)
  {
  }

  lemma ClockStep(s: Store, e: Event)
    ensures Apply(s, e).now == s.now + TickOf(e)
  {
  }

  /** Others move, or time passes. */
  lemma TimedStays(t: Times, call: Call, s: Store, began: Instant, e: Event)
    requires Timed(t, call, s, began) && CallInv(call, s)
    ensures Timed(Longer(t, call, TickOf(e)), call, Apply(s, e), began)
  {
    ClockStep(s, e);
    if Refreshing(call).Some? {
      CreationStays(s, e, Refreshing(call).value);
    }
  }

  /** The call moves: its statement takes no time. */
  lemma TimedStep(caller: CallId, t: Times, call: Call, s: Store, began: Instant, choice: Choice)
    requires Timed(t, call, s, began) && CallInv(call, s) && Possible(call, s, choice)
    ensures TickOf(EventOf(caller, call, choice)) == 0
    ensures Timed(t, NextCall(call, s, choice), Apply(s, EventOf(caller, call, choice)), began)
  {
    var e := EventOf(caller, call, choice);
    ClockStep(s, e);
    if Refreshing(call).Some? {
      CreationStays(s, e, Refreshing(call).value);
    }
  }

  lemma TimesGrow(w: World, actions: seq<Action>, c: CallId)
    requires actions != []
    ensures var before, a := RunWorld(w, actions[..|actions| - 1]), actions[|actions| - 1];
            && RunWorld(w, actions) == Step(before, a)
            && TimesOf(w, actions, c)
               == var t := TimesOf(w, actions[..|actions| - 1], c);
                  if c in before.calls then Longer(t, before.calls[c], TickOf(Effect(before, a))) else t
  {
  }

  lemma TimedMove(w: World, a: Action, c: CallId, t: Times, began: Instant)
    requires Inv(w) && c in w.calls && Timed(t, w.calls[c], w.store, began)
    ensures var after := Step(w, a);
            && c in after.calls
            && Timed(Longer(t, w.calls[c], TickOf(Effect(w, a))), after.calls[c], after.store, began)
  {
    if a.Resume? && a.caller == c && Possible(w.calls[c], w.store, a.choice) {
      TimedStep(c, t, w.calls[c], w.store, began, a.choice);
    } else {
      ActorOnly(w, a, c);
      TimedStays(t, w.calls[c], w.store, began, Effect(w, a));
    }
  }

  lemma {:induction false} RefreshIsTimed(w: World, actions: seq<Action>, c: CallId, deviceId: DeviceId)
    requires Inv(w) && c in w.calls && w.calls[c] == RefreshCheck(deviceId)
    ensures var after := RunWorld(w, actions);
            && Inv(after) && c in after.calls
            && Timed(TimesOf(w, actions, c), after.calls[c], after.store, w.store.now)
  {
    if actions != [] {
      var before, a := RunWorld(w, actions[..|actions| - 1]), actions[|actions| - 1];
      RefreshIsTimed(w, actions[..|actions| - 1], c, deviceId);
      StepKeepsInv(before, a);
      TimesGrow(w, actions, c);
      TimedMove(before, a, c, TimesOf(w, actions[..|actions| - 1], c), w.store.now);
    }
  }

  /** Until it is done, a refresh has lasted what it spent. */
  lemma ClockFollows(w: World, actions: seq<Action>, c: CallId, deviceId: DeviceId)
    requires Inv(w) && c in w.calls && w.calls[c] == RefreshCheck(deviceId)
    ensures var after := RunWorld(w, actions);
            c in after.calls && (!after.calls[c].Done? ==> after.store.now == w.store.now + Total(TimesOf(w, actions, c)))
  {
    RefreshIsTimed(w, actions, c, deviceId);
  }

  /** Call `c` has just begun to refresh the device, in a state reached from a boot. */
  predicate JustAsked(boot: World, before: seq<Action>, c: CallId, deviceId: DeviceId) {
    Boot(boot) && c in RunWorld(boot, before).calls && RunWorld(boot, before).calls[c] == RefreshCheck(deviceId)
  }

  /** The run goes on until call `c` waits for the answer to a command that still exists. */
  predicate Waits(w: World, c: CallId) {
    && c in w.calls && Refreshing(w.calls[c]).Some? && Deadline(w.calls[c]).Some?
    && Refreshing(w.calls[c]).value in w.store.commands
  }

  /** The wait begins exactly as late as the statements before it took, and its deadline comes after the expiry exactly
      when, from the reading of the clock that set the expiry, they took more than 5 s, the insert included; while it does
      not, the command cannot expire under it. */
  lemma WaitFollowsItsStatements(boot: World, before: seq<Action>, more: seq<Action>, c: CallId, deviceId: DeviceId)
    requires JustAsked(boot, before, c, deviceId) && Waits(RunWorld(RunWorld(boot, before), more), c)
    ensures var w, t := RunWorld(RunWorld(boot, before), more), TimesOf(RunWorld(boot, before), more, c);
            var row, deadline := w.store.commands[Refreshing(w.calls[c]).value], Deadline(w.calls[c]).value;
            && deadline == row.createdAt + BeforeWait(t) + REFRESH_TIMEOUT_MS
            && (SinceStamp(t) <= REFRESH_TTL_MS - REFRESH_TIMEOUT_MS <==> deadline <= row.expiresAt)
            && (deadline <= row.expiresAt && w.store.now < deadline ==> row.status != Expired)
  {
    var w := RunWorld(RunWorld(boot, before), more);
    ReachableInv(boot, before);
    RefreshIsTimed(RunWorld(boot, before), more, c, deviceId);
    RunWorldConcat(boot, before, more);
    WaitIsNotCutShort(boot, before + more, c, Refreshing(w.calls[c]).value);
  }

  /** A store that answers at once and a publication that keeps its bound: the wait is never cut short. */
  lemma PublicationLeavesTimeToWait(boot: World, before: seq<Action>, more: seq<Action>, c: CallId, deviceId: DeviceId)
    requires JustAsked(boot, before, c, deviceId) && Waits(RunWorld(RunWorld(boot, before), more), c)
    requires var t := TimesOf(RunWorld(boot, before), more, c);
             t.inserting == 0 && t.marking == 0 && t.starting == 0 && t.publishing <= PUBLISH_TIMEOUT_MS
    ensures var w := RunWorld(RunWorld(boot, before), more);
            var row, deadline := w.store.commands[Refreshing(w.calls[c]).value], Deadline(w.calls[c]).value;
            deadline <= row.expiresAt && (w.store.now < deadline ==> row.status != Expired)
  {
    WaitFollowsItsStatements(boot, before, more, c, deviceId);
  }

  // ----- the duration -----

  lemma DoneIsOver(w: World, a: Action, c: CallId, t: Times)
    requires c in w.calls && w.calls[c].Done?
    ensures c in Step(w, a).calls && Step(w, a).calls[c] == w.calls[c]
    ensures Longer(t, w.calls[c], TickOf(Effect(w, a))) == t
  {
  }

  /** The step that ends a call takes no time. */
  lemma EndTakesNoTime(w: World, a: Action, c: CallId, t: Times)
    requires c in w.calls && !w.calls[c].Done? && c in Step(w, a).calls && Step(w, a).calls[c].Done?
    ensures Longer(t, w.calls[c], TickOf(Effect(w, a))) == t && Step(w, a).store.now == w.store.now
  {
    ClockStep(w.store, Effect(w, a));
  }

  /** `end` is where the call ends, after spending `t`. */
  predicate EndsAfter(last: World, end: World, c: CallId, outcome: Outcome, began: Instant, t: Times) {
    && c in last.calls && !last.calls[c].Done? && c in end.calls && end.calls[c] == Done(outcome)
    && end.store.now == began + Total(t)
  }

  /** From its first statement to the one it ends with, a refresh lasts what it spent at each. */
  lemma {:induction false} RefreshLasts(w: World, actions: seq<Action>, c: CallId, deviceId: DeviceId) returns (n: nat)
    requires Inv(w) && c in w.calls && w.calls[c] == RefreshCheck(deviceId)
    requires c in RunWorld(w, actions).calls && RunWorld(w, actions).calls[c].Done?
    ensures 0 < n <= |actions|
    ensures EndsAfter(RunWorld(w, actions[..n - 1]), RunWorld(w, actions[..n]), c, RunWorld(w, actions).calls[c].outcome,
                      w.store.now, TimesOf(w, actions, c))
  {
    var before, a := actions[..|actions| - 1], actions[|actions| - 1];
    ClockFollows(w, before, c, deviceId);
    TimesGrow(w, actions, c);
    var last, t := RunWorld(w, before), TimesOf(w, before, c);
    if last.calls[c].Done? {
      DoneIsOver(last, a, c, t);
      n := RefreshLasts(w, before, c, deviceId);
      assert before[..n] == actions[..n] && before[..n - 1] == actions[..n - 1];
    } else {
      n := |actions|;
      assert actions[..n] == actions && actions[..n - 1] == before;
      EndTakesNoTime(last, a, c, t);
      assert TimesOf(w, actions, c) == t;
    }
  }

  /** A refresh that times out lasts 15 s, what came before its wait, and what its last turn overran: it keeps within
      `REFRESH_TIMEOUT_MS` exactly when nothing before the wait took any time and the last turn fell on the deadline. */
  lemma TimedOutRefreshLasts(boot: World, before: seq<Action>, more: seq<Action>, c: CallId, deviceId: DeviceId)
    returns (n: nat)
    requires JustAsked(boot, before, c, deviceId)
    requires var w := RunWorld(RunWorld(boot, before), more);
             c in w.calls && w.calls[c].Done? && w.calls[c].outcome.TimedOut?
    ensures 0 < n <= |more|
    ensures var asked := RunWorld(boot, before);
            var end, t := RunWorld(asked, more[..n]), TimesOf(asked, more, c);
            && EndsAfter(RunWorld(asked, more[..n - 1]), end, c, RunWorld(asked, more).calls[c].outcome, asked.store.now, t)
            && end.store.now - asked.store.now == t.checking + SinceStamp(t) + t.polling && t.polling >= REFRESH_TIMEOUT_MS
            && (end.store.now - asked.store.now <= REFRESH_TIMEOUT_MS
                <==> t.checking + SinceStamp(t) == 0 && t.polling == REFRESH_TIMEOUT_MS)
  {
    ReachableInv(boot, before);
    RefreshIsTimed(RunWorld(boot, before), more, c, deviceId);
    n := RefreshLasts(RunWorld(boot, before), more, c, deviceId);
  }

  // ----- the duration of a bulk refresh -----

  /** Every call has just begun to refresh its device. */
  predicate AllAsked(w: World, callers: seq<CallId>, ids: seq<DeviceId>)
    requires |callers| == |ids|
  {
    forall i | 0 <= i < |callers| :: callers[i] in w.calls && w.calls[callers[i]] == RefreshCheck(ids[i])
  }

  predicate AllDone(w: World, callers: seq<CallId>) {
    forall i | 0 <= i < |callers| :: callers[i] in w.calls && w.calls[callers[i]].Done?
  }

  lemma {:induction false} DoneIsForever(w: World, actions: seq<Action>, c: CallId)
    requires c in w.calls && w.calls[c].Done?
    ensures c in RunWorld(w, actions).calls && RunWorld(w, actions).calls[c].Done?
    ensures RunWorld(w, actions).store.now >= w.store.now
  {
    if actions != [] {
      var before := actions[..|actions| - 1];
      DoneIsForever(w, before, c);
      DoneIsOver(RunWorld(w, before), actions[|actions| - 1], c, NO_TIME);
      ClockStep(RunWorld(w, before).store, Effect(RunWorld(w, before), actions[|actions| - 1]));
    }
  }

  /** A call done after `m` actions is done after more of them, at a later instant. */
  lemma DoneAfter(w: World, actions: seq<Action>, m: nat, n: nat, c: CallId)
    requires m <= n <= |actions| && c in RunWorld(w, actions[..m]).calls && RunWorld(w, actions[..m]).calls[c].Done?
    ensures c in RunWorld(w, actions[..n]).calls && RunWorld(w, actions[..n]).calls[c].Done?
    ensures RunWorld(w, actions[..m]).store.now <= RunWorld(w, actions[..n]).store.now
  {
    RunWorldConcat(w, actions[..m], actions[m..n]);
    assert actions[..n] == actions[..m] + actions[m..n];
    DoneIsForever(RunWorld(w, actions[..m]), actions[m..n], c);
  }

  /** What each call spent in all. */
  function Totals(w: World, actions: seq<Action>, callers: seq<CallId>): seq<nat> {
    seq(|callers|, i requires 0 <= i < |callers| => Total(TimesOf(w, actions, callers[i])))
  }

  predicate IsLongest(totals: seq<nat>, elapsed: int) {
    (forall i | 0 <= i < |totals| :: totals[i] <= elapsed) && exists i :: 0 <= i < |totals| && totals[i] == elapsed
  }

  lemma LongestOfMore(totals: seq<nat>, elapsed: int, more: nat)
    requires IsLongest(totals, elapsed)
    ensures IsLongest(totals + [more], if more <= elapsed then elapsed else more)
  {
    var i :| 0 <= i < |totals| && totals[i] == elapsed;
    assert (totals + [more])[i] == elapsed && (totals + [more])[|totals|] == more;
  }

  /** Action `n` ends the last of the calls. */
  predicate EndsTheLast(w: World, actions: seq<Action>, callers: seq<CallId>, n: nat) {
    && 0 < n <= |actions|
    && AllDone(RunWorld(w, actions[..n]), callers) && !AllDone(RunWorld(w, actions[..n - 1]), callers)
    && IsLongest(Totals(w, actions, callers), RunWorld(w, actions[..n]).store.now - w.store.now)
  }

  /** Call `c` ends with action `k`, after all it spent. */
  predicate EndsWith(w: World, actions: seq<Action>, c: CallId, k: nat) {
    && 0 < k <= |actions|
    && c in RunWorld(w, actions[..k - 1]).calls && !RunWorld(w, actions[..k - 1]).calls[c].Done?
    && c in RunWorld(w, actions[..k]).calls && RunWorld(w, actions[..k]).calls[c].Done?
    && RunWorld(w, actions[..k]).store.now == w.store.now + Total(TimesOf(w, actions, c))
  }

  /** The calls run in parallel: together they take as long as the longest. */
  lemma {:induction false} ParallelCallsLast(w: World, actions: seq<Action>, callers: seq<CallId>, ends: seq<nat>)
    returns (n: nat)
    requires 0 < |callers| == |ends| && forall i | 0 <= i < |callers| :: EndsWith(w, actions, callers[i], ends[i])
    ensures EndsTheLast(w, actions, callers, n)
    decreases |callers|
  {
    var last := |callers| - 1;
    var others, c := callers[..last], callers[last];
    assert callers == others + [c];
    if others == [] {
      n := ends[0];
      OneCaller(w, actions, c, n);
    } else {
      var m := ParallelCallsLast(w, actions, others, ends[..last]);
      n := OneMoreCaller(w, actions, others, c, m, ends[last]);
    }
  }

  /** The action each refresh ends with. */
  lemma {:induction false} RefreshesEnd(w: World, actions: seq<Action>, callers: seq<CallId>, ids: seq<DeviceId>)
    returns (ends: seq<nat>)
    requires Inv(w) && |callers| == |ids| && AllAsked(w, callers, ids) && AllDone(RunWorld(w, actions), callers)
    ensures |ends| == |callers| && forall i | 0 <= i < |callers| :: EndsWith(w, actions, callers[i], ends[i])
    decreases |callers|
  {
    if callers == [] {
      ends := [];
    } else {
      var last := |callers| - 1;
      ends := RefreshesEnd(w, actions, callers[..last], ids[..last]);
      var k := RefreshEnds(w, actions, callers[last], ids[last]);
      ends := ends + [k];
    }
  }

  lemma RefreshEnds(w: World, actions: seq<Action>, c: CallId, deviceId: DeviceId) returns (k: nat)
    requires Inv(w) && c in w.calls && w.calls[c] == RefreshCheck(deviceId)
    requires c in RunWorld(w, actions).calls && RunWorld(w, actions).calls[c].Done?
    ensures EndsWith(w, actions, c, k)
  {
    k := RefreshLasts(w, actions, c, deviceId);
  }

  lemma OneCaller(w: World, actions: seq<Action>, c: CallId, k: nat)
    requires EndsWith(w, actions, c, k)
    ensures EndsTheLast(w, actions, [c], k)
  {
    assert Totals(w, actions, [c])[0] == Total(TimesOf(w, actions, c));
    assert !AllDone(RunWorld(w, actions[..k - 1]), [c]) by {
      assert [c][0] == c;
    }
  }

  lemma AllDoneSnoc(w: World, callers: seq<CallId>, c: CallId)
    ensures AllDone(w, callers + [c]) <==> AllDone(w, callers) && c in w.calls && w.calls[c].Done?
  {
    if AllDone(w, callers + [c]) {
      assert (callers + [c])[|callers|] == c;
      forall i | 0 <= i < |callers| ensures callers[i] in w.calls && w.calls[callers[i]].Done? {
        assert (callers + [c])[i] == callers[i];
      }
    }
  }

  lemma {:induction false} AllDoneAfter(w: World, actions: seq<Action>, m: nat, n: nat, callers: seq<CallId>)
    requires m <= n <= |actions| && AllDone(RunWorld(w, actions[..m]), callers)
    ensures AllDone(RunWorld(w, actions[..n]), callers)
  {
    forall i | 0 <= i < |callers|
      ensures callers[i] in RunWorld(w, actions[..n]).calls && RunWorld(w, actions[..n]).calls[callers[i]].Done?
    {
      DoneAfter(w, actions, m, n, callers[i]);
    }
  }

  lemma OneMoreCaller(w: World, actions: seq<Action>, others: seq<CallId>, c: CallId, m: nat, k: nat) returns (n: nat)
    requires others != [] && EndsTheLast(w, actions, others, m) && EndsWith(w, actions, c, k)
    ensures EndsTheLast(w, actions, others + [c], n)
  {
    n := if k <= m then m else k;
    LastOfBoth(w, actions, others, c, m, k);
    LongestOfBoth(w, actions, others, c, m, k);
  }

  lemma LastOfBoth(w: World, actions: seq<Action>, others: seq<CallId>, c: CallId, m: nat, k: nat)
    requires EndsTheLast(w, actions, others, m) && EndsWith(w, actions, c, k)
    ensures var n := if k <= m then m else k;
            AllDone(RunWorld(w, actions[..n]), others + [c]) && !AllDone(RunWorld(w, actions[..n - 1]), others + [c])
  {
    if k <= m {
      DoneAfter(w, actions, k, m, c);
      AllDoneSnoc(RunWorld(w, actions[..m]), others, c);
      AllDoneSnoc(RunWorld(w, actions[..m - 1]), others, c);
    } else {
      AllDoneAfter(w, actions, m, k, others);
      AllDoneSnoc(RunWorld(w, actions[..k]), others, c);
      AllDoneSnoc(RunWorld(w, actions[..k - 1]), others, c);
    }
  }

  lemma LongestOfBoth(w: World, actions: seq<Action>, others: seq<CallId>, c: CallId, m: nat, k: nat)
    requires others != [] && EndsTheLast(w, actions, others, m) && EndsWith(w, actions, c, k)
    ensures var n := if k <= m then m else k;
            IsLongest(Totals(w, actions, others + [c]), RunWorld(w, actions[..n]).store.now - w.store.now)
  {
    if k <= m {
      DoneAfter(w, actions, k, m, c);
    } else {
      DoneAfter(w, actions, m, k, others[0]);
    }
    LongestOfMore(Totals(w, actions, others), RunWorld(w, actions[..m]).store.now - w.store.now, Total(TimesOf(w, actions, c)));
    TotalsSnoc(w, actions, others, c);
  }

  lemma TotalsSnoc(w: World, actions: seq<Action>, others: seq<CallId>, c: CallId)
    ensures Totals(w, actions, others + [c]) == Totals(w, actions, others) + [Total(TimesOf(w, actions, c))]
  {
  }

  /** A bulk refresh lasts as long as the slowest of its refreshes, whatever their outcomes: it keeps within
      `REFRESH_TIMEOUT_MS` exactly when all each spent, from its check to its last statement, adds up to no more. For one
      that times out that leaves nothing but the polling. */
  lemma BulkRefreshLasts(boot: World, before: seq<Action>, more: seq<Action>, callers: seq<CallId>, ids: seq<DeviceId>)
    returns (n: nat)
    requires Boot(boot) && 0 < |callers| == |ids| && AllAsked(RunWorld(boot, before), callers, ids)
    requires AllDone(RunWorld(RunWorld(boot, before), more), callers)
    ensures var asked := RunWorld(boot, before);
            var spent := Totals(asked, more, callers);
            && EndsTheLast(asked, more, callers, n)
            && (RunWorld(asked, more[..n]).store.now - asked.store.now <= REFRESH_TIMEOUT_MS
                <==> forall i | 0 <= i < |spent| :: spent[i] <= REFRESH_TIMEOUT_MS)
    ensures var asked := RunWorld(boot, before);
            forall i | 0 <= i < |callers| && RunWorld(asked, more).calls[callers[i]].outcome.TimedOut? ::
              TimesOf(asked, more, callers[i]).polling >= REFRESH_TIMEOUT_MS
  {
    var asked := RunWorld(boot, before);
    ReachableInv(boot, before);
    var ends := RefreshesEnd(asked, more, callers, ids);
    n := ParallelCallsLast(asked, more, callers, ends);
    forall i | 0 <= i < |callers| && RunWorld(asked, more).calls[callers[i]].outcome.TimedOut?
      ensures TimesOf(asked, more, callers[i]).polling >= REFRESH_TIMEOUT_MS
    {
      RefreshIsTimed(asked, more, callers[i], ids[i]);
    }
  }
}
