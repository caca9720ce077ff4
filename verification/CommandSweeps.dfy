/**
 * A redelivery or a flush from start to end with no other call running, under any pattern of publish failures: the rows and
 * the log it leaves. Time passes between its statements as it does in a run; a failed publication alone may take 5 s.
 */
module CommandSweeps {
  import opened Wrappers
  import opened Devices
  import opened CommandStore
  import opened CommandCalls

  /** How one turn of the loop goes: what the broker answers after how long, and how long until `markSent` takes effect. */
  datatype Delivery = Delivery(confirmed: bool, publication: nat, recording: nat)

  const ANY: Choice := Choice(0, false, [])

  function Took(deliveries: seq<Delivery>): nat {
    if deliveries == [] then 0
    else
      var last := deliveries[|deliveries| - 1];
      Took(deliveries[..|deliveries| - 1]) + last.publication + if last.confirmed then last.recording else 0
  }

  /** How long after the first turn begins turn `i` is over. */
  function TurnOver(deliveries: seq<Delivery>, i: nat): nat
    requires i < |deliveries|
  {
    Took(deliveries[..i + 1])
  }

  function AttemptsOf(c: CallId, ids: seq<CommandId>, deliveries: seq<Delivery>): seq<Attempt>
    requires |deliveries| <= |ids|
  {
    seq(|deliveries|, i requires 0 <= i < |deliveries| => Attempt(c, ids[i], deliveries[i].confirmed))
  }

  /** The rows after these turns, the first of which begins at `now`. */
  function Marked(commands: CommandTable, ids: seq<CommandId>, deliveries: seq<Delivery>, now: Instant): CommandTable
    requires |deliveries| <= |ids|
  {
    if deliveries == [] then commands
    else
      var n := |deliveries| - 1;
      OneMarked(Marked(commands, ids, deliveries[..n], now), ids[n], deliveries[n].confirmed, now + Took(deliveries))
  }

  function OneMarked(commands: CommandTable, id: CommandId, confirmed: bool, now: Instant): CommandTable {
    if confirmed && id in commands then commands[id := MarkedSent(commands[id], now)] else commands
  }

  // ----- one turn -----

  function TurnSteps(c: CallId, d: Delivery): seq<Action> {
    [Pause(d.publication)] + [Resume(c, Choice(0, d.confirmed, []))]
    + if d.confirmed then [Pause(d.recording)] + [Resume(c, ANY)] else []
  }

  function AfterTurn(w: World, c: CallId, d: Delivery): World {
    var answered := Step(Step(w, Pause(d.publication)), Resume(c, Choice(0, d.confirmed, [])));
    if d.confirmed then Step(Step(answered, Pause(d.recording)), Resume(c, ANY)) else answered
  }

  lemma TurnRuns(w: World, c: CallId, d: Delivery)
    ensures RunWorld(w, TurnSteps(c, d)) == AfterTurn(w, c, d)
  {
    var pause, publish := Pause(d.publication), Resume(c, Choice(0, d.confirmed, []));
    var rest := if d.confirmed then [Pause(d.recording)] + [Resume(c, ANY)] else [];
    assert TurnSteps(c, d) == [pause] + ([publish] + rest);
    RunFromFront(w, pause, [publish] + rest);
    RunFromFront(Step(w, pause), publish, rest);
    if d.confirmed {
      var answered := Step(Step(w, pause), publish);
      RunFromFront(answered, Pause(d.recording), [Resume(c, ANY)]);
      RunFromFront(Step(answered, Pause(d.recording)), Resume(c, ANY), []);
      assert [Resume(c, ANY)] == [Resume(c, ANY)] + [];
    }
  }

  /** The publication of one turn, logged. */
  function Answered(w: World, c: CallId, scope: Option<DeviceId>, ids: seq<CommandId>, n: nat, d: Delivery): World
    requires n < |ids|
  {
    World(w.store.(now := w.store.now + d.publication, log := w.store.log + [Attempt(c, ids[n], d.confirmed)]),
          w.calls[c := if d.confirmed then SweepMark(scope, ids, n) else SweepPublish(scope, ids, n + 1)])
  }

  lemma TurnPublishes(w: World, c: CallId, scope: Option<DeviceId>, ids: seq<CommandId>, n: nat, d: Delivery)
    requires c in w.calls && w.calls[c] == SweepPublish(scope, ids, n) && n < |ids|
    ensures Step(Step(w, Pause(d.publication)), Resume(c, Choice(0, d.confirmed, []))) == Answered(w, c, scope, ids, n, d)
  {
    Passes(w, d.publication);
    Moves(World(w.store.(now := w.store.now + d.publication), w.calls), c, Choice(0, d.confirmed, []));
  }

  lemma TurnRecords(w: World, c: CallId, scope: Option<DeviceId>, ids: seq<CommandId>, n: nat, ms: nat)
    requires c in w.calls && w.calls[c] == SweepMark(scope, ids, n) && n < |ids|
    ensures Step(Step(w, Pause(ms)), Resume(c, ANY))
         == World(w.store.(now := w.store.now + ms, commands := OneMarked(w.store.commands, ids[n], true, w.store.now + ms)),
                  w.calls[c := SweepPublish(scope, ids, n + 1)])
  {
    Passes(w, ms);
    Moves(World(w.store.(now := w.store.now + ms), w.calls), c, ANY);
  }

  /** What one turn leaves. */
  function Turned(w: World, c: CallId, scope: Option<DeviceId>, ids: seq<CommandId>, n: nat, d: Delivery): World
    requires n < |ids|
  {
    var now := w.store.now + d.publication + if d.confirmed then d.recording else 0;
    World(w.store.(now := now, commands := OneMarked(w.store.commands, ids[n], d.confirmed, now),
                   log := w.store.log + [Attempt(c, ids[n], d.confirmed)]),
          w.calls[c := SweepPublish(scope, ids, n + 1)])
  }

  lemma TurnDelivers(w: World, c: CallId, scope: Option<DeviceId>, ids: seq<CommandId>, n: nat, d: Delivery)
    requires c in w.calls && w.calls[c] == SweepPublish(scope, ids, n) && n < |ids|
    ensures AfterTurn(w, c, d) == Turned(w, c, scope, ids, n, d)
  {
    TurnPublishes(w, c, scope, ids, n, d);
    if d.confirmed {
      var answered := Answered(w, c, scope, ids, n, d);
      TurnRecords(answered, c, scope, ids, n, d.recording);
      assert answered.calls[c := SweepPublish(scope, ids, n + 1)] == w.calls[c := SweepPublish(scope, ids, n + 1)];
    }
  }

  // ----- the loop -----

  function DeliverySteps(c: CallId, deliveries: seq<Delivery>): seq<Action> {
    if deliveries == [] then []
    else DeliverySteps(c, deliveries[..|deliveries| - 1]) + TurnSteps(c, deliveries[|deliveries| - 1])
  }

  /** After some turns: where the sweep stands, and the store. */
  function Delivered(w: World, c: CallId, scope: Option<DeviceId>, ids: seq<CommandId>, deliveries: seq<Delivery>): World
    requires |deliveries| <= |ids|
  {
    World(w.store.(now := w.store.now + Took(deliveries),
                   commands := Marked(w.store.commands, ids, deliveries, w.store.now),
                   log := w.store.log + AttemptsOf(c, ids, deliveries)),
          w.calls[c := SweepPublish(scope, ids, |deliveries|)])
  }

  lemma AttemptsSnoc(log: seq<Attempt>, c: CallId, ids: seq<CommandId>, deliveries: seq<Delivery>)
    requires 0 < |deliveries| <= |ids|
    ensures var n := |deliveries| - 1;
            log + AttemptsOf(c, ids, deliveries)
            == log + AttemptsOf(c, ids, deliveries[..n]) + [Attempt(c, ids[n], deliveries[n].confirmed)]
  {
  }

  lemma OneMoreTurn(w: World, c: CallId, scope: Option<DeviceId>, ids: seq<CommandId>, deliveries: seq<Delivery>)
    requires 0 < |deliveries| <= |ids|
    ensures var n := |deliveries| - 1;
            Turned(Delivered(w, c, scope, ids, deliveries[..n]), c, scope, ids, n, deliveries[n])
            == Delivered(w, c, scope, ids, deliveries)
  {
    var n := |deliveries| - 1;
    AttemptsSnoc(w.store.log, c, ids, deliveries);
    assert w.calls[c := SweepPublish(scope, ids, n)][c := SweepPublish(scope, ids, n + 1)]
        == w.calls[c := SweepPublish(scope, ids, n + 1)];
  }

  lemma {:induction false} DeliverAlone(w: World, c: CallId, scope: Option<DeviceId>, ids: seq<CommandId>,
                                        deliveries: seq<Delivery>)
    requires c in w.calls && w.calls[c] == SweepPublish(scope, ids, 0) && |deliveries| <= |ids|
    ensures RunWorld(w, DeliverySteps(c, deliveries)) == Delivered(w, c, scope, ids, deliveries)
  {
    if deliveries == [] {
      assert w.store.log + AttemptsOf(c, ids, deliveries) == w.store.log;
      assert w.calls[c := SweepPublish(scope, ids, 0)] == w.calls;
    } else {
      var n := |deliveries| - 1;
      DeliverAlone(w, c, scope, ids, deliveries[..n]);
      RunWorldConcat(w, DeliverySteps(c, deliveries[..n]), TurnSteps(c, deliveries[n]));
      TurnRuns(Delivered(w, c, scope, ids, deliveries[..n]), c, deliveries[n]);
      TurnDelivers(Delivered(w, c, scope, ids, deliveries[..n]), c, scope, ids, n, deliveries[n]);
      OneMoreTurn(w, c, scope, ids, deliveries);
    }
  }

  // ----- the whole sweep -----

  /** The store the select finds, `gap` after `expireOverdue`. */
  function Swept(s: Store, scope: Option<DeviceId>, gap: nat): Store {
    s.(commands := WithoutOverdue(s.commands, scope, s.now), now := s.now + gap)
  }

  /** `ids` is an answer the select may give. */
  ghost predicate Lists(s: Store, scope: Option<DeviceId>, gap: nat, ids: seq<CommandId>) {
    IsListing(Swept(s, scope, gap).commands, Selected(Swept(s, scope, gap), scope), ids)
  }

  function ListSteps(c: CallId, gap: nat, ids: seq<CommandId>): seq<Action> {
    [Resume(c, ANY)] + [Pause(gap)] + [Resume(c, Choice(0, false, ids))]
  }

  function SweepSteps(c: CallId, gap: nat, ids: seq<CommandId>, deliveries: seq<Delivery>): seq<Action> {
    ListSteps(c, gap, ids) + DeliverySteps(c, deliveries) + [Resume(c, ANY)]
  }

  lemma ExpireAlone(w: World, c: CallId, scope: Option<DeviceId>)
    requires c in w.calls && w.calls[c] == SweepExpire(scope)
    ensures Step(w, Resume(c, ANY)) == World(Swept(w.store, scope, 0), w.calls[c := SweepFind(scope)])
  {
    Moves(w, c, ANY);
  }

  lemma GapPasses(s: Store, calls: map<CallId, Call>, scope: Option<DeviceId>, gap: nat)
    ensures Step(World(Swept(s, scope, 0), calls), Pause(gap)) == World(Swept(s, scope, gap), calls)
  {
    Passes(World(Swept(s, scope, 0), calls), gap);
  }

  lemma ExpiresThenWaits(w: World, c: CallId, scope: Option<DeviceId>, gap: nat, rest: seq<Action>)
    requires c in w.calls && w.calls[c] == SweepExpire(scope)
    ensures RunWorld(w, [Resume(c, ANY)] + ([Pause(gap)] + rest))
         == RunWorld(World(Swept(w.store, scope, gap), w.calls[c := SweepFind(scope)]), rest)
  {
    RunFromFront(w, Resume(c, ANY), [Pause(gap)] + rest);
    ExpireAlone(w, c, scope);
    RunFromFront(World(Swept(w.store, scope, 0), w.calls[c := SweepFind(scope)]), Pause(gap), rest);
    GapPasses(w.store, w.calls[c := SweepFind(scope)], scope, gap);
  }

  /** The sweep about to publish what the select found. */
  function Listed(w: World, c: CallId, scope: Option<DeviceId>, gap: nat, ids: seq<CommandId>): World {
    World(Swept(w.store, scope, gap), w.calls[c := SweepPublish(scope, ids, 0)])
  }

  lemma ListAlone(w: World, c: CallId, scope: Option<DeviceId>, gap: nat, ids: seq<CommandId>)
    requires c in w.calls && w.calls[c] == SweepExpire(scope)
    requires Lists(w.store, scope, gap, ids)
    ensures RunWorld(w, ListSteps(c, gap, ids)) == Listed(w, c, scope, gap, ids)
  {
    var rest := [Resume(c, Choice(0, false, ids))];
    assert ListSteps(c, gap, ids) == [Resume(c, ANY)] + ([Pause(gap)] + rest);
    ExpiresThenWaits(w, c, scope, gap, rest);
    var finding := w.calls[c := SweepFind(scope)];
    SelectAlone(World(Swept(w.store, scope, gap), finding), c, scope, ids);
    assert finding[c := SweepPublish(scope, ids, 0)] == w.calls[c := SweepPublish(scope, ids, 0)];
  }

  lemma SelectAlone(w: World, c: CallId, scope: Option<DeviceId>, ids: seq<CommandId>)
    requires c in w.calls && w.calls[c] == SweepFind(scope) && IsListing(w.store.commands, Selected(w.store, scope), ids)
    ensures RunWorld(w, [Resume(c, Choice(0, false, ids))]) == World(w.store, w.calls[c := SweepPublish(scope, ids, 0)])
  {
    var a := Resume(c, Choice(0, false, ids));
    RunFromFront(w, a, []);
    assert [a] + [] == [a];
    Moves(w, c, Choice(0, false, ids));
  }

  lemma FinishAlone(w: World, c: CallId, scope: Option<DeviceId>, ids: seq<CommandId>)
    requires c in w.calls && w.calls[c] == SweepPublish(scope, ids, |ids|)
    ensures RunWorld(w, [Resume(c, ANY)]) == World(w.store, w.calls[c := Done(Outcome.Swept(scope, ids))])
  {
    RunFromFront(w, Resume(c, ANY), []);
    assert [Resume(c, ANY)] + [] == [Resume(c, ANY)];
    Moves(w, c, ANY);
  }

  lemma InThreeParts(w: World, a: seq<Action>, b: seq<Action>, c: seq<Action>)
    ensures RunWorld(w, a + b + c) == RunWorld(RunWorld(RunWorld(w, a), b), c)
  {
    RunWorldConcat(w, a + b, c);
    RunWorldConcat(w, a, b);
  }

  lemma SweepRuns(w: World, c: CallId, scope: Option<DeviceId>, gap: nat, ids: seq<CommandId>, deliveries: seq<Delivery>)
    requires c in w.calls && w.calls[c] == SweepExpire(scope) && |deliveries| == |ids|
    requires Lists(w.store, scope, gap, ids)
    ensures var listed := Listed(w, c, scope, gap, ids);
            RunWorld(w, SweepSteps(c, gap, ids, deliveries))
            == World(Delivered(listed, c, scope, ids, deliveries).store, listed.calls[c := Done(Outcome.Swept(scope, ids))])
  {
    InThreeParts(w, ListSteps(c, gap, ids), DeliverySteps(c, deliveries), [Resume(c, ANY)]);
    ListAlone(w, c, scope, gap, ids);
    DeliverThenFinish(Listed(w, c, scope, gap, ids), c, scope, ids, deliveries);
  }

  /** What a sweep leaves. */
  function AfterSweep(w: World, c: CallId, scope: Option<DeviceId>, gap: nat, ids: seq<CommandId>,
                      deliveries: seq<Delivery>): World
    requires |deliveries| == |ids|
  {
    var selected := w.store.now + gap;
    World(w.store.(now := selected + Took(deliveries),
                   commands := Marked(WithoutOverdue(w.store.commands, scope, w.store.now), ids, deliveries, selected),
                   log := w.store.log + AttemptsOf(c, ids, deliveries)),
          w.calls[c := Done(Outcome.Swept(scope, ids))])
  }

  lemma SweepLeaves(w: World, c: CallId, scope: Option<DeviceId>, gap: nat, ids: seq<CommandId>, deliveries: seq<Delivery>)
    requires |deliveries| == |ids|
    ensures var listed := Listed(w, c, scope, gap, ids);
            World(Delivered(listed, c, scope, ids, deliveries).store, listed.calls[c := Done(Outcome.Swept(scope, ids))])
            == AfterSweep(w, c, scope, gap, ids, deliveries)
  {
    assert w.calls[c := SweepPublish(scope, ids, 0)][c := Done(Outcome.Swept(scope, ids))]
        == w.calls[c := Done(Outcome.Swept(scope, ids))];
  }

  /** A sweep from start to end: the rows and the log it leaves, and how long it lasts. */
  lemma SweepAlone(w: World, c: CallId, scope: Option<DeviceId>, gap: nat, ids: seq<CommandId>, deliveries: seq<Delivery>)
    requires c in w.calls && w.calls[c] == SweepExpire(scope) && |deliveries| == |ids|
    requires Lists(w.store, scope, gap, ids)
    ensures RunWorld(w, SweepSteps(c, gap, ids, deliveries)) == AfterSweep(w, c, scope, gap, ids, deliveries)
  {
    SweepRuns(w, c, scope, gap, ids, deliveries);
    SweepLeaves(w, c, scope, gap, ids, deliveries);
  }

  lemma DeliverThenFinish(w: World, c: CallId, scope: Option<DeviceId>, ids: seq<CommandId>, deliveries: seq<Delivery>)
    requires c in w.calls && w.calls[c] == SweepPublish(scope, ids, 0) && |deliveries| == |ids|
    ensures RunWorld(RunWorld(w, DeliverySteps(c, deliveries)), [Resume(c, ANY)])
         == World(Delivered(w, c, scope, ids, deliveries).store, w.calls[c := Done(Outcome.Swept(scope, ids))])
  {
    DeliverAlone(w, c, scope, ids, deliveries);
    var delivered := Delivered(w, c, scope, ids, deliveries);
    FinishAlone(delivered, c, scope, ids);
    assert delivered.calls[c := Done(Outcome.Swept(scope, ids))] == w.calls[c := Done(Outcome.Swept(scope, ids))];
  }

  // ----- row by row -----

  /** `after` is `before`, marked in its turn if the command has one and the broker took it. */
  predicate InItsTurn(before: Command, ids: seq<CommandId>, deliveries: seq<Delivery>, now: Instant, id: CommandId,
                      after: Command)
    requires |deliveries| <= |ids|
  {
    && (forall i | 0 <= i < |deliveries| && ids[i] == id ::
          after == if deliveries[i].confirmed then MarkedSent(before, now + TurnOver(deliveries, i)) else before)
    && ((forall i | 0 <= i < |deliveries| :: ids[i] != id) ==> after == before)
  }

  function OneRowMarked(row: Command, marked: bool, now: Instant): Command {
    if marked then MarkedSent(row, now) else row
  }

  lemma TurnOverOfPrefix(deliveries: seq<Delivery>, n: nat, i: nat)
    requires i < n <= |deliveries|
    ensures TurnOver(deliveries[..n], i) == TurnOver(deliveries, i)
  {
    assert deliveries[..n][..i + 1] == deliveries[..i + 1];
  }

  lemma TurnOfRow(before: Command, ids: seq<CommandId>, deliveries: seq<Delivery>, now: Instant, id: CommandId, row: Command)
    requires 0 < |deliveries| <= |ids| && Distinct(ids)
    requires InItsTurn(before, ids, deliveries[..|deliveries| - 1], now, id, row)
    ensures var n := |deliveries| - 1;
            InItsTurn(before, ids, deliveries, now, id,
                      OneRowMarked(row, deliveries[n].confirmed && ids[n] == id, now + TurnOver(deliveries, n)))
  {
    var n := |deliveries| - 1;
    var after := OneRowMarked(row, deliveries[n].confirmed && ids[n] == id, now + TurnOver(deliveries, n));
    forall i | 0 <= i < |deliveries| && ids[i] == id
      ensures after == if deliveries[i].confirmed then MarkedSent(before, now + TurnOver(deliveries, i)) else before
    {
      if i < n {
        assert ids[n] != id && deliveries[..n][i] == deliveries[i];
        TurnOverOfPrefix(deliveries, n, i);
      } else {
        assert row == before;
      }
    }
  }

  /** A confirmed command is marked in its turn; every other row is as it was. */
  lemma {:induction false} MarkedRow(commands: CommandTable, ids: seq<CommandId>, deliveries: seq<Delivery>, now: Instant,
                                     id: CommandId)
    requires |deliveries| <= |ids| && Distinct(ids) && id in commands
    ensures var after := Marked(commands, ids, deliveries, now);
            id in after && InItsTurn(commands[id], ids, deliveries, now, id, after[id])
  {
    if deliveries != [] {
      var n := |deliveries| - 1;
      MarkedRow(commands, ids, deliveries[..n], now, id);
      TurnOfRow(commands[id], ids, deliveries, now, id, Marked(commands, ids, deliveries[..n], now)[id]);
      assert deliveries[..n + 1] == deliveries;
    }
  }

  /** What becomes of one row. Another device's and an answered or ended one are kept. The device's unanswered commands: one
      that has run out when the redelivery begins expires; one that runs out before the select is neither expired nor
      listed; any other is listed, and ends sent, from its turn on, if the broker took it, and is kept if not. */
  predicate RedeliveredRow(s: Store, deviceId: DeviceId, gap: nat, ids: seq<CommandId>, deliveries: seq<Delivery>,
                           id: CommandId, after: Command)
    requires id in s.commands && |deliveries| == |ids|
  {
    var before := s.commands[id];
    if before.deviceId != deviceId || before.status !in {Pending, Sent} then id !in ids && after == before
    else if before.expiresAt <= s.now then id !in ids && after == before.(status := Expired)
    else if before.expiresAt <= s.now + gap then id !in ids && after == before
    else
      && id in ids
      && forall i | 0 <= i < |ids| && ids[i] == id ::
           after == if deliveries[i].confirmed then MarkedSent(before, s.now + gap + TurnOver(deliveries, i)) else before
  }

  /** What the select lists, told by the row as it was when the redelivery began. */
  lemma ListedRow(s: Store, deviceId: DeviceId, gap: nat, ids: seq<CommandId>, id: CommandId)
    requires id in s.commands && Lists(s, Some(deviceId), gap, ids)
    ensures Distinct(ids) && (id in ids <==> Deliverable(s.commands[id], deviceId, s.now + gap))
  {
    var found := Swept(s, Some(deviceId), gap);
    assert id in ids <==> id in (set i | i in ids);
    assert id in Selected(found, Some(deviceId)) <==> Deliverable(found.commands[id], deviceId, s.now + gap);
  }

  lemma RowAfterRedelivery(s: Store, deviceId: DeviceId, gap: nat, ids: seq<CommandId>, deliveries: seq<Delivery>, id: CommandId)
    requires id in s.commands && |deliveries| == |ids| && Distinct(ids)
    requires id in ids <==> Deliverable(s.commands[id], deviceId, s.now + gap)
    ensures var after := Marked(WithoutOverdue(s.commands, Some(deviceId), s.now), ids, deliveries, s.now + gap);
            id in after && RedeliveredRow(s, deviceId, gap, ids, deliveries, id, after[id])
  {
    var swept := WithoutOverdue(s.commands, Some(deviceId), s.now);
    MarkedRow(swept, ids, deliveries, s.now + gap, id);
    RowIsRedelivered(s, deviceId, gap, ids, deliveries, id, Marked(swept, ids, deliveries, s.now + gap)[id]);
  }

  lemma RowIsRedelivered(s: Store, deviceId: DeviceId, gap: nat, ids: seq<CommandId>, deliveries: seq<Delivery>,
                         id: CommandId, after: Command)
    requires id in s.commands && |deliveries| == |ids|
    requires id in ids <==> Deliverable(s.commands[id], deviceId, s.now + gap)
    requires InItsTurn(Overdue(s.commands[id], Some(deviceId), s.now), ids, deliveries, s.now + gap, id, after)
    ensures RedeliveredRow(s, deviceId, gap, ids, deliveries, id, after)
  {
  }

  /** Every row ends as `RedeliveredRow` says, and none comes or goes. */
  predicate AllRedelivered(s: Store, deviceId: DeviceId, gap: nat, ids: seq<CommandId>, deliveries: seq<Delivery>,
                           after: CommandTable)
    requires |deliveries| == |ids|
  {
    && after.Keys == s.commands.Keys
    && forall id | id in s.commands :: RedeliveredRow(s, deviceId, gap, ids, deliveries, id, after[id])
  }

  /** `redeliver` from start to end, no other call running, under any pattern of publish failures and delays: it attempts
      its listing once each, oldest first, and every row ends as `RedeliveredRow` says. */
  lemma RedeliverAlone(w: World, c: CallId, deviceId: DeviceId, gap: nat, ids: seq<CommandId>, deliveries: seq<Delivery>)
    requires c in w.calls && w.calls[c] == SweepExpire(Some(deviceId)) && |deliveries| == |ids|
    requires Lists(w.store, Some(deviceId), gap, ids)
    ensures RunWorld(w, SweepSteps(c, gap, ids, deliveries)) == AfterSweep(w, c, Some(deviceId), gap, ids, deliveries)
    ensures AllRedelivered(w.store, deviceId, gap, ids, deliveries,
                           AfterSweep(w, c, Some(deviceId), gap, ids, deliveries).store.commands)
  {
    SweepAlone(w, c, Some(deviceId), gap, ids, deliveries);
    RowsAfterSweep(w, c, deviceId, gap, ids, deliveries);
  }

  lemma RowsAfterSweep(w: World, c: CallId, deviceId: DeviceId, gap: nat, ids: seq<CommandId>, deliveries: seq<Delivery>)
    requires |deliveries| == |ids| && Lists(w.store, Some(deviceId), gap, ids)
    ensures AllRedelivered(w.store, deviceId, gap, ids, deliveries,
                           AfterSweep(w, c, Some(deviceId), gap, ids, deliveries).store.commands)
  {
    RowsAfterRedelivery(w.store, deviceId, gap, ids, deliveries);
  }

  lemma RowsAfterRedelivery(s: Store, deviceId: DeviceId, gap: nat, ids: seq<CommandId>, deliveries: seq<Delivery>)
    requires |deliveries| == |ids| && Lists(s, Some(deviceId), gap, ids)
    ensures AllRedelivered(s, deviceId, gap, ids, deliveries,
                           Marked(WithoutOverdue(s.commands, Some(deviceId), s.now), ids, deliveries, s.now + gap))
  {
    var after := Marked(WithoutOverdue(s.commands, Some(deviceId), s.now), ids, deliveries, s.now + gap);
    MarkedKeys(WithoutOverdue(s.commands, Some(deviceId), s.now), ids, deliveries, s.now + gap);
    forall id | id in s.commands
      ensures RedeliveredRow(s, deviceId, gap, ids, deliveries, id, after[id])
    {
      ListedRow(s, deviceId, gap, ids, id);
      RowAfterRedelivery(s, deviceId, gap, ids, deliveries, id);
    }
  }

  lemma {:induction false} MarkedKeys(commands: CommandTable, ids: seq<CommandId>, deliveries: seq<Delivery>, now: Instant)
    requires |deliveries| <= |ids|
    ensures Marked(commands, ids, deliveries, now).Keys == commands.Keys
  {
    if deliveries != [] {
      MarkedKeys(commands, ids, deliveries[..|deliveries| - 1], now);
    }
  }
}
