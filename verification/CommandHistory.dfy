/**
 * What a command's row says about its own history, over every run.
 *
 * `FinalStatus` is the main result: whatever statements interleave, over any number of commands and devices, the
 * status is a closed form of the events that concern the command: the first one that ends it wins.
 */
module CommandHistory {
  import opened Wrappers
  import opened Devices
  import opened CommandStore

  // ----- a row on its own -----

  /** One row under one event; `None` once the row is deleted. */
  function StepRow(row: Option<Command>, id: CommandId, now: Instant, e: Event): Option<Command> {
    if row.None? then None
    else match e
      case MarkSent(i) => if i == id then Some(MarkedSent(row.value, now)) else row
      case ApplyAck(i, deviceId, ack, result, error) =>
        if i == id && AckMatches(row.value, deviceId, AllowedFrom(ack))
        then Some(Answered(row.value, ack, result, error, now))
        else row
      case Expire(i) => if i == id then Some(GivenUp(row.value)) else row
      case ExpireOverdue(scope) => Some(Overdue(row.value, scope, now))
      case DeleteDevice(deviceId) => if row.value.deviceId == deviceId then None else row
      case _ => row
  }

  function Elapsed(trace: seq<Event>): nat {
    if trace == [] then 0
    else Elapsed(trace[..|trace| - 1]) + match trace[|trace| - 1] case Tick(ms) => ms case _ => 0
  }

  function RunRow(row: Option<Command>, id: CommandId, now: Instant, trace: seq<Event>): Option<Command> {
    if trace == [] then row
    else
      var before := trace[..|trace| - 1];
      StepRow(RunRow(row, id, now, before), id, now + Elapsed(before), trace[|trace| - 1])
  }

  function Lookup(s: Store, id: CommandId): Option<Command> {
    if id in s.commands then Some(s.commands[id]) else None
  }

  /** A row evolves by itself: nothing but its own events, overdue sweeps, its device's deletion and the clock matter. */
  lemma {:induction false} RowIsIndependent(s: Store, id: CommandId, trace: seq<Event>)
    requires id in s.issued
    ensures Run(s, trace).now == s.now + Elapsed(trace)
    ensures id in Run(s, trace).issued
    ensures Lookup(Run(s, trace), id) == RunRow(Lookup(s, id), id, s.now, trace)
  {
    if trace != [] {
      RowIsIndependent(s, id, trace[..|trace| - 1]);
    }
  }

  // ----- row consistency -----

  /** What the dates of a row say about its status. */
  predicate Consistent(row: Command) {
    && (row.status == Pending ==> row.sentAt.None?)
    && (row.completedAt.Some? <==> row.status in {Succeeded, Failed})
    && (row.status in {Acknowledged, Succeeded, Failed} ==> row.acknowledgedAt.Some?)
    && (row.status in {Pending, Sent} ==> row.acknowledgedAt.None?)
  }

  /** From `before` to `after`: what was written once stays, and the status is kept or moves up. */
  predicate MovesForward(before: Command, after: Command) {
    && (after.status == before.status || Rank(after.status) > Rank(before.status))
    && (before.acknowledgedAt.Some? ==> after.acknowledgedAt == before.acknowledgedAt)
    && (before.sentAt.Some? ==> after.sentAt == before.sentAt)
    && (before.completedAt.Some? ==> after.completedAt == before.completedAt)
    && after.deviceId == before.deviceId && after.kind == before.kind && after.payload == before.payload
    && after.createdAt == before.createdAt && after.expiresAt == before.expiresAt
    && (Terminal(before.status) ==> after == before)
  }

  lemma {:induction false} RowsMoveForward(row: Command, id: CommandId, now: Instant, trace: seq<Event>)
    requires Consistent(row)
    ensures var after := RunRow(Some(row), id, now, trace);
            after.Some? ==> Consistent(after.value) && MovesForward(row, after.value)
  {
    if trace != [] {
      RowsMoveForward(row, id, now, trace[..|trace| - 1]);
    }
  }

  /** Once succeeded, failed or expired, a row never changes again: it can only disappear with its device. */
  lemma TerminalIsForever(s: Store, id: CommandId, trace: seq<Event>)
    requires id in s.commands && id in s.issued
    requires Consistent(s.commands[id]) && Terminal(s.commands[id].status)
    ensures id in Run(s, trace).commands ==> Run(s, trace).commands[id] == s.commands[id]
    ensures forall scope :: id !in Selected(Run(s, trace), scope)
  {
    RowIsIndependent(s, id, trace);
    RowsMoveForward(s.commands[id], id, s.now, trace);
  }

  // ----- the closed form -----

  predicate OwnAck(row: Command, id: CommandId, e: Event) {
    e.ApplyAck? && e.id == id && e.deviceId == row.deviceId
  }

  ghost predicate AckedBefore(row: Command, id: CommandId, trace: seq<Event>, i: nat)
    requires i <= |trace|
  {
    exists j :: 0 <= j < i && OwnAck(row, id, trace[j])
  }

  /** Event `i` would end the command: an answer of its device, a caller giving up, or a sweep that finds it overdue
      and not acknowledged by anything before. */
  ghost predicate EndsAt(row: Command, id: CommandId, now: Instant, trace: seq<Event>, i: nat)
    requires i < |trace|
  {
    || (OwnAck(row, id, trace[i]) && trace[i].ack != AckReceived)
    || trace[i] == Expire(id)
    || (&& trace[i].ExpireOverdue? && InScope(trace[i].scope, row.deviceId)
        && row.expiresAt <= now + Elapsed(trace[..i]) && !AckedBefore(row, id, trace, i))
  }

  ghost predicate FirstEnd(row: Command, id: CommandId, now: Instant, trace: seq<Event>, k: nat)
    requires k < |trace|
  {
    EndsAt(row, id, now, trace, k) && forall i: nat | i < k :: !EndsAt(row, id, now, trace, i)
  }

  /** Whether the answer was a success or a failure; anything else that ends a command expires it. */
  function EndStatus(e: Event): Status {
    if !e.ApplyAck? then Expired else if e.ack == AckSucceeded then Succeeded else Failed
  }

  /** The status a command created as `row` has after `trace`, read off the trace without running anything. */
  ghost function ClosedForm(row: Command, id: CommandId, now: Instant, trace: seq<Event>): Status {
    if exists k: nat :: k < |trace| && FirstEnd(row, id, now, trace, k) then
      var k: nat :| k < |trace| && FirstEnd(row, id, now, trace, k);
      EndStatus(trace[k])
    else if AckedBefore(row, id, trace, |trace|) then Acknowledged
    else if MarkSent(id) in trace then Sent
    else Pending
  }

  /** A row as `create` inserts it. */
  predicate Fresh(row: Command) {
    row.status == Pending && row.sentAt.None? && row.acknowledgedAt.None? && row.completedAt.None?
  }

  /** Whether an event ends the command depends only on what came before it. */
  lemma EndsAtPrefix(row: Command, id: CommandId, now: Instant, trace: seq<Event>, n: nat, i: nat)
    requires i < n <= |trace|
    ensures EndsAt(row, id, now, trace[..n], i) <==> EndsAt(row, id, now, trace, i)
  {
    assert trace[..n][..i] == trace[..i];
    assert AckedBefore(row, id, trace[..n], i) <==> AckedBefore(row, id, trace, i) by {
      assert forall j | 0 <= j < i :: trace[..n][j] == trace[j];
    }
  }

  lemma FirstEndPrefix(row: Command, id: CommandId, now: Instant, trace: seq<Event>, n: nat, k: nat)
    requires k < n <= |trace|
    ensures FirstEnd(row, id, now, trace[..n], k) <==> FirstEnd(row, id, now, trace, k)
  {
    forall i: nat | i < n ensures EndsAt(row, id, now, trace[..n], i) <==> EndsAt(row, id, now, trace, i) {
      EndsAtPrefix(row, id, now, trace, n, i);
    }
  }

  /** If any event ends the command, one of them is the first. */
  lemma {:induction false} SomeEndHasFirst(row: Command, id: CommandId, now: Instant, trace: seq<Event>, i: nat)
    returns (k: nat)
    requires i < |trace| && EndsAt(row, id, now, trace, i)
    ensures k <= i && FirstEnd(row, id, now, trace, k)
  {
    if j: nat :| j < i && EndsAt(row, id, now, trace, j) {
      k := SomeEndHasFirst(row, id, now, trace, j);
    } else {
      k := i;
    }
  }

  ghost predicate Ended(row: Command, id: CommandId, now: Instant, trace: seq<Event>) {
    exists k: nat :: k < |trace| && FirstEnd(row, id, now, trace, k)
  }

  /** One more event: an ended command keeps its end, otherwise only the last event counts. */
  lemma ClosedFormSnoc(row: Command, id: CommandId, now: Instant, trace: seq<Event>)
    requires trace != []
    ensures var before := trace[..|trace| - 1];
            var last: nat := |trace| - 1;
            && (Ended(row, id, now, before) ==>
                  Ended(row, id, now, trace) && ClosedForm(row, id, now, trace) == ClosedForm(row, id, now, before))
            && (!Ended(row, id, now, before) && EndsAt(row, id, now, trace, last) ==>
                  Ended(row, id, now, trace) && ClosedForm(row, id, now, trace) == EndStatus(trace[last]))
            && (!Ended(row, id, now, before) && !EndsAt(row, id, now, trace, last) ==> !Ended(row, id, now, trace))
  {
    var last: nat := |trace| - 1;
    var before := trace[..last];
    forall k: nat | k < last ensures FirstEnd(row, id, now, before, k) <==> FirstEnd(row, id, now, trace, k) {
      FirstEndPrefix(row, id, now, trace, last, k);
    }
    if !Ended(row, id, now, before) {
      forall i: nat | i < last ensures !EndsAt(row, id, now, trace, i) {
        EndsAtPrefix(row, id, now, trace, last, i);
        if EndsAt(row, id, now, before, i) {
          var k := SomeEndHasFirst(row, id, now, before, i);
        }
      }
      if EndsAt(row, id, now, trace, last) {
        assert FirstEnd(row, id, now, trace, last);
      }
    }
  }

  lemma AckedSnoc(row: Command, id: CommandId, trace: seq<Event>)
    requires trace != []
    ensures var before := trace[..|trace| - 1];
            && AckedBefore(row, id, trace, |trace| - 1) == AckedBefore(row, id, before, |before|)
            && (AckedBefore(row, id, trace, |trace|)
                <==> AckedBefore(row, id, before, |before|) || OwnAck(row, id, trace[|trace| - 1]))
            && (MarkSent(id) in trace <==> MarkSent(id) in before || trace[|trace| - 1] == MarkSent(id))
  {
    var before := trace[..|trace| - 1];
    assert trace == before + [trace[|trace| - 1]];
    assert forall j | 0 <= j < |before| :: trace[j] == before[j];
  }

  lemma {:induction false} RowFollowsClosedForm(row: Command, id: CommandId, now: Instant, trace: seq<Event>)
    requires Fresh(row)
    requires DeleteDevice(row.deviceId) !in trace
    ensures var after := RunRow(Some(row), id, now, trace);
            && after.Some? && MovesForward(row, after.value)
            && after.value.status == ClosedForm(row, id, now, trace)
            && (Ended(row, id, now, trace) <==> Terminal(after.value.status))
  {
    if trace != [] {
      var before := trace[..|trace| - 1];
      RowFollowsClosedForm(row, id, now, before);
      RowsMoveForward(row, id, now, before);
      ClosedFormSnoc(row, id, now, trace);
      AckedSnoc(row, id, trace);
    }
  }

  lemma {:induction false} DeletedWithItsDevice(row: Command, id: CommandId, now: Instant, trace: seq<Event>)
    requires Consistent(row)
    ensures RunRow(Some(row), id, now, trace).None? <==> DeleteDevice(row.deviceId) in trace
  {
    if trace != [] {
      var before := trace[..|trace| - 1];
      DeletedWithItsDevice(row, id, now, before);
      RowsMoveForward(row, id, now, before);
      assert trace == before + [trace[|trace| - 1]];
    }
  }

  /** For every run from the moment `id` is created: the row is gone exactly when its device was deleted, and
      otherwise its status is the closed form of the run. */
  lemma FinalStatus(s: Store, id: CommandId, trace: seq<Event>)
    requires id in s.commands && id in s.issued && Fresh(s.commands[id])
    ensures var row := s.commands[id];
            && (id !in Run(s, trace).commands <==> DeleteDevice(row.deviceId) in trace)
            && (id in Run(s, trace).commands ==>
                  Run(s, trace).commands[id].status == ClosedForm(row, id, s.now, trace))
  {
    var row := s.commands[id];
    RowIsIndependent(s, id, trace);
    DeletedWithItsDevice(row, id, s.now, trace);
    if DeleteDevice(row.deviceId) !in trace {
      RowFollowsClosedForm(row, id, s.now, trace);
    }
  }

  /** A caller gave up on the command, first of all that could end it, after an ack of its device. */
  ghost predicate GivenUpAfterAck(row: Command, id: CommandId, now: Instant, trace: seq<Event>) {
    exists k: nat :: k < |trace| && FirstEnd(row, id, now, trace, k) && trace[k] == Expire(id) && AckedBefore(row, id, trace, k)
  }

  lemma GivenUpSnoc(row: Command, id: CommandId, now: Instant, trace: seq<Event>)
    requires trace != []
    ensures var before, last: nat := trace[..|trace| - 1], |trace| - 1;
            GivenUpAfterAck(row, id, now, trace)
            <==> GivenUpAfterAck(row, id, now, before)
                 || (FirstEnd(row, id, now, trace, last) && trace[last] == Expire(id) && AckedBefore(row, id, trace, last))
  {
    var last: nat := |trace| - 1;
    var before := trace[..last];
    forall k: nat | k < last
      ensures FirstEnd(row, id, now, before, k) <==> FirstEnd(row, id, now, trace, k)
      ensures AckedBefore(row, id, before, k) <==> AckedBefore(row, id, trace, k)
    {
      FirstEndPrefix(row, id, now, trace, last, k);
      assert forall j | 0 <= j < k :: before[j] == trace[j];
    }
  }

  /** An expired row carries an ack date exactly when a caller gave up on it after an ack: being overdue never does it. */
  lemma {:induction false} ExpiredAfterAck(row: Command, id: CommandId, now: Instant, trace: seq<Event>)
    requires Fresh(row) && DeleteDevice(row.deviceId) !in trace
    ensures var after := RunRow(Some(row), id, now, trace);
            && after.Some?
            && (after.value.status == Expired && after.value.acknowledgedAt.Some? <==> GivenUpAfterAck(row, id, now, trace))
  {
    RowFollowsClosedForm(row, id, now, trace);
    if trace != [] {
      var before := trace[..|trace| - 1];
      ExpiredAfterAck(row, id, now, before);
      RowFollowsClosedForm(row, id, now, before);
      RowsMoveForward(row, id, now, before);
      ClosedFormSnoc(row, id, now, trace);
      AckedSnoc(row, id, trace);
      GivenUpSnoc(row, id, now, trace);
      LastEvent(row, id, now, trace);
    }
  }

  /** Whether the last event is the one that ends the command. */
  lemma LastEvent(row: Command, id: CommandId, now: Instant, trace: seq<Event>)
    requires trace != []
    ensures var last: nat := |trace| - 1;
            FirstEnd(row, id, now, trace, last) <==> EndsAt(row, id, now, trace, last) && !Ended(row, id, now, trace[..last])
  {
    var last: nat := |trace| - 1;
    var before := trace[..last];
    forall i: nat | i < last ensures EndsAt(row, id, now, before, i) <==> EndsAt(row, id, now, trace, i) {
      EndsAtPrefix(row, id, now, trace, last, i);
    }
    if i: nat :| i < last && EndsAt(row, id, now, before, i) {
      var k := SomeEndHasFirst(row, id, now, before, i);
    }
    if k: nat :| k < last && FirstEnd(row, id, now, before, k) {
      assert EndsAt(row, id, now, trace, k);
    }
  }

  /** The same of the table, over every run from the creation: what "expired" does not promise, and exactly when. */
  lemma AckedYetExpired(s: Store, id: CommandId, trace: seq<Event>)
    requires id in s.commands && id in s.issued && Fresh(s.commands[id])
    requires id in Run(s, trace).commands
    ensures var row, after := s.commands[id], Run(s, trace).commands[id];
            after.status == Expired && after.acknowledgedAt.Some? <==> GivenUpAfterAck(row, id, s.now, trace)
  {
    var row := s.commands[id];
    RowIsIndependent(s, id, trace);
    DeletedWithItsDevice(row, id, s.now, trace);
    ExpiredAfterAck(row, id, s.now, trace);
  }

  // ----- expired, although acknowledged in time -----

  /** Event `j` is the first ack of the command's device. */
  predicate FirstAck(row: Command, id: CommandId, trace: seq<Event>, j: nat) {
    j < |trace| && OwnAck(row, id, trace[j]) && forall i | 0 <= i < j :: !OwnAck(row, id, trace[i])
  }

  lemma {:induction false} ElapsedGrows(trace: seq<Event>, i: nat, j: nat)
    requires i <= j <= |trace|
    ensures Elapsed(trace[..i]) <= Elapsed(trace[..j])
  {
    if i < j {
      ElapsedGrows(trace, i, j - 1);
      assert trace[..j][..j - 1] == trace[..j - 1];
    }
  }

  /** An ack that is taken while nothing was acknowledged before is the device's first. */
  lemma AckIsTheFirst(row: Command, id: CommandId, now: Instant, trace: seq<Event>)
    requires Fresh(row) && DeleteDevice(row.deviceId) !in trace && trace != [] && OwnAck(row, id, trace[|trace| - 1])
    requires var before := RunRow(Some(row), id, now, trace[..|trace| - 1]);
             before.Some? && before.value.acknowledgedAt.None? && !Terminal(before.value.status)
    ensures FirstAck(row, id, trace, |trace| - 1)
  {
    var before := trace[..|trace| - 1];
    RowFollowsClosedForm(row, id, now, before);
    RowsMoveForward(row, id, now, before);
    forall i | 0 <= i < |before| ensures !OwnAck(row, id, trace[i]) {
      assert before[i] == trace[i];
    }
  }

  /** The ack date of a row is the instant of its device's first ack. */
  lemma {:induction false} AckDateIsTheFirst(row: Command, id: CommandId, now: Instant, trace: seq<Event>) returns (j: nat)
    requires Fresh(row) && DeleteDevice(row.deviceId) !in trace
    requires RunRow(Some(row), id, now, trace).Some? && RunRow(Some(row), id, now, trace).value.acknowledgedAt.Some?
    ensures FirstAck(row, id, trace, j)
    ensures RunRow(Some(row), id, now, trace).value.acknowledgedAt.value == now + Elapsed(trace[..j])
  {
    var before := trace[..|trace| - 1];
    RowFollowsClosedForm(row, id, now, before);
    RowsMoveForward(row, id, now, before);
    var held := RunRow(Some(row), id, now, before).value;
    if held.acknowledgedAt.Some? {
      j := AckDateIsTheFirst(row, id, now, before);
      assert before[..j] == trace[..j];
    } else {
      j := |trace| - 1;
      AckIsTheFirst(row, id, now, trace);
    }
  }

  /** A caller gave up on the command, first of all that could end it, after its device acknowledged it before it ran
      out. */
  ghost predicate GivenUpDespiteAck(row: Command, id: CommandId, now: Instant, trace: seq<Event>) {
    && GivenUpAfterAck(row, id, now, trace)
    && exists j: nat :: AckInTime(row, id, now, trace, j)
  }

  predicate AckInTime(row: Command, id: CommandId, now: Instant, trace: seq<Event>, j: nat) {
    j < |trace| && OwnAck(row, id, trace[j]) && now + Elapsed(trace[..j]) < row.expiresAt
  }

  lemma FirstAckDecides(row: Command, id: CommandId, now: Instant, trace: seq<Event>, first: nat)
    requires FirstAck(row, id, trace, first)
    ensures now + Elapsed(trace[..first]) < row.expiresAt <==> exists j: nat :: AckInTime(row, id, now, trace, j)
  {
    if now + Elapsed(trace[..first]) < row.expiresAt {
      assert AckInTime(row, id, now, trace, first);
    }
    if j: nat :| AckInTime(row, id, now, trace, j) {
      ElapsedGrows(trace, first, j);
    }
  }

  /** "Never acknowledged before expiresAt", over every run from the creation: an expired row breaks it exactly when a
      caller gave up on it, first of all that could end it, after an ack, and an ack came before it ran out. */
  lemma AckedInTimeYetExpired(s: Store, id: CommandId, trace: seq<Event>)
    requires id in s.commands && id in s.issued && Fresh(s.commands[id])
    requires id in Run(s, trace).commands
    ensures var row, after := s.commands[id], Run(s, trace).commands[id];
            after.status == Expired && after.acknowledgedAt.Some? && after.acknowledgedAt.value < after.expiresAt
            <==> GivenUpDespiteAck(row, id, s.now, trace)
  {
    var row := s.commands[id];
    RowIsIndependent(s, id, trace);
    DeletedWithItsDevice(row, id, s.now, trace);
    RowsMoveForward(row, id, s.now, trace);
    ExpiredAfterAck(row, id, s.now, trace);
    if Run(s, trace).commands[id].acknowledgedAt.Some? {
      var first := AckDateIsTheFirst(row, id, s.now, trace);
      FirstAckDecides(row, id, s.now, trace, first);
    }
  }

  /** `findDeliverable`, read off the history: the device's commands that nothing ended, that no ack of its own
      reached, that have not run out, and whose device is still there. */
  lemma DeliverableByHistory(s: Store, id: CommandId, trace: seq<Event>, deviceId: DeviceId)
    requires id in s.commands && id in s.issued && Fresh(s.commands[id])
    ensures var row := s.commands[id];
            id in Selected(Run(s, trace), Some(deviceId))
            <==>
            && deviceId == row.deviceId && DeleteDevice(row.deviceId) !in trace
            && !AckedBefore(row, id, trace, |trace|)
            && !Ended(row, id, s.now, trace)
            && row.expiresAt > s.now + Elapsed(trace)
  {
    var row := s.commands[id];
    FinalStatus(s, id, trace);
    RowIsIndependent(s, id, trace);
    if DeleteDevice(row.deviceId) !in trace {
      RowFollowsClosedForm(row, id, s.now, trace);
    }
  }

  /** `findPendingForOnlineDevices`, read off the history: the commands that nothing ended, that no ack of their device
      reached, that nobody recorded as sent, that have not run out, and whose device is online at that instant. */
  lemma FlushableByHistory(s: Store, id: CommandId, trace: seq<Event>)
    requires id in s.commands && id in s.issued && Fresh(s.commands[id])
    ensures var row, devices := s.commands[id], Run(s, trace).devices;
            id in Selected(Run(s, trace), None)
            <==>
            && DeleteDevice(row.deviceId) !in trace
            && !AckedBefore(row, id, trace, |trace|)
            && !Ended(row, id, s.now, trace)
            && MarkSent(id) !in trace
            && row.expiresAt > s.now + Elapsed(trace)
            && row.deviceId in devices && devices[row.deviceId].online
  {
    var row := s.commands[id];
    FinalStatus(s, id, trace);
    RowIsIndependent(s, id, trace);
    if DeleteDevice(row.deviceId) !in trace {
      RowFollowsClosedForm(row, id, s.now, trace);
    }
  }

  // ----- presence -----

  /** The event writes the row of the device. */
  predicate WritesDevice(e: Event, deviceId: DeviceId) {
    match e
    case SetPresence(d, _) => d == deviceId
    case PutDevice(d, _) => d == deviceId
    case DeleteDevice(d) => d == deviceId
    case _ => false
  }

  lemma {:induction false} DeviceStays(s: Store, trace: seq<Event>, deviceId: DeviceId)
    requires deviceId in s.devices && forall e | e in trace :: !WritesDevice(e, deviceId)
    ensures deviceId in Run(s, trace).devices && Run(s, trace).devices[deviceId] == s.devices[deviceId]
  {
    if trace != [] {
      assert trace[|trace| - 1] in trace;
      DeviceStays(s, trace[..|trace| - 1], deviceId);
    }
  }

  // ----- what never matters -----

  /** `trace` without the `markSent`s of `id`. */
  function WithoutMarks(trace: seq<Event>, id: CommandId): seq<Event> {
    if trace == [] then []
    else
      var before := WithoutMarks(trace[..|trace| - 1], id);
      if trace[|trace| - 1] == MarkSent(id) then before else before + [trace[|trace| - 1]]
  }

  /** `trace` without the acks that name `id` but come from another device. */
  function WithoutForeignAcks(trace: seq<Event>, id: CommandId, deviceId: DeviceId): seq<Event> {
    if trace == [] then []
    else
      var before := WithoutForeignAcks(trace[..|trace| - 1], id, deviceId);
      var last := trace[|trace| - 1];
      if last.ApplyAck? && last.id == id && last.deviceId != deviceId then before else before + [last]
  }

  /** Equal but for `sentAt`, and for `pending` against `sent`. */
  predicate SameButSent(a: Option<Command>, b: Option<Command>) {
    || (a.None? && b.None?)
    || (&& a.Some? && b.Some?
        && (a.value.status == b.value.status || (a.value.status in {Pending, Sent} && b.value.status in {Pending, Sent}))
        && a.value.(status := b.value.status, sentAt := b.value.sentAt) == b.value)
  }

  lemma SameButSentStep(a: Option<Command>, b: Option<Command>, id: CommandId, now: Instant, e: Event)
    requires SameButSent(a, b)
    ensures if e == MarkSent(id) then SameButSent(StepRow(a, id, now, e), b)
            else SameButSent(StepRow(a, id, now, e), StepRow(b, id, now, e))
  {
  }

  lemma RunRowSnoc(row: Option<Command>, id: CommandId, now: Instant, trace: seq<Event>, e: Event)
    ensures RunRow(row, id, now, trace + [e]) == StepRow(RunRow(row, id, now, trace), id, now + Elapsed(trace), e)
    ensures Elapsed(trace + [e]) == Elapsed(trace) + match e case Tick(ms) => ms case _ => 0
  {
    assert (trace + [e])[..|trace|] == trace;
  }

  lemma {:induction false} MarkSentNeverMatters(row: Command, id: CommandId, now: Instant, trace: seq<Event>)
    ensures Elapsed(WithoutMarks(trace, id)) == Elapsed(trace)
    ensures SameButSent(RunRow(Some(row), id, now, trace), RunRow(Some(row), id, now, WithoutMarks(trace, id)))
  {
    if trace != [] {
      var before, last := trace[..|trace| - 1], trace[|trace| - 1];
      var kept := WithoutMarks(before, id);
      MarkSentNeverMatters(row, id, now, before);
      SameButSentStep(RunRow(Some(row), id, now, before), RunRow(Some(row), id, now, kept), id, now + Elapsed(before), last);
      RunRowSnoc(Some(row), id, now, kept, last);
    }
  }

  /** Once any ack of its device is in, where the `markSent`s landed, or whether they did, cannot be told from the
      status. */
  lemma MarkSentPlacementIsInvisible(row: Command, id: CommandId, now: Instant, t1: seq<Event>, t2: seq<Event>)
    requires Fresh(row)
    requires WithoutMarks(t1, id) == WithoutMarks(t2, id)
    requires DeleteDevice(row.deviceId) !in t1 && DeleteDevice(row.deviceId) !in t2
    requires AckedBefore(row, id, t1, |t1|) && AckedBefore(row, id, t2, |t2|)
    ensures ClosedForm(row, id, now, t1) == ClosedForm(row, id, now, t2)
  {
    MarkSentNeverMatters(row, id, now, t1);
    MarkSentNeverMatters(row, id, now, t2);
    RowFollowsClosedForm(row, id, now, t1);
    RowFollowsClosedForm(row, id, now, t2);
  }

  lemma {:induction false} ForeignAcksChangeNothing(row: Command, id: CommandId, now: Instant, trace: seq<Event>)
    requires Consistent(row)
    ensures Elapsed(WithoutForeignAcks(trace, id, row.deviceId)) == Elapsed(trace)
    ensures RunRow(Some(row), id, now, WithoutForeignAcks(trace, id, row.deviceId)) == RunRow(Some(row), id, now, trace)
  {
    if trace != [] {
      ForeignAcksChangeNothing(row, id, now, trace[..|trace| - 1]);
      RowsMoveForward(row, id, now, trace[..|trace| - 1]);
      var kept := WithoutForeignAcks(trace[..|trace| - 1], id, row.deviceId);
      assert (kept + [trace[|trace| - 1]])[..|kept|] == kept;
    }
  }
}
