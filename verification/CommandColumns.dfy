/**
 * The other columns of a command's row, over every run: its dates, its result and its error, read off the events that concern
 * it. With `CommandHistory.FinalStatus`, the whole row is told by its history.
 */
module CommandColumns {
  import opened Wrappers
  import opened Devices
  import opened CommandStore
  import opened CommandHistory
  import opened CommandCalls
  import opened CommandGate
  import opened CommandProtocol

  /** Event `j` is an ack the command takes: of its own device, before anything ended it, and, if it only acknowledges, the
      first of its device. */
  ghost predicate Takes(row: Command, id: CommandId, now: Instant, trace: seq<Event>, j: nat)
    requires j < |trace|
  {
    && OwnAck(row, id, trace[j]) && !Ended(row, id, now, trace[..j])
    && (trace[j].ack == AckReceived ==> !AckedBefore(row, id, trace, j))
  }

  /** Event `j` records the publication of a command nobody recorded, answered or ended before. */
  ghost predicate Records(row: Command, id: CommandId, now: Instant, trace: seq<Event>, j: nat)
    requires j < |trace|
  {
    && trace[j] == MarkSent(id) && MarkSent(id) !in trace[..j]
    && !Ended(row, id, now, trace[..j]) && !AckedBefore(row, id, trace, j)
  }

  lemma ColumnsPrefix(row: Command, id: CommandId, now: Instant, trace: seq<Event>, n: nat, j: nat)
    requires j < n <= |trace|
    ensures Takes(row, id, now, trace[..n], j) <==> Takes(row, id, now, trace, j)
    ensures Records(row, id, now, trace[..n], j) <==> Records(row, id, now, trace, j)
    ensures AckedBefore(row, id, trace[..n], j) <==> AckedBefore(row, id, trace, j)
    ensures trace[..n][..j] == trace[..j]
  {
    assert trace[..n][..j] == trace[..j];
    assert forall i | 0 <= i < j :: trace[..n][i] == trace[i];
  }

  /** What an event finds: the row as its history has it. */
  lemma Found(row: Command, id: CommandId, now: Instant, trace: seq<Event>)
    requires Fresh(row) && DeleteDevice(row.deviceId) !in trace
    ensures var held := RunRow(Some(row), id, now, trace);
            && held.Some? && MovesForward(row, held.value)
            && (held.value.status in {Pending, Sent, Acknowledged} <==> !Ended(row, id, now, trace))
            && (held.value.status in {Pending, Sent}
                <==> !Ended(row, id, now, trace) && !AckedBefore(row, id, trace, |trace|))
            && (held.value.status == Pending
                <==> !Ended(row, id, now, trace) && !AckedBefore(row, id, trace, |trace|) && MarkSent(id) !in trace)
  {
    RowFollowsClosedForm(row, id, now, trace);
  }

  // ----- one more event, told by the history before it -----

  lemma TakenAck(row: Command, id: CommandId, now: Instant, trace: seq<Event>)
    requires Fresh(row) && DeleteDevice(row.deviceId) !in trace && trace != [] && Takes(row, id, now, trace, |trace| - 1)
    ensures var n: nat := |trace| - 1;
            var held := RunRow(Some(row), id, now, trace[..n]);
            && held.Some? && MovesForward(row, held.value)
            && (AckedBefore(row, id, trace, n) ==> held.value.status == Acknowledged)
            && RunRow(Some(row), id, now, trace)
               == Some(Answered(held.value, trace[n].ack, trace[n].result, trace[n].error, now + Elapsed(trace[..n])))
  {
    Found(row, id, now, trace[..|trace| - 1]);
    AckedSnoc(row, id, trace);
  }

  lemma RecordedPublication(row: Command, id: CommandId, now: Instant, trace: seq<Event>)
    requires Fresh(row) && DeleteDevice(row.deviceId) !in trace && trace != [] && Records(row, id, now, trace, |trace| - 1)
    ensures var n := |trace| - 1;
            var held := RunRow(Some(row), id, now, trace[..n]);
            && held.Some?
            && RunRow(Some(row), id, now, trace) == Some(held.value.(status := Sent, sentAt := Some(now + Elapsed(trace[..n]))))
  {
    Found(row, id, now, trace[..|trace| - 1]);
    AckedSnoc(row, id, trace);
  }

  /** Any other event changes nothing but the status. */
  lemma OtherEvent(row: Command, id: CommandId, now: Instant, trace: seq<Event>)
    requires Fresh(row) && DeleteDevice(row.deviceId) !in trace && trace != []
    requires !Takes(row, id, now, trace, |trace| - 1) && !Records(row, id, now, trace, |trace| - 1)
    ensures var held, after := RunRow(Some(row), id, now, trace[..|trace| - 1]), RunRow(Some(row), id, now, trace);
            held.Some? && after.Some? && after.value == held.value.(status := after.value.status)
  {
    var n := |trace| - 1;
    Found(row, id, now, trace[..n]);
    AckedSnoc(row, id, trace);
    if trace[n].ApplyAck? {
      IgnoredAck(row, id, now, trace);
    }
  }

  lemma IgnoredAck(row: Command, id: CommandId, now: Instant, trace: seq<Event>)
    requires Fresh(row) && DeleteDevice(row.deviceId) !in trace && trace != [] && trace[|trace| - 1].ApplyAck?
    requires !Takes(row, id, now, trace, |trace| - 1)
    ensures RunRow(Some(row), id, now, trace) == RunRow(Some(row), id, now, trace[..|trace| - 1])
  {
    Found(row, id, now, trace[..|trace| - 1]);
    AckedSnoc(row, id, trace);
  }

  // ----- the columns -----

  /** The instant event `j` takes effect. */
  function At(now: Instant, trace: seq<Event>, j: nat): Instant
    requires j < |trace|
  {
    now + Elapsed(trace[..j])
  }

  ghost predicate SentTold(after: Command, row: Command, id: CommandId, now: Instant, trace: seq<Event>) {
    && (forall j: nat | j < |trace| && Records(row, id, now, trace, j) :: after.sentAt == Some(At(now, trace, j)))
    && ((forall j: nat | j < |trace| :: !Records(row, id, now, trace, j)) ==> after.sentAt.None?)
  }

  ghost predicate AcknowledgementTold(after: Command, row: Command, id: CommandId, now: Instant, trace: seq<Event>) {
    && (forall j: nat | j < |trace| && Takes(row, id, now, trace, j) && !AckedBefore(row, id, trace, j) ::
          after.acknowledgedAt == Some(At(now, trace, j)))
    && ((forall j: nat | j < |trace| :: !Takes(row, id, now, trace, j)) ==> after.acknowledgedAt.None?)
  }

  ghost predicate CompletionTold(after: Command, row: Command, id: CommandId, now: Instant, trace: seq<Event>) {
    && (forall j: nat | j < |trace| && Completes(row, id, now, trace, j) :: after.completedAt == Some(At(now, trace, j)))
    && (NothingCompletes(row, id, now, trace) ==> after.completedAt.None?)
  }

  ghost predicate NothingCompletes(row: Command, id: CommandId, now: Instant, trace: seq<Event>) {
    forall j: nat | j < |trace| :: !Completes(row, id, now, trace, j)
  }

  ghost predicate Completes(row: Command, id: CommandId, now: Instant, trace: seq<Event>, j: nat)
    requires j < |trace|
  {
    Takes(row, id, now, trace, j) && trace[j].ack != AckReceived
  }

  /** The two columns an ack may fill. */
  datatype Column = ResultColumn | ErrorColumn

  function Carried(e: Event, column: Column): Option<string>
    requires e.ApplyAck?
  {
    if column == ResultColumn then e.result else e.error
  }

  function Stored(row: Command, column: Column): Option<string> {
    if column == ResultColumn then row.result else row.error
  }

  /** Event `j` is the last taken ack that carries a value for the column. */
  ghost predicate Fills(row: Command, id: CommandId, now: Instant, trace: seq<Event>, column: Column, j: nat)
    requires j < |trace|
  {
    && Takes(row, id, now, trace, j) && Carried(trace[j], column).Some?
    && forall k: nat | j < k < |trace| && Takes(row, id, now, trace, k) :: Carried(trace[k], column).None?
  }

  ghost predicate NothingFills(row: Command, id: CommandId, now: Instant, trace: seq<Event>, column: Column) {
    forall j: nat | j < |trace| && Takes(row, id, now, trace, j) :: Carried(trace[j], column).None?
  }

  ghost predicate ColumnTold(after: Command, row: Command, id: CommandId, now: Instant, trace: seq<Event>, column: Column) {
    && (forall j: nat | j < |trace| && Fills(row, id, now, trace, column, j) ::
          Stored(after, column) == Carried(trace[j], column))
    && (NothingFills(row, id, now, trace, column) ==> Stored(after, column) == Stored(row, column))
  }

  lemma AllPrefix(row: Command, id: CommandId, now: Instant, trace: seq<Event>)
    requires trace != []
    ensures var n := |trace| - 1;
            forall j: nat | j < n ::
              && (Takes(row, id, now, trace[..n], j) <==> Takes(row, id, now, trace, j))
              && (Records(row, id, now, trace[..n], j) <==> Records(row, id, now, trace, j))
              && (AckedBefore(row, id, trace[..n], j) <==> AckedBefore(row, id, trace, j))
              && At(now, trace[..n], j) == At(now, trace, j) && trace[..n][j] == trace[j]
  {
    var n: nat := |trace| - 1;
    forall j: nat | j < n
      ensures && (Takes(row, id, now, trace[..n], j) <==> Takes(row, id, now, trace, j))
              && (Records(row, id, now, trace[..n], j) <==> Records(row, id, now, trace, j))
              && (AckedBefore(row, id, trace[..n], j) <==> AckedBefore(row, id, trace, j))
              && At(now, trace[..n], j) == At(now, trace, j)
    {
      ColumnsPrefix(row, id, now, trace, n, j);
    }
  }

  /** What one more event does to the row, in one place. */
  lemma OneMoreEvent(row: Command, id: CommandId, now: Instant, trace: seq<Event>) returns (held: Command, after: Command)
    requires Fresh(row) && DeleteDevice(row.deviceId) !in trace && trace != []
    ensures RunRow(Some(row), id, now, trace[..|trace| - 1]) == Some(held) && RunRow(Some(row), id, now, trace) == Some(after)
    ensures var n: nat := |trace| - 1;
            if Takes(row, id, now, trace, n) then
              && after == Answered(held, trace[n].ack, trace[n].result, trace[n].error, At(now, trace, n))
              && (AckedBefore(row, id, trace, n) ==> held.acknowledgedAt.Some?)
            else if Records(row, id, now, trace, n) then after == held.(status := Sent, sentAt := Some(At(now, trace, n)))
            else after == held.(status := after.status)
  {
    var n: nat := |trace| - 1;
    Found(row, id, now, trace[..n]);
    Found(row, id, now, trace);
    held, after := RunRow(Some(row), id, now, trace[..n]).value, RunRow(Some(row), id, now, trace).value;
    if Takes(row, id, now, trace, n) {
      TakenAck(row, id, now, trace);
      RowsMoveForward(row, id, now, trace[..n]);
    } else if Records(row, id, now, trace, n) {
      RecordedPublication(row, id, now, trace);
    } else {
      OtherEvent(row, id, now, trace);
    }
  }

  lemma {:induction false} SentByHistory(row: Command, id: CommandId, now: Instant, trace: seq<Event>)
    requires Fresh(row) && DeleteDevice(row.deviceId) !in trace
    ensures var after := RunRow(Some(row), id, now, trace); after.Some? && SentTold(after.value, row, id, now, trace)
  {
    if trace != [] {
      var n: nat := |trace| - 1;
      SentByHistory(row, id, now, trace[..n]);
      AllPrefix(row, id, now, trace);
      var held, after := OneMoreEvent(row, id, now, trace);
      if Records(row, id, now, trace, n) {
        assert forall j | 0 <= j < n :: trace[..n][j] == trace[j];
      }
    }
  }

  lemma {:induction false} AcknowledgementByHistory(row: Command, id: CommandId, now: Instant, trace: seq<Event>)
    requires Fresh(row) && DeleteDevice(row.deviceId) !in trace
    ensures var after := RunRow(Some(row), id, now, trace);
            after.Some? && AcknowledgementTold(after.value, row, id, now, trace)
  {
    if trace != [] {
      AcknowledgementByHistory(row, id, now, trace[..|trace| - 1]);
      AllPrefix(row, id, now, trace);
      var held, after := OneMoreEvent(row, id, now, trace);
    }
  }

  /** Nothing is taken after the ack that completes the command. */
  lemma CompletedOnce(row: Command, id: CommandId, now: Instant, trace: seq<Event>, j: nat, k: nat)
    requires j < k < |trace| && Completes(row, id, now, trace, j)
    ensures !Takes(row, id, now, trace, k)
  {
    EndsAtPrefix(row, id, now, trace, k, j);
    var first := SomeEndHasFirst(row, id, now, trace[..k], j);
  }

  lemma CompletesPrefix(row: Command, id: CommandId, now: Instant, trace: seq<Event>)
    requires trace != []
    ensures var n := |trace| - 1;
            forall j: nat | j < n ::
              (Completes(row, id, now, trace[..n], j) <==> Completes(row, id, now, trace, j))
              && At(now, trace[..n], j) == At(now, trace, j)
  {
    AllPrefix(row, id, now, trace);
  }

  lemma NothingCompletedBefore(row: Command, id: CommandId, now: Instant, trace: seq<Event>)
    requires trace != [] && NothingCompletes(row, id, now, trace)
    ensures NothingCompletes(row, id, now, trace[..|trace| - 1]) && !Completes(row, id, now, trace, |trace| - 1)
  {
    CompletesPrefix(row, id, now, trace);
  }

  lemma {:induction false} CompletionByHistory(row: Command, id: CommandId, now: Instant, trace: seq<Event>)
    requires Fresh(row) && DeleteDevice(row.deviceId) !in trace
    ensures var after := RunRow(Some(row), id, now, trace); after.Some? && CompletionTold(after.value, row, id, now, trace)
  {
    if trace != [] {
      var n: nat := |trace| - 1;
      CompletionByHistory(row, id, now, trace[..n]);
      var held, after := OneMoreEvent(row, id, now, trace);
      forall j: nat | j < |trace| && Completes(row, id, now, trace, j) ensures after.completedAt == Some(At(now, trace, j)) {
        if j < n {
          CompletesPrefix(row, id, now, trace);
          CompletedOnce(row, id, now, trace, j, n);
        }
      }
      if NothingCompletes(row, id, now, trace) {
        NothingCompletedBefore(row, id, now, trace);
      }
    }
  }

  lemma FillsBefore(row: Command, id: CommandId, now: Instant, trace: seq<Event>, column: Column, j: nat)
    requires j + 1 < |trace| && Fills(row, id, now, trace, column, j)
    ensures Fills(row, id, now, trace[..|trace| - 1], column, j)
    ensures Takes(row, id, now, trace, |trace| - 1) ==> Carried(trace[|trace| - 1], column).None?
  {
    AllPrefix(row, id, now, trace);
  }

  lemma NothingFilledBefore(row: Command, id: CommandId, now: Instant, trace: seq<Event>, column: Column)
    requires trace != [] && NothingFills(row, id, now, trace, column)
    ensures NothingFills(row, id, now, trace[..|trace| - 1], column)
    ensures Takes(row, id, now, trace, |trace| - 1) ==> Carried(trace[|trace| - 1], column).None?
  {
    AllPrefix(row, id, now, trace);
  }

  /** What one more event does to one column an ack may fill. */
  lemma ColumnStep(row: Command, id: CommandId, now: Instant, trace: seq<Event>, column: Column)
    returns (held: Command, after: Command)
    requires Fresh(row) && DeleteDevice(row.deviceId) !in trace && trace != []
    ensures RunRow(Some(row), id, now, trace[..|trace| - 1]) == Some(held) && RunRow(Some(row), id, now, trace) == Some(after)
    ensures Stored(after, column)
            == if Takes(row, id, now, trace, |trace| - 1) && Carried(trace[|trace| - 1], column).Some?
               then Carried(trace[|trace| - 1], column) else Stored(held, column)
  {
    held, after := OneMoreEvent(row, id, now, trace);
  }

  lemma {:induction false} ColumnByHistory(row: Command, id: CommandId, now: Instant, trace: seq<Event>, column: Column)
    requires Fresh(row) && DeleteDevice(row.deviceId) !in trace
    ensures var after := RunRow(Some(row), id, now, trace); after.Some? && ColumnTold(after.value, row, id, now, trace, column)
  {
    if trace != [] {
      var n: nat := |trace| - 1;
      ColumnByHistory(row, id, now, trace[..n], column);
      var held, after := ColumnStep(row, id, now, trace, column);
      forall j: nat | j < |trace| && Fills(row, id, now, trace, column, j)
        ensures Stored(after, column) == Carried(trace[j], column)
      {
        if j < n {
          FillsBefore(row, id, now, trace, column, j);
          assert Stored(held, column) == Carried(trace[..n][j], column);
        }
      }
      if NothingFills(row, id, now, trace, column) {
        NothingFilledBefore(row, id, now, trace, column);
      }
    }
  }

  /** The whole row, told by the events since it was `row`: the columns of the request stay; the status is the closed form;
      each date is the instant of the one event that sets it; result and error are those of the last ack taken that carries
      one. */
  ghost predicate Told(after: Command, row: Command, id: CommandId, now: Instant, trace: seq<Event>) {
    && MovesForward(row, after) && after.status == ClosedForm(row, id, now, trace)
    && SentTold(after, row, id, now, trace) && AcknowledgementTold(after, row, id, now, trace)
    && CompletionTold(after, row, id, now, trace)
    && forall column :: ColumnTold(after, row, id, now, trace, column)
  }

  lemma RowIsTold(s: Store, id: CommandId, trace: seq<Event>)
    requires id in s.commands && id in s.issued && Fresh(s.commands[id])
    requires id in Run(s, trace).commands
    ensures Told(Run(s, trace).commands[id], s.commands[id], id, s.now, trace)
  {
    var row := s.commands[id];
    RowIsIndependent(s, id, trace);
    DeletedWithItsDevice(row, id, s.now, trace);
    RowFollowsClosedForm(row, id, s.now, trace);
    SentByHistory(row, id, s.now, trace);
    AcknowledgementByHistory(row, id, s.now, trace);
    CompletionByHistory(row, id, s.now, trace);
    forall column ensures ColumnTold(Run(s, trace).commands[id], row, id, s.now, trace, column) {
      ColumnByHistory(row, id, s.now, trace, column);
    }
  }

  /** Every row, over every run of the system from a boot: inserted blank by some action, and told since then by the events of
      the run. With `CommandGate.RowHoldsItsRequest`, nothing in the table comes from anywhere else. */
  lemma EveryRowIsTold(boot: World, actions: seq<Action>, id: CommandId) returns (n: nat, c: CallId)
    requires Boot(boot) && id in RunWorld(boot, actions).store.commands
    ensures n < |actions| && actions[n].Resume? && actions[n].caller == c
    ensures var born, end := RunWorld(boot, actions[..n + 1]), RunWorld(boot, actions).store;
            && id !in RunWorld(boot, actions[..n]).store.commands
            && id in born.store.commands && Untouched(born.store.commands[id])
            && Told(end.commands[id], born.store.commands[id], id, born.store.now, Trace(born, actions[n + 1..]))
  {
    n, c := RowWasInserted(boot, actions, id);
    var born, rest := RunWorld(boot, actions[..n + 1]), actions[n + 1..];
    assert actions == actions[..n + 1] + rest;
    RunWorldConcat(boot, actions[..n + 1], rest);
    StoreFollowsTrace(born, rest);
    ReachableInv(boot, actions[..n + 1]);
    assert RowInv(born.store, id);
    RowIsTold(born.store, id, Trace(born, rest));
  }
}
