/**
 * Telemetry over whole histories of pushes, patches and deletions of devices.
 *
 * A patch reads the row, then writes the merge over what it read; anything may happen in between. The main result says
 * exactly when each stored field is the last value written to that field: when no patch of its group puts back a value that
 * has changed since the patch read it.
 */
module TelemetryRuns {
  import opened Wrappers
  import opened Devices
  import opened Telemetry

  /** The writes, in the order they take effect. A patch carries how many of them had taken effect when it read its row. A
      deleted device takes its row along (`on delete cascade`). */
  datatype Write =
    | Push(deviceId: DeviceId, full: Snapshot)
    | Merge(deviceId: DeviceId, patch: Patch, readAt: nat)
    | Delete(deviceId: DeviceId)

  function Content(w: Write): Patch {
    match w
    case Push(_, full) =>
      Patch(Some(full.network), Some(full.memory), Some(full.storage), Some(full.battery), Some(full.location))
    case Merge(_, patch, _) => patch
    case Delete(_) => Patch(None, None, None, None, None)
  }

  /** The schema of the inventory demands every field of every group. */
  predicate WellFormed(w: Write) {
    w.Push? ==> forall group: Group :: Part(Content(w), group).value.Keys == GroupFields(group)
  }

  /** One write, of a patch that read `seen`. An insert that finds a row violates the primary key, an update that finds
      none changes nothing. */
  function Apply(table: TelemetryTable, w: Write, seen: Option<Row>): TelemetryTable {
    match w
    case Push(deviceId, full) => table[deviceId := Pushed(full)]
    case Merge(deviceId, patch, _) =>
      if !TakesEffect(table, w, seen) then table
      else table[deviceId := if seen.None? then InsertedRow(patch) else Updated(table[deviceId], seen.value, patch)]
    case Delete(deviceId) => table - {deviceId}
  }

  predicate TakesEffect(table: TelemetryTable, w: Write, seen: Option<Row>) {
    w.Merge? ==> (seen.Some? <==> w.deviceId in table)
  }

  function Run(history: seq<Write>): TelemetryTable
    decreases |history|, 0
  {
    if history == [] then map[]
    else
      var n := |history| - 1;
      Apply(Run(history[..n]), history[n], SeenBy(history, n))
  }

  /** When a patch read its row: not after its own write. */
  function ReadAt(history: seq<Write>, j: nat): nat
    requires j < |history|
  {
    if history[j].Merge? && history[j].readAt < j then history[j].readAt else j
  }

  /** What write `j` read, if it is a patch. */
  function SeenBy(history: seq<Write>, j: nat): Option<Row>
    requires j < |history|
    decreases j, 1
  {
    RowOf(Run(history[..ReadAt(history, j)]), history[j].deviceId)
  }

  function ValueOf(history: seq<Write>, deviceId: DeviceId, group: Group, field: Field): Option<Value> {
    Read(RowOf(Run(history), deviceId), group, field)
  }

  predicate Effective(history: seq<Write>, j: nat)
    requires j < |history|
  {
    TakesEffect(Run(history[..j]), history[j], SeenBy(history, j))
  }

  // ----- the last writer -----

  predicate Writes(w: Write, deviceId: DeviceId, group: Group, field: Field) {
    w.deviceId == deviceId && Written(Content(w), group, field).Some?
  }

  /** The last value written to the field since the device was last deleted, or its default if nobody wrote it in its row;
      `None` without a row. Writes that took no effect do not count. */
  function LastWritten(history: seq<Write>, deviceId: DeviceId, group: Group, field: Field): Option<Value> {
    if history == [] then None
    else
      var n := |history| - 1;
      var before, w := LastWritten(history[..n], deviceId, group, field), history[n];
      if w.deviceId != deviceId || !Effective(history, n) then before
      else if w.Delete? then None
      else if Writes(w, deviceId, group, field) then Written(Content(w), group, field)
      else if deviceId !in Run(history[..n]) then Default(group, field)
      else before
  }

  /** Patch `j` rewrites the group without writing the field, and so puts back the value it read, which is not the one the
      field has by then. */
  predicate PutsBackStale(history: seq<Write>, deviceId: DeviceId, group: Group, field: Field, j: nat)
    requires j < |history|
  {
    && history[j].Merge? && history[j].deviceId == deviceId && Effective(history, j) && SeenBy(history, j).Some?
    && Part(history[j].patch, group).Some? && !Writes(history[j], deviceId, group, field)
    && ValueOf(history[..ReadAt(history, j)], deviceId, group, field) != ValueOf(history[..j], deviceId, group, field)
  }

  /** A push writes every field there is. */
  lemma PushWritesAll(w: Write, group: Group, field: Field)
    requires WellFormed(w) && w.Push? && field in GroupFields(group)
    ensures Writes(w, w.deviceId, group, field)
  {
    assert Part(Content(w), group).value.Keys == GroupFields(group);
  }

  /** One write, one field: the new value if it gives one; the default in a row it creates; otherwise the old one, or, in a
      group it rewrites, the one it read. */
  lemma WriteOneField(table: TelemetryTable, w: Write, seen: Option<Row>, deviceId: DeviceId, group: Group, field: Field)
    requires WellFormed(w) && field in GroupFields(group)
    ensures var before := RowOf(table, deviceId);
            Read(RowOf(Apply(table, w, seen), deviceId), group, field)
            == if w.deviceId != deviceId || !TakesEffect(table, w, seen) then Read(before, group, field)
               else if w.Delete? then None
               else if Writes(w, deviceId, group, field) then Written(Content(w), group, field)
               else if before.None? then Default(group, field)
               else if Part(Content(w), group).Some? then Read(seen, group, field)
               else Read(before, group, field)
  {
    if w.deviceId == deviceId && TakesEffect(table, w, seen) {
      match w
      case Push(_, _) => PushWritesAll(w, group, field);
      case Merge(_, patch, _) =>
        if seen.None? {
          InsertOneField(patch, group, field);
        } else {
          UpdateOneField(table[deviceId], seen.value, patch, group, field);
        }
      case Delete(_) =>
    }
  }

  lemma SeenPrefix(history: seq<Write>, n: nat, j: nat)
    requires j < n <= |history|
    ensures ReadAt(history[..n], j) == ReadAt(history, j) && SeenBy(history[..n], j) == SeenBy(history, j)
    ensures Effective(history[..n], j) == Effective(history, j)
    ensures history[..n][..j] == history[..j] && history[..n][..ReadAt(history, j)] == history[..ReadAt(history, j)]
  {
    assert history[..n][..j] == history[..j];
    assert history[..n][..ReadAt(history, j)] == history[..ReadAt(history, j)];
  }

  lemma StalePrefix(history: seq<Write>, deviceId: DeviceId, group: Group, field: Field, n: nat, j: nat)
    requires j < n <= |history|
    ensures PutsBackStale(history[..n], deviceId, group, field, j) == PutsBackStale(history, deviceId, group, field, j)
  {
    SeenPrefix(history, n, j);
  }

  /** The last write of a history keeps the field at its last written value exactly when it puts back nothing stale. */
  lemma LastWriteKeeps(history: seq<Write>, deviceId: DeviceId, group: Group, field: Field)
    requires history != [] && WellFormed(history[|history| - 1]) && field in GroupFields(group)
    requires var before := history[..|history| - 1];
             ValueOf(before, deviceId, group, field) == LastWritten(before, deviceId, group, field)
    ensures ValueOf(history, deviceId, group, field) == LastWritten(history, deviceId, group, field)
            <==> !PutsBackStale(history, deviceId, group, field, |history| - 1)
  {
    var n := |history| - 1;
    WriteOneField(Run(history[..n]), history[n], SeenBy(history, n), deviceId, group, field);
  }

  /** After `n` writes the field is the last value written to it. */
  predicate KeptAt(history: seq<Write>, deviceId: DeviceId, group: Group, field: Field, n: nat)
    requires n <= |history|
  {
    ValueOf(history[..n], deviceId, group, field) == LastWritten(history[..n], deviceId, group, field)
  }

  predicate AlwaysLastWritten(history: seq<Write>, deviceId: DeviceId, group: Group, field: Field) {
    forall n | 0 <= n <= |history| :: KeptAt(history, deviceId, group, field, n)
  }

  predicate NothingStale(history: seq<Write>, deviceId: DeviceId, group: Group, field: Field) {
    forall j | 0 <= j < |history| :: !PutsBackStale(history, deviceId, group, field, j)
  }

  /** Whatever pushes, patches and deletions interleave: a field is the last value written to it, at every moment of the
      history, exactly when no patch puts back a stale one. */
  lemma {:induction false} LastWriterWinsExactly(history: seq<Write>, deviceId: DeviceId, group: Group, field: Field)
    requires forall w | w in history :: WellFormed(w)
    requires field in GroupFields(group)
    ensures AlwaysLastWritten(history, deviceId, group, field) <==> NothingStale(history, deviceId, group, field)
  {
    if history == [] {
      assert history[..0] == [];
    } else {
      var n := |history| - 1;
      assert forall w | w in history[..n] :: w in history;
      assert history[n] in history && history[..|history|] == history;
      LastWriterWinsExactly(history[..n], deviceId, group, field);
      KeptPrefix(history, deviceId, group, field);
      NothingStalePrefix(history, deviceId, group, field);
      if AlwaysLastWritten(history[..n], deviceId, group, field) {
        assert KeptAt(history[..n], deviceId, group, field, n) && history[..n][..n] == history[..n];
        LastWriteKeeps(history, deviceId, group, field);
      }
    }
  }

  lemma KeptPrefix(history: seq<Write>, deviceId: DeviceId, group: Group, field: Field)
    requires history != []
    ensures AlwaysLastWritten(history, deviceId, group, field)
            <==> AlwaysLastWritten(history[..|history| - 1], deviceId, group, field)
                 && KeptAt(history, deviceId, group, field, |history|)
  {
    var before := history[..|history| - 1];
    forall n | 0 <= n <= |before|
      ensures KeptAt(before, deviceId, group, field, n) == KeptAt(history, deviceId, group, field, n)
    {
      assert before[..n] == history[..n];
    }
  }

  lemma NothingStalePrefix(history: seq<Write>, deviceId: DeviceId, group: Group, field: Field)
    requires history != []
    ensures NothingStale(history, deviceId, group, field)
            <==> NothingStale(history[..|history| - 1], deviceId, group, field)
                 && !PutsBackStale(history, deviceId, group, field, |history| - 1)
  {
    var n := |history| - 1;
    forall j | 0 <= j < n
      ensures PutsBackStale(history[..n], deviceId, group, field, j) == PutsBackStale(history, deviceId, group, field, j)
    {
      StalePrefix(history, deviceId, group, field, n, j);
    }
  }

  // ----- patches that are not interrupted -----

  /** Between the read and the write of patch `j`, nobody writes the field and the device is not deleted. */
  predicate Undisturbed(history: seq<Write>, deviceId: DeviceId, group: Group, field: Field, j: nat)
    requires j < |history|
  {
    forall k | ReadAt(history, j) <= k < j ::
      history[k] != Delete(deviceId) && !Writes(history[k], deviceId, group, field)
  }

  predicate AllUndisturbed(history: seq<Write>, deviceId: DeviceId, group: Group, field: Field) {
    forall j | 0 <= j < |history| && history[j].Merge? && history[j].deviceId == deviceId ::
      Undisturbed(history, deviceId, group, field, j)
  }

  /** While a row is neither deleted nor its field written, the last written value stays. */
  lemma {:induction false} LastWrittenStays(history: seq<Write>, deviceId: DeviceId, group: Group, field: Field, m: nat, n: nat)
    requires m <= n <= |history| && deviceId in Run(history[..m])
    requires forall k | m <= k < n :: history[k] != Delete(deviceId) && !Writes(history[k], deviceId, group, field)
    ensures deviceId in Run(history[..n])
    ensures LastWritten(history[..n], deviceId, group, field) == LastWritten(history[..m], deviceId, group, field)
  {
    if m < n {
      LastWrittenStays(history, deviceId, group, field, m, n - 1);
      assert history[..n][..n - 1] == history[..n - 1];
    }
  }

  /** An undisturbed patch puts back nothing stale. */
  lemma UndisturbedIsNotStale(history: seq<Write>, deviceId: DeviceId, group: Group, field: Field, j: nat)
    requires j < |history| && AlwaysLastWritten(history[..j], deviceId, group, field)
    requires history[j].Merge? && history[j].deviceId == deviceId ==> Undisturbed(history, deviceId, group, field, j)
    ensures !PutsBackStale(history, deviceId, group, field, j)
  {
    var m := ReadAt(history, j);
    assert KeptAt(history[..j], deviceId, group, field, m) && KeptAt(history[..j], deviceId, group, field, j);
    assert history[..j][..m] == history[..m] && history[..j][..j] == history[..j];
    if history[j].Merge? && history[j].deviceId == deviceId && SeenBy(history, j).Some? {
      LastWrittenStays(history, deviceId, group, field, m, j);
    }
  }

  lemma {:induction false} UndisturbedIsLastWritten(history: seq<Write>, deviceId: DeviceId, group: Group, field: Field)
    requires forall w | w in history :: WellFormed(w)
    requires field in GroupFields(group) && AllUndisturbed(history, deviceId, group, field)
    ensures AlwaysLastWritten(history, deviceId, group, field)
  {
    if history == [] {
      assert history[..0] == [];
    } else {
      var n := |history| - 1;
      assert forall w | w in history[..n] :: w in history;
      assert history[n] in history;
      UndisturbedPrefix(history, deviceId, group, field);
      UndisturbedIsLastWritten(history[..n], deviceId, group, field);
      UndisturbedIsNotStale(history, deviceId, group, field, n);
      assert KeptAt(history[..n], deviceId, group, field, n) && history[..n][..n] == history[..n];
      assert history[..|history|] == history;
      LastWriteKeeps(history, deviceId, group, field);
      KeptPrefix(history, deviceId, group, field);
    }
  }

  lemma UndisturbedPrefix(history: seq<Write>, deviceId: DeviceId, group: Group, field: Field)
    requires history != [] && AllUndisturbed(history, deviceId, group, field)
    ensures AllUndisturbed(history[..|history| - 1], deviceId, group, field)
  {
    var before := history[..|history| - 1];
    forall j | 0 <= j < |before| && before[j].Merge? && before[j].deviceId == deviceId
      ensures Undisturbed(before, deviceId, group, field, j)
    {
      assert before[j] == history[j] && Undisturbed(history, deviceId, group, field, j);
      assert forall k | 0 <= k < j :: before[k] == history[k];
    }
  }

  /** Write `i` is the last to write this field of this device, which was not deleted since. */
  predicate LastWriter(history: seq<Write>, deviceId: DeviceId, group: Group, field: Field, i: nat) {
    && i < |history| && Writes(history[i], deviceId, group, field) && Effective(history, i)
    && forall j | i < j < |history| ::
         history[j] != Delete(deviceId) && (Writes(history[j], deviceId, group, field) ==> !Effective(history, j))
  }

  lemma {:induction false} LastWriterWrote(history: seq<Write>, deviceId: DeviceId, group: Group, field: Field, i: nat)
    requires LastWriter(history, deviceId, group, field, i)
    ensures LastWritten(history, deviceId, group, field) == Written(Content(history[i]), group, field)
    ensures deviceId in Run(history)
  {
    var n := |history| - 1;
    if i < n {
      LastWriterPrefix(history, deviceId, group, field, i);
      LastWriterWrote(history[..n], deviceId, group, field, i);
      OtherWriteKeeps(history, deviceId, group, field);
    }
  }

  lemma LastWriterPrefix(history: seq<Write>, deviceId: DeviceId, group: Group, field: Field, i: nat)
    requires LastWriter(history, deviceId, group, field, i) && i < |history| - 1
    ensures LastWriter(history[..|history| - 1], deviceId, group, field, i)
  {
    var n := |history| - 1;
    forall j | i <= j < n ensures Effective(history[..n], j) == Effective(history, j) && history[..n][j] == history[j] {
      SeenPrefix(history, n, j);
    }
  }

  /** A write that neither takes the row away nor writes the field leaves its last written value. */
  lemma OtherWriteKeeps(history: seq<Write>, deviceId: DeviceId, group: Group, field: Field)
    requires history != [] && deviceId in Run(history[..|history| - 1])
    requires var w := history[|history| - 1];
             w != Delete(deviceId) && (Writes(w, deviceId, group, field) ==> !Effective(history, |history| - 1))
    ensures deviceId in Run(history)
    ensures LastWritten(history, deviceId, group, field) == LastWritten(history[..|history| - 1], deviceId, group, field)
  {
  }

  /** The documented rule, where nobody writes the field between the read and the write of a patch: a stored field is the
      last value written to it, over pushes, patches and deletions of any devices. */
  lemma LastWriterWins(history: seq<Write>, deviceId: DeviceId, group: Group, field: Field, i: nat)
    requires forall w | w in history :: WellFormed(w)
    requires field in GroupFields(group) && AllUndisturbed(history, deviceId, group, field)
    requires LastWriter(history, deviceId, group, field, i)
    ensures ValueOf(history, deviceId, group, field) == Written(Content(history[i]), group, field)
  {
    UndisturbedIsLastWritten(history, deviceId, group, field);
    LastWriterWrote(history, deviceId, group, field, i);
    assert KeptAt(history, deviceId, group, field, |history|) && history[..|history|] == history;
  }

  /** Nothing wrote the field since the history began or the device was last deleted, at `from`. */
  predicate Unwritten(history: seq<Write>, deviceId: DeviceId, group: Group, field: Field, from: nat) {
    && from <= |history| && (from == 0 || history[from - 1] == Delete(deviceId))
    && forall j | from <= j < |history| :: !Writes(history[j], deviceId, group, field)
  }

  lemma {:induction false} UnwrittenIsDefault(history: seq<Write>, deviceId: DeviceId, group: Group, field: Field, from: nat)
    requires Unwritten(history, deviceId, group, field, from)
    ensures LastWritten(history, deviceId, group, field)
         == if deviceId in Run(history) then Default(group, field) else None
  {
    if history != [] {
      var n := |history| - 1;
      if from <= n {
        UnwrittenIsDefault(history[..n], deviceId, group, field, from);
      }
    }
  }

  /** A field nobody wrote, since the device was last deleted if it was, is at its default, and absent while there is no
      row. */
  lemma NeverWrittenIsDefault(history: seq<Write>, deviceId: DeviceId, group: Group, field: Field, from: nat)
    requires forall w | w in history :: WellFormed(w)
    requires field in GroupFields(group) && AllUndisturbed(history, deviceId, group, field)
    requires Unwritten(history, deviceId, group, field, from)
    ensures ValueOf(history, deviceId, group, field)
            == if deviceId !in Run(history) then None
               else match group
                    case Network => None
                    case Battery =>
                      Some(if field == "charging" then Flag(false) else if field == "health" then Text("unknown") else Number(0.0))
                    case _ => Some(Number(0.0))
  {
    UndisturbedIsLastWritten(history, deviceId, group, field);
    UnwrittenIsDefault(history, deviceId, group, field, from);
    assert KeptAt(history, deviceId, group, field, |history|) && history[..|history|] == history;
  }

  /** Two patches of one group that read the same row lose an update: the level the first wrote is gone when the second
      writes its charging state over what it had read. */
  lemma LostUpdate(deviceId: DeviceId, full: Snapshot, level: Value, charging: Value)
    requires "level" in full.battery && full.battery["level"] != level
    ensures var setLevel := Patch(None, None, None, Some(map["level" := level]), None);
            var setCharging := Patch(None, None, None, Some(map["charging" := charging]), None);
            var history := [Push(deviceId, full), Merge(deviceId, setLevel, 1), Merge(deviceId, setCharging, 1)];
            && LastWriter(history, deviceId, Battery, "level", 1)
            && ValueOf(history, deviceId, Battery, "level") == Some(full.battery["level"])
  {
    var setLevel := Patch(None, None, None, Some(map["level" := level]), None);
    var setCharging := Patch(None, None, None, Some(map["charging" := charging]), None);
    var history := [Push(deviceId, full), Merge(deviceId, setLevel, 1), Merge(deviceId, setCharging, 1)];
    RunOfThree(history);
    UpdateOneField(Pushed(full), Pushed(full), setLevel, Battery, "level");
    UpdateOneField(Updated(Pushed(full), Pushed(full), setLevel), Pushed(full), setCharging, Battery, "level");
  }

  lemma RunOfThree(history: seq<Write>)
    requires |history| == 3 && history[0].Push? && history[1].Merge? && history[2].Merge?
    requires history[1].readAt == history[2].readAt == 1
    requires history[0].deviceId == history[1].deviceId == history[2].deviceId
    ensures var d, pushed := history[0].deviceId, Pushed(history[0].full);
            && Effective(history, 1) && Effective(history, 2) && d in Run(history)
            && Run(history)[d] == Updated(Updated(pushed, pushed, history[1].patch), pushed, history[2].patch)
  {
    var d, pushed := history[0].deviceId, Pushed(history[0].full);
    assert history[..0] == [] && history[..1][..0] == [] && history[..2][..1] == history[..1] && history[..3] == history;
    assert Run(history[..1]) == map[d := pushed];
    assert SeenBy(history, 1) == Some(pushed) && SeenBy(history, 2) == Some(pushed);
    SeenPrefix(history, 2, 1);
    assert d in Run(history[..2]) && Run(history[..2])[d] == Updated(pushed, pushed, history[1].patch);
  }

  // ----- the rows there are -----

  /** Write `i` is a push, or a patch that read no row, for the device, which was not deleted since. */
  predicate Founds(history: seq<Write>, deviceId: DeviceId, i: int) {
    && 0 <= i < |history| && history[i].deviceId == deviceId
    && (history[i].Push? || (history[i].Merge? && SeenBy(history, i).None?))
    && forall j | i < j < |history| :: history[j] != Delete(deviceId)
  }

  lemma {:induction false} RowExistsOnceWritten(history: seq<Write>, deviceId: DeviceId)
    ensures deviceId in Run(history) <==> exists i :: Founds(history, deviceId, i)
  {
    if history != [] {
      var n := |history| - 1;
      RowExistsOnceWritten(history[..n], deviceId);
      forall i | 0 <= i < n
        ensures Founds(history, deviceId, i) <==> Founds(history[..n], deviceId, i) && history[n] != Delete(deviceId)
      {
        SeenPrefix(history, n, i);
        assert forall j | 0 <= j < n :: history[..n][j] == history[j];
      }
      assert Founds(history, deviceId, n)
          <==> history[n].deviceId == deviceId && (history[n].Push? || (history[n].Merge? && SeenBy(history, n).None?));
    }
  }
}
