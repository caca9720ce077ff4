/** The telemetry statements of `DeviceRepository`, in place. */
module TelemetryRepositories {
  import opened Wrappers
  import opened Devices
  import opened Telemetry
  import opened TelemetryRuns

  lemma HistoryGrows(history: seq<Write>, w: Write)
    ensures var more := history + [w];
            more[..|history|] == history && Run(more) == Apply(Run(history), w, SeenBy(more, |history|))
  {
    assert (history + [w])[..|history|] == history;
  }

  /** A patch that read its row before `others` saw the row as it was then. */
  lemma SeenThen(before: seq<Write>, others: seq<Write>, w: Write)
    requires w.Merge? && w.readAt == |before|
    ensures SeenBy(before + others + [w], |before + others|) == RowOf(Run(before), w.deviceId)
  {
    var history := before + others + [w];
    assert history[..|before|] == before && history[..|before + others|] == before + others;
    if others == [] {
      assert before + others == before;
    }
  }

  class TelemetryRepository {
    var rows: TelemetryTable
    // History: no statement reads it.
    var history: seq<Write>

    ghost predicate Valid()
      reads this
    {
      rows == Run(history)
    }

    constructor ()
      ensures Valid() && rows == map[] && history == []
    {
      rows, history := map[], [];
    }

    /** `await`: other calls write. */
    method Interleave(others: seq<Write>)
      modifies this
      ensures Valid() && history == old(history) + others
    {
      history := history + others;
      rows := Run(history);
    }

    /** `upsertTelemetry`: overwrites the snapshot. */
    method UpsertTelemetry(deviceId: DeviceId, full: Snapshot)
      requires Valid()
      modifies this
      ensures Valid() && history == old(history) + [Push(deviceId, full)]
      ensures rows == old(rows)[deviceId := Pushed(full)]
    {
      rows := rows[deviceId := Row(Some(full.network), full.memory, full.storage, full.battery, full.location)];
      HistoryGrows(history, Push(deviceId, full));
      history := history + [Push(deviceId, full)];
    }

    /** `patchTelemetry`: reads the row; while other calls write whatever they do, creates it over the defaults or merges the
        groups present over what was read. `done` is false when the insert finds that the row exists by now. */
    method PatchTelemetry(deviceId: DeviceId, patch: Patch) returns (done: bool)
      requires Valid()
      modifies this
      ensures Valid() && old(history) < history
      ensures history[|history| - 1] == Merge(deviceId, patch, |old(history)|)
      ensures !done <==> deviceId !in old(rows) && deviceId in Run(history[..|history| - 1])
      ensures |history| == |old(history)| + 1 ==>
                done && rows == old(rows)[deviceId := Patched(RowOf(old(rows), deviceId), patch)]
    {
      var seen := RowOf(rows, deviceId);
      ghost var before := history;
      var others: seq<Write> := *;
      var w := Merge(deviceId, patch, |history|);
      Interleave(others);
      SeenThen(before, others, w);
      if others == [] {
        assert before + others == before;
        InsertIsPatchOverDefaults(patch);
      }
      HistoryGrows(history, w);
      done := WritePatch(deviceId, patch, seen);
      history := history + [w];
      assert history[..|history| - 1] == before + others;
    }

    /** The second half of the patch: the insert, or the update of the groups present over what was read. */
    method WritePatch(deviceId: DeviceId, patch: Patch, seen: Option<Row>) returns (done: bool)
      modifies this`rows
      ensures rows == Apply(old(rows), Merge(deviceId, patch, 0), seen)
      ensures !done <==> seen.None? && deviceId in old(rows)
    {
      done := true;
      if seen.None? {
        if deviceId in rows {
          return false;
        }
        rows := rows[deviceId := InsertedRow(patch)];
      } else if deviceId in rows {
        var current, row := seen.value, rows[deviceId];
        var network := if patch.network.Some? then Some(current.network.GetOr(map[]) + patch.network.value) else row.network;
        rows := rows[deviceId := Row(network,
                                     if patch.memory.Some? then current.memory + patch.memory.value else row.memory,
                                     if patch.storage.Some? then current.storage + patch.storage.value else row.storage,
                                     if patch.battery.Some? then current.battery + patch.battery.value else row.battery,
                                     if patch.location.Some? then current.location + patch.location.value else row.location)];
      }
    }
  }
}
