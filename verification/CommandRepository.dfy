/** The repository methods: each one is a single guarded statement on the tables, and one `Event` of the store. */
module CommandRepositories {
  import opened Wrappers
  import opened Devices
  import opened CommandStore

  lemma ListsTheSelection(commands: CommandTable, selection: set<CommandId>, ids: seq<CommandId>)
    requires IsListing(commands, selection, ids)
    ensures forall id :: id in ids <==> id in selection
  {
    assert forall id :: id in ids <==> id in (set i | i in ids);
  }

  class CommandRepository {
    var commands: CommandTable
    var devices: DeviceTable
    var now: Instant
    // History: no query reads these two.
    var issued: set<CommandId>
    var log: seq<Attempt>

    function Value(): Store
      reads this
    {
      Store(commands, devices, now, issued, log)
    }

    constructor (devices: DeviceTable, now: Instant)
      ensures Value() == Store(map[], devices, now, {}, [])
    {
      this.commands, this.devices, this.now, this.issued, this.log := map[], devices, now, {}, [];
    }

    /** Inserts a pending row under a fresh id, or is refused because the device is gone (foreign key). */
    method Create(deviceId: DeviceId, kind: CommandKind, payload: Json, expiresAt: Instant, id: CommandId)
      returns (created: bool)
      requires id !in issued
      modifies this
      ensures Value() == Apply(old(Value()), Insert(id, deviceId, kind, payload, expiresAt))
      ensures created <==> deviceId in old(devices)
      ensures created ==> id in commands && commands[id].createdAt == now
      ensures created ==> && commands[id].deviceId == deviceId && commands[id].kind == kind
                          && commands[id].payload == payload && commands[id].expiresAt == expiresAt
      ensures created ==> && commands[id].status == Pending && commands[id].result.None? && commands[id].error.None?
                          && commands[id].sentAt.None? && commands[id].acknowledgedAt.None? && commands[id].completedAt.None?
    {
      created := deviceId in devices;
      if created {
        commands := commands[id := NewCommand(deviceId, kind, payload, now, expiresAt)];
        issued := issued + {id};
      }
    }

    method FindById(id: CommandId) returns (row: Option<Command>)
      ensures row.Some? <==> id in commands
      ensures row.Some? ==> row.value == commands[id]
    {
      row := if id in commands then Some(commands[id]) else None;
    }

    /** The deliverable commands of a device, oldest first. */
    method FindDeliverable(deviceId: DeviceId) returns (ids: seq<CommandId>)
      ensures IsListing(commands, Selected(Value(), Some(deviceId)), ids)
      ensures forall id :: id in ids
                <==> id in commands && commands[id].deviceId == deviceId && commands[id].status in {Pending, Sent}
                     && now < commands[id].expiresAt
      ensures forall i, j | 0 <= i < j < |ids| ::
                ids[i] != ids[j] && commands[ids[i]].createdAt <= commands[ids[j]].createdAt
    {
      var selection := set id | id in commands && Deliverable(commands[id], deviceId, now);
      ids := OldestFirst(selection);
      ListsTheSelection(commands, selection, ids);
    }

    /** The pending commands of the devices online, oldest first. */
    method FindPendingForOnlineDevices() returns (ids: seq<CommandId>)
      ensures IsListing(commands, Selected(Value(), None), ids)
      ensures forall id :: id in ids
                <==> id in commands && commands[id].status == Pending && now < commands[id].expiresAt
                     && commands[id].deviceId in devices && devices[commands[id].deviceId].online
      ensures forall i, j | 0 <= i < j < |ids| ::
                ids[i] != ids[j] && commands[ids[i]].createdAt <= commands[ids[j]].createdAt
    {
      var selection := set id | id in commands
        && commands[id].status == Pending && commands[id].expiresAt > now
        && commands[id].deviceId in devices && devices[commands[id].deviceId].online;
      ids := OldestFirst(selection);
      ListsTheSelection(commands, selection, ids);
    }

    /** `order by created_at`: rows of the same date come in any order. */
    method OldestFirst(selection: set<CommandId>) returns (ids: seq<CommandId>)
      requires selection <= commands.Keys
      ensures IsListing(commands, selection, ids)
      ensures forall i, j | 0 <= i < j < |ids| :: commands[ids[i]].createdAt <= commands[ids[j]].createdAt
    {
      ids := [];
      var rest := selection;
      while rest != {}
        invariant rest <= selection
        invariant IsListing(commands, selection - rest, ids)
        invariant forall i, id | 0 <= i < |ids| && id in rest :: commands[ids[i]].createdAt <= commands[id].createdAt
        decreases rest
      {
        var oldest :| oldest in rest;
        var others := rest - {oldest};
        while others != {}
          invariant oldest in rest && others <= rest
          invariant forall id | id in rest - others :: commands[oldest].createdAt <= commands[id].createdAt
          decreases others
        {
          var id :| id in others;
          if commands[id].createdAt < commands[oldest].createdAt {
            oldest := id;
          }
          others := others - {id};
        }
        assert (set id | id in ids + [oldest]) == (set id | id in ids) + {oldest};
        assert selection - (rest - {oldest}) == (selection - rest) + {oldest};
        ids, rest := ids + [oldest], rest - {oldest};
      }
      assert selection - rest == selection;
    }

    /** Returns the updated row, or nothing when the command already moved on. */
    method MarkSent(id: CommandId) returns (row: Option<Command>)
      modifies this
      ensures Value() == Apply(old(Value()), CommandStore.MarkSent(id))
      ensures row.Some? <==> id in old(commands) && old(commands)[id].status == Pending
      ensures row.Some? ==> id in commands && row.value == commands[id]
      ensures row.Some? ==> row.value == old(commands)[id].(status := Sent, sentAt := Some(now))
    {
      row := None;
      if id in commands && commands[id].status == Pending {
        commands := commands[id := commands[id].(status := Sent, sentAt := Some(now))];
        row := Some(commands[id]);
      } else if id in commands {
        assert commands[id := commands[id]] == commands;
      }
    }

    /** Applies an ack scoped to its device, from the statuses the caller allows. */
    method ApplyAck(id: CommandId, deviceId: DeviceId, ack: Ack, allowedFrom: set<Status>, result: Option<Json>,
                    error: Option<string>) returns (row: Option<Command>)
      modifies this
      ensures allowedFrom == AllowedFrom(ack) ==>
                Value() == Apply(old(Value()), CommandStore.ApplyAck(id, deviceId, ack, result, error))
      ensures row.Some? <==> id in old(commands) && AckMatches(old(commands)[id], deviceId, allowedFrom)
      ensures row.Some? ==> commands == old(commands)[id := Answered(old(commands)[id], ack, result, error, now)]
      ensures row.Some? ==> row.value == commands[id]
      ensures row.Some? ==>
                row.value.status == match ack case AckReceived => Acknowledged case AckSucceeded => Succeeded case AckFailed => Failed
      ensures row.Some? ==>
                var current := old(commands)[id];
                && (result.None? ==> row.value.result == current.result) && (result.Some? ==> row.value.result == result)
                && (error.None? ==> row.value.error == current.error) && (error.Some? ==> row.value.error == error)
      ensures row.None? ==> commands == old(commands)
      ensures unchanged(`devices) && unchanged(`now) && unchanged(`issued) && unchanged(`log)
    {
      row := None;
      if id in commands && commands[id].deviceId == deviceId && commands[id].status in allowedFrom {
        var current := commands[id];
        commands := commands[id := current.(
            status := AckStatus(ack),
            result := if result.Some? then result else current.result,
            error := if error.Some? then error else current.error,
            acknowledgedAt := Some(current.acknowledgedAt.GetOr(now)),
            completedAt := if ack == AckReceived then current.completedAt else Some(now))];
        row := Some(commands[id]);
      }
    }

    /** Gives up on a command that has not completed. */
    method Expire(id: CommandId)
      modifies this
      ensures Value() == Apply(old(Value()), CommandStore.Expire(id))
    {
      if id in commands {
        if commands[id].status in {Pending, Sent, Acknowledged} {
          commands := commands[id := commands[id].(status := Expired)];
        } else {
          assert commands[id := commands[id]] == commands;
        }
      }
    }

    method ExpireOverdue(scope: Option<DeviceId>)
      modifies this
      ensures Value() == Apply(old(Value()), CommandStore.ExpireOverdue(scope))
    {
      commands := map id | id in commands ::
        var row := commands[id];
        if row.status in {Pending, Sent} && row.expiresAt <= now && (scope.None? || scope.value == row.deviceId)
        then row.(status := Expired)
        else row;
    }

    /** `DeviceRepository.setPresence`. */
    method SetPresence(deviceId: DeviceId, online: bool)
      modifies this
      ensures Value() == Apply(old(Value()), CommandStore.SetPresence(deviceId, online))
      ensures devices.Keys == old(devices).Keys && (deviceId in devices ==> devices[deviceId].online == online)
    {
      if deviceId in devices {
        devices := devices[deviceId := devices[deviceId].(online := online)];
      }
    }

    /** `publishJson` as the store sees it: the attempt is logged, nothing else changes. */
    method RecordPublish(caller: CallId, id: CommandId, confirmed: bool)
      modifies this`log
      ensures Value() == Apply(old(Value()), Publish(caller, id, confirmed))
    {
      log := log + [Attempt(caller, id, confirmed)];
    }

    /** The tables as other calls left them. */
    method Become(store: Store)
      modifies this
      ensures Value() == store
    {
      commands, devices, now, issued, log := store.commands, store.devices, store.now, store.issued, store.log;
    }
  }
}
