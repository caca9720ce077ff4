/**
 * The `device_commands` table and the atomic statements that touch it.
 *
 * Every statement the system sends to the database is an `Event`; `Apply` is its effect. A run of the whole
 * system, however its calls interleave, is a sequence of events.
 */
module CommandStore {
  import opened Wrappers
  import opened Devices

  /** A UUID: the database draws it, and never draws one it drew before. */
  type CommandId = nat

  /** One call of the service (an admin request, a device message, a reconnection). */
  type CallId = nat

  type Json = string

  datatype CommandKind =
    | Lock | Unlock | Reboot | SetLockMessage | RemoveDeviceOwner | FactoryReset | ClearAppsData | RunApp
    | UninstallApp | InstallApp | BlockApp | UnblockApp | KioskMode | GetLocation | GetWifiList | RemoteCast
    | StopRemoteCast | Refresh

  /** The kinds an admin may create: one variant each of `createCommandSchema`. */
  predicate AdminKind(kind: CommandKind) {
    kind in {Lock, Unlock, Reboot, SetLockMessage, RemoveDeviceOwner}
  }

  datatype Status = Pending | Sent | Acknowledged | Succeeded | Failed | Expired

  function Rank(status: Status): nat {
    match status
    case Pending => 0
    case Sent => 1
    case Acknowledged => 2
    case Succeeded | Failed | Expired => 3
  }

  predicate Terminal(status: Status) {
    Rank(status) == 3
  }

  /** What a device may answer. */
  datatype Ack = AckReceived | AckSucceeded | AckFailed

  function AckStatus(ack: Ack): Status {
    match ack
    case AckReceived => Acknowledged
    case AckSucceeded => Succeeded
    case AckFailed => Failed
  }

  datatype Command = Command(
    deviceId: DeviceId,
    kind: CommandKind,
    payload: Json,
    status: Status,
    result: Option<Json>,
    error: Option<string>,
    sentAt: Option<Instant>,
    acknowledgedAt: Option<Instant>,
    completedAt: Option<Instant>,
    createdAt: Instant,
    expiresAt: Instant)

  type CommandTable = map<CommandId, Command>

  // ----- one row under one statement -----

  function NewCommand(deviceId: DeviceId, kind: CommandKind, payload: Json, now: Instant, expiresAt: Instant): Command {
    Command(deviceId, kind, payload, Pending, None, None, None, None, None, now, expiresAt)
  }

  function MarkedSent(row: Command, now: Instant): Command {
    if row.status == Pending then row.(status := Sent, sentAt := Some(now)) else row
  }

  /** The statuses an ack may overwrite: an acknowledgement never overwrites another answer. */
  function AllowedFrom(ack: Ack): set<Status> {
    if ack == AckReceived then {Pending, Sent} else {Pending, Sent, Acknowledged}
  }

  predicate AckMatches(row: Command, deviceId: DeviceId, allowedFrom: set<Status>) {
    row.deviceId == deviceId && row.status in allowedFrom
  }

  /** An `undefined` result or error leaves its column alone; the first acknowledgement date is kept. */
  function Answered(row: Command, ack: Ack, result: Option<Json>, error: Option<string>, now: Instant): Command {
    row.(
    status := AckStatus(ack),
    result := if result.Some? then result else row.result,
    error := if error.Some? then error else row.error,
    acknowledgedAt := Some(row.acknowledgedAt.GetOr(now)),
    completedAt := if ack == AckReceived then row.completedAt else Some(now))
  }

  function GivenUp(row: Command): Command {
    if row.status in {Pending, Sent, Acknowledged} then row.(status := Expired) else row
  }

  predicate InScope(scope: Option<DeviceId>, deviceId: DeviceId) {
    scope.None? || scope.value == deviceId
  }

  function Overdue(row: Command, scope: Option<DeviceId>, now: Instant): Command {
    if row.status in {Pending, Sent} && row.expiresAt <= now && InScope(scope, row.deviceId)
    then row.(status := Expired)
    else row
  }

  // ----- the whole store -----

  /** One `publishJson` of a command, and whether the broker confirmed it. */
  datatype Attempt = Attempt(caller: CallId, id: CommandId, confirmed: bool)

  /**
   * The database and its clock. `issued` (every id ever drawn) and `log` (every publication attempted) record
   * history: no statement reads them.
   */
  datatype Store = Store(
    commands: CommandTable,
    devices: DeviceTable,
    now: Instant,
    issued: set<CommandId>,
    log: seq<Attempt>)

  datatype Event =
    | Insert(id: CommandId, deviceId: DeviceId, kind: CommandKind, payload: Json, expiresAt: Instant)
    | MarkSent(id: CommandId)
    | ApplyAck(id: CommandId, deviceId: DeviceId, ack: Ack, result: Option<Json>, error: Option<string>)
    | Expire(id: CommandId)
    | ExpireOverdue(scope: Option<DeviceId>)
    | Publish(caller: CallId, id: CommandId, confirmed: bool)
    | SetPresence(deviceId: DeviceId, online: bool)
    | PutDevice(deviceId: DeviceId, device: Device)
    | DeleteDevice(deviceId: DeviceId)
    | Tick(ms: nat)

  /** Total: a statement whose guard matches no row changes nothing, and so does an insert the database refuses. */
  function Apply(s: Store, e: Event): Store {
    match e
    case Insert(id, deviceId, kind, payload, expiresAt) =>
      if id in s.issued || deviceId !in s.devices then s
      else s.(commands := s.commands[id := NewCommand(deviceId, kind, payload, s.now, expiresAt)], issued := s.issued + {id})
    case MarkSent(id) =>
      if id in s.commands then s.(commands := s.commands[id := MarkedSent(s.commands[id], s.now)]) else s
    case ApplyAck(id, deviceId, ack, result, error) =>
      if id in s.commands && AckMatches(s.commands[id], deviceId, AllowedFrom(ack))
      then s.(commands := s.commands[id := Answered(s.commands[id], ack, result, error, s.now)])
      else s
    case Expire(id) =>
      if id in s.commands then s.(commands := s.commands[id := GivenUp(s.commands[id])]) else s
    case ExpireOverdue(scope) => s.(commands := WithoutOverdue(s.commands, scope, s.now))
    case Publish(caller, id, confirmed) => s.(log := s.log + [Attempt(caller, id, confirmed)])
    case SetPresence(deviceId, online) =>
      if deviceId in s.devices then s.(devices := s.devices[deviceId := s.devices[deviceId].(online := online)]) else s
    case PutDevice(deviceId, device) => s.(devices := s.devices[deviceId := device])
    case DeleteDevice(deviceId) =>
      s.(devices := s.devices - {deviceId}, commands := WithoutDevice(s.commands, deviceId))
    case Tick(ms) => s.(now := s.now + ms)
  }

  function WithoutOverdue(commands: CommandTable, scope: Option<DeviceId>, now: Instant): CommandTable {
    map id | id in commands :: Overdue(commands[id], scope, now)
  }

  /** Commands reference their device with `on delete cascade`. */
  function WithoutDevice(commands: CommandTable, deviceId: DeviceId): CommandTable {
    map id | id in commands && commands[id].deviceId != deviceId :: commands[id]
  }

  function Run(s: Store, trace: seq<Event>): Store {
    if trace == [] then s else Apply(Run(s, trace[..|trace| - 1]), trace[|trace| - 1])
  }

  // ----- what the selects return -----

  predicate Deliverable(row: Command, deviceId: DeviceId, now: Instant) {
    row.deviceId == deviceId && row.status in {Pending, Sent} && row.expiresAt > now
  }

  predicate Flushable(s: Store, row: Command) {
    && row.status == Pending && row.expiresAt > s.now
    && row.deviceId in s.devices && s.devices[row.deviceId].online
  }

  /** The rows of `findDeliverable(d)` (scope `Some(d)`) or of `findPendingForOnlineDevices` (scope `None`). */
  function Selected(s: Store, scope: Option<DeviceId>): set<CommandId> {
    match scope
    case Some(d) => set id | id in s.commands && Deliverable(s.commands[id], d, s.now)
    case None => set id | id in s.commands && Flushable(s, s.commands[id])
  }

  predicate Distinct(ids: seq<CommandId>) {
    forall i, j | 0 <= i < j < |ids| :: ids[i] != ids[j]
  }

  /** `ids` lists `selection` once each, oldest command first (rows of the same date in any order). */
  predicate IsListing(commands: CommandTable, selection: set<CommandId>, ids: seq<CommandId>) {
    && (set id | id in ids) == selection
    && selection <= commands.Keys
    && Distinct(ids)
    && (forall i, j | 0 <= i < j < |ids| :: commands[ids[i]].createdAt <= commands[ids[j]].createdAt)
  }

  // ----- history read off the log -----

  ghost predicate Confirmed(log: seq<Attempt>, id: CommandId) {
    exists a :: a in log && a.id == id && a.confirmed
  }
}
