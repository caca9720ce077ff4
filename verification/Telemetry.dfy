/**
 * A device's telemetry row: full inventory pushes and partial patches, merged group by group.
 *
 * Each group is one JSON column, modelled as a map from field to value.
 */
module Telemetry {
  import opened Wrappers
  import opened Devices

  datatype Group = Network | Memory | Storage | Battery | Location

  type Field = string

  datatype Value = Null | Number(n: real) | Text(s: string) | Flag(b: bool)

  type Json = map<Field, Value>

  /** One row. `network` is NULL until something reports it. */
  datatype Row = Row(network: Option<Json>, memory: Json, storage: Json, battery: Json, location: Json)

  /** What a patch carries: a group left out is `None`. */
  datatype Patch = Patch(network: Option<Json>, memory: Option<Json>, storage: Option<Json>, battery: Option<Json>,
                         location: Option<Json>)

  /** What a full inventory push carries. */
  datatype Snapshot = Snapshot(network: Json, memory: Json, storage: Json, battery: Json, location: Json)

  type TelemetryTable = map<DeviceId, Row>

  const DEFAULT_MEMORY: Json := map["totalBytes" := Number(0.0), "usedBytes" := Number(0.0)]
  const DEFAULT_STORAGE: Json := map["totalBytes" := Number(0.0), "freeBytes" := Number(0.0), "usedBytes" := Number(0.0)]
  const DEFAULT_BATTERY: Json := map["level" := Number(0.0), "charging" := Flag(false), "health" := Text("unknown")]
  const DEFAULT_LOCATION: Json := map["latitude" := Number(0.0), "longitude" := Number(0.0), "accuracy" := Number(0.0)]

  const DEFAULT_ROW: Row := Row(None, DEFAULT_MEMORY, DEFAULT_STORAGE, DEFAULT_BATTERY, DEFAULT_LOCATION)

  function GroupFields(group: Group): set<Field> {
    match group
    case Network => {"type", "name", "ipAddress", "macAddress"}
    case Memory => DEFAULT_MEMORY.Keys
    case Storage => DEFAULT_STORAGE.Keys
    case Battery => DEFAULT_BATTERY.Keys
    case Location => DEFAULT_LOCATION.Keys
  }

  // ----- the statements, on one row -----

  /** A full push replaces every group. */
  function Pushed(full: Snapshot): Row {
    Row(Some(full.network), full.memory, full.storage, full.battery, full.location)
  }

  /** `part && { ...current, ...part }`, where `undefined` leaves the column alone. */
  function MergeInto(current: Json, part: Option<Json>): Json {
    if part.Some? then current + part.value else current
  }

  /** The update of a patch that read `seen`: each group it carries becomes that group as read, merged with it; the other
      groups of the row stay as they are. */
  function Updated(row: Row, seen: Row, p: Patch): Row {
    Row(if p.network.Some? then Some(MergeInto(seen.network.GetOr(map[]), p.network)) else row.network,
        if p.memory.Some? then MergeInto(seen.memory, p.memory) else row.memory,
        if p.storage.Some? then MergeInto(seen.storage, p.storage) else row.storage,
        if p.battery.Some? then MergeInto(seen.battery, p.battery) else row.battery,
        if p.location.Some? then MergeInto(seen.location, p.location) else row.location)
  }

  /** The row a patch inserts when it read none: the network as patched, the other groups over their defaults. */
  function InsertedRow(p: Patch): Row {
    Row(p.network, MergeInto(DEFAULT_MEMORY, p.memory), MergeInto(DEFAULT_STORAGE, p.storage),
        MergeInto(DEFAULT_BATTERY, p.battery), MergeInto(DEFAULT_LOCATION, p.location))
  }

  /** A patch that nothing interrupts: each group present is merged into what is stored, or into its default. */
  function Patched(row: Option<Row>, p: Patch): Row {
    var r := row.GetOr(DEFAULT_ROW);
    Updated(r, r, p)
  }

  function Part(p: Patch, group: Group): Option<Json> {
    match group
    case Network => p.network
    case Memory => p.memory
    case Storage => p.storage
    case Battery => p.battery
    case Location => p.location
  }

  // ----- reading a field -----

  function Stored(row: Row, group: Group): Json {
    match group
    case Network => row.network.GetOr(map[])
    case Memory => row.memory
    case Storage => row.storage
    case Battery => row.battery
    case Location => row.location
  }

  function Get(json: Json, field: Field): Option<Value> {
    if field in json then Some(json[field]) else None
  }

  function Read(row: Option<Row>, group: Group, field: Field): Option<Value> {
    if row.None? then None else Get(Stored(row.value, group), field)
  }

  /** The value a write gives to a field, if it does. */
  function Written(p: Patch, group: Group, field: Field): Option<Value> {
    if Part(p, group).None? then None else Get(Part(p, group).value, field)
  }

  /** What a field is worth in a row nobody wrote it to: its column default; the network has none. */
  function Default(group: Group, field: Field): Option<Value> {
    match group
    case Network => None
    case Memory => Get(DEFAULT_MEMORY, field)
    case Storage => Get(DEFAULT_STORAGE, field)
    case Battery => Get(DEFAULT_BATTERY, field)
    case Location => Get(DEFAULT_LOCATION, field)
  }

  function RowOf(table: TelemetryTable, deviceId: DeviceId): Option<Row> {
    if deviceId in table then Some(table[deviceId]) else None
  }

  lemma UpdateOneField(row: Row, seen: Row, p: Patch, group: Group, field: Field)
    ensures Read(Some(Updated(row, seen, p)), group, field)
            == if Written(p, group, field).Some? then Written(p, group, field)
               else if Part(p, group).Some? then Read(Some(seen), group, field)
               else Read(Some(row), group, field)
  {
    match group
    case Network =>
    case Memory =>
    case Storage =>
    case Battery =>
    case Location =>
  }

  lemma InsertOneField(p: Patch, group: Group, field: Field)
    ensures Read(Some(InsertedRow(p)), group, field)
            == if Written(p, group, field).Some? then Written(p, group, field) else Default(group, field)
  {
    match group
    case Network =>
    case Memory =>
    case Storage =>
    case Battery =>
    case Location =>
  }

  // ----- patches compose -----

  function MergedPart(p: Option<Json>, q: Option<Json>): Option<Json> {
    if p.None? then q else if q.None? then p else Some(p.value + q.value)
  }

  /** The right-biased merge of two patches. */
  function MergedPatch(p: Patch, q: Patch): Patch {
    Patch(MergedPart(p.network, q.network), MergedPart(p.memory, q.memory), MergedPart(p.storage, q.storage),
          MergedPart(p.battery, q.battery), MergedPart(p.location, q.location))
  }

  lemma MergeAssociates(a: Json, p: Option<Json>, q: Option<Json>)
    ensures MergeInto(MergeInto(a, p), q) == MergeInto(a, MergedPart(p, q))
  {
    if p.Some? && q.Some? {
      assert a + p.value + q.value == a + (p.value + q.value);
    }
  }

  /** Patching with p and then q is patching once with their merge, whether or not the row existed. */
  lemma PatchesCompose(row: Option<Row>, p: Patch, q: Patch)
    ensures Patched(Some(Patched(row, p)), q) == Patched(row, MergedPatch(p, q))
  {
    var r := row.GetOr(DEFAULT_ROW);
    MergeAssociates(r.network.GetOr(map[]), p.network, q.network);
    MergeAssociates(r.memory, p.memory, q.memory);
    MergeAssociates(r.storage, p.storage, q.storage);
    MergeAssociates(r.battery, p.battery, q.battery);
    MergeAssociates(r.location, p.location, q.location);
  }

  lemma InsertIsPatchOverDefaults(p: Patch)
    ensures InsertedRow(p) == Patched(None, p)
  {
    if p.network.Some? {
      assert map[] + p.network.value == p.network.value;
    }
  }
}
