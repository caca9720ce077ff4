/** What enrollments and admin edits leave in the rows: every column of the row they touch, and nothing in any other. */
module EnrollmentRows {
  import opened Wrappers
  import opened Devices
  import opened Enrollment
  import opened EnrollmentRuns

  /** What an enrollment tells of the device, as a row. */
  predicate Reports(row: Device, input: EnrollInput) {
    && row.publicKey == Some(input.publicKey) && row.enrollmentStatus == Enrolled && row.model == Some(input.model)
    && row.enrollmentIdentity == (match input.androidId
                                  case Some(androidId) => androidId + ":" + input.publicKey
                                  case None => ":" + input.publicKey)
    && (input.name.Some? ==> row.name == input.name) && (input.brand.Some? ==> row.brand == input.brand)
  }

  /** What an enrollment leaves of the row it found: its android id, its presence, an admin's block, and the name and brand it
      does not give itself. */
  predicate KeepsTheRest(row: Device, found: Device, input: EnrollInput) {
    && row.androidId == found.androidId && row.online == found.online && row.blockedAt == found.blockedAt
    && (input.name.None? ==> row.name == found.name) && (input.brand.None? ==> row.brand == found.brand)
  }

  /** A new device: offline, not blocked, under the android id of its request. */
  predicate IsNew(row: Device, input: EnrollInput) {
    && row.androidId == input.androidId && !row.online && row.blockedAt.None?
    && row.name == input.name && row.brand == input.brand
  }

  /** A successful enrollment leaves the row of its request: that of the device known under its android id, refreshed, or a
      new one; its challenge stamped; and every other row and challenge as it was. */
  lemma RowAfterEnrollment(signed: EnrollInput -> bool, r: Registry, input: EnrollInput, now: Instant, newId: DeviceId)
    requires Sound(r) && newId !in r.drawn && Enroll(signed, r, input, now, newId).1.EnrolledAs?
    ensures var (after, result) := Enroll(signed, r, input, now, newId);
            && result.id in after.devices && result.id in after.drawn && Reports(after.devices[result.id], input)
            && (if result.id in r.devices
                then r.devices[result.id].androidId == input.androidId
                     && KeepsTheRest(after.devices[result.id], r.devices[result.id], input)
                else result.id == newId && IsNew(after.devices[result.id], input))
            && after.devices == r.devices[result.id := after.devices[result.id]]
    ensures var (after, result) := Enroll(signed, r, input, now, newId);
            && input.challenge in r.challenges
            && after.challenges == r.challenges[input.challenge :=
                                     Challenge(r.challenges[input.challenge].expiresAt, Some(now))]
  {
  }

  /** An admin edit changes what it gives and nothing else, in that row and in every other; refused, nothing. */
  lemma RowAfterEdit(signed: EnrollInput -> bool, r: Registry, id: DeviceId, name: Option<Option<string>>,
                  androidId: Option<Option<string>>)
    requires Sound(r)
    ensures var after := Perform(signed, r, EditDevice(id, name, androidId));
            && after.challenges == r.challenges && after.devices.Keys == r.devices.Keys
            && (forall other | other in r.devices && other != id :: after.devices[other] == r.devices[other])
            && (id in r.devices ==>
                  var row, found := after.devices[id], r.devices[id];
                  && row.(name := found.name, androidId := found.androidId) == found
                  && (if EditAllowed(r.devices, id, androidId)
                      then (name.Some? ==> row.name == name.value) && (androidId.Some? ==> row.androidId == androidId.value)
                           && (name.None? ==> row.name == found.name) && (androidId.None? ==> row.androidId == found.androidId)
                      else row == found))
  {
  }

  // ----- the name -----

  /** Operation `i` of the run gives the device this name: an admin's edit, or an enrollment that carries one. */
  ghost predicate Names(signed: EnrollInput -> bool, r: Registry, ops: seq<EnrollmentOp>, i: nat, id: DeviceId,
                        name: Option<string>)
    requires Sound(r) && i < |ops|
  {
    match ops[i]
    case EditDevice(edited, given, androidId) =>
      edited == id && given == Some(name) && EditAllowed(Run(signed, r, ops[..i]).devices, id, androidId)
    case EnrollDevice(input, _, _) =>
      Enrolls(signed, r, ops, i) && OutcomeAt(signed, r, ops, i).value.id == id && input.name.Some? && input.name == name
    case _ => false
  }

  /** Operation `i` may leave the device with another name. */
  ghost predicate MayRename(signed: EnrollInput -> bool, r: Registry, ops: seq<EnrollmentOp>, i: nat, id: DeviceId)
    requires Sound(r) && i < |ops|
  {
    ops[i] == DeleteDevice(id) || (ops[i].Touch? && ops[i].id == id) || exists name :: Names(signed, r, ops, i, id, name)
  }

  lemma EnrollmentNames(signed: EnrollInput -> bool, r: Registry, ops: seq<EnrollmentOp>, id: DeviceId)
    requires Sound(r) && ops != [] && Enrolls(signed, r, ops, |ops| - 1)
    ensures var n := |ops| - 1;
            var before, after := Run(signed, r, ops[..n]).devices, Run(signed, r, ops).devices;
            if OutcomeAt(signed, r, ops, n).value.id == id && ops[n].input.name.Some?
            then id in after && after[id].name == ops[n].input.name && MayRename(signed, r, ops, n, id)
            else id in before ==> id in after && after[id].name == before[id].name
  {
    var n := |ops| - 1;
    RowAfterEnrollment(signed, Run(signed, r, ops[..n]), ops[n].input, ops[n].now, ops[n].newId);
    assert OutcomeAt(signed, r, ops, n).value.id == id && ops[n].input.name.Some? ==>
        Names(signed, r, ops, n, id, ops[n].input.name);
  }

  lemma EditNames(signed: EnrollInput -> bool, r: Registry, ops: seq<EnrollmentOp>, id: DeviceId)
    requires Sound(r) && ops != [] && ops[|ops| - 1].EditDevice?
    ensures var n := |ops| - 1;
            var before, after := Run(signed, r, ops[..n]).devices, Run(signed, r, ops).devices;
            if ops[n].id == id && ops[n].name.Some? && EditAllowed(before, id, ops[n].androidId)
            then id in after && after[id].name == ops[n].name.value && MayRename(signed, r, ops, n, id)
            else id in before ==> id in after && after[id].name == before[id].name
  {
    var n := |ops| - 1;
    RowAfterEdit(signed, Run(signed, r, ops[..n]), ops[n].id, ops[n].name, ops[n].androidId);
    assert ops[n].id == id && ops[n].name.Some? && EditAllowed(Run(signed, r, ops[..n]).devices, id, ops[n].androidId) ==>
        Names(signed, r, ops, n, id, ops[n].name.value);
  }

  /** An operation that enrolls nobody, edits nothing and may not rename the device leaves its name. */
  lemma OthersNameNothing(signed: EnrollInput -> bool, r: Registry, ops: seq<EnrollmentOp>, id: DeviceId)
    requires Sound(r) && ops != [] && !ops[|ops| - 1].EditDevice? && !Enrolls(signed, r, ops, |ops| - 1)
    requires !MayRename(signed, r, ops, |ops| - 1, id)
    ensures var before, after := Run(signed, r, ops[..|ops| - 1]).devices, Run(signed, r, ops).devices;
            id in before ==> id in after && after[id] == before[id]
  {
    var n := |ops| - 1;
    if ops[n].EnrollDevice? {
      EnrollsWhenAdmitted(signed, Run(signed, r, ops[..n]), ops[n].input, ops[n].now, ops[n].newId);
    }
  }

  lemma NameStep(signed: EnrollInput -> bool, r: Registry, ops: seq<EnrollmentOp>, id: DeviceId, name: Option<string>)
    requires Sound(r) && ops != []
    ensures var n := |ops| - 1;
            var before, after := Run(signed, r, ops[..n]).devices, Run(signed, r, ops).devices;
            && (Names(signed, r, ops, n, id, name) ==> id in after && after[id].name == name)
            && (id in before && !MayRename(signed, r, ops, n, id) ==> id in after && after[id].name == before[id].name)
  {
    var n := |ops| - 1;
    if ops[n].EditDevice? {
      EditNames(signed, r, ops, id);
    } else if Enrolls(signed, r, ops, n) {
      EnrollmentNames(signed, r, ops, id);
    } else if !MayRename(signed, r, ops, n, id) {
      OthersNameNothing(signed, r, ops, id);
    }
  }

  lemma NamesPrefix(signed: EnrollInput -> bool, r: Registry, ops: seq<EnrollmentOp>, n: nat, i: nat, id: DeviceId)
    requires Sound(r) && i < n <= |ops|
    ensures forall name :: Names(signed, r, ops[..n], i, id, name) <==> Names(signed, r, ops, i, id, name)
    ensures MayRename(signed, r, ops[..n], i, id) <==> MayRename(signed, r, ops, i, id)
  {
    OutcomePrefix(signed, r, ops, n, i);
    assert ops[..n][..i] == ops[..i];
  }

  ghost predicate NothingRenames(signed: EnrollInput -> bool, r: Registry, ops: seq<EnrollmentOp>, i: nat, id: DeviceId)
    requires Sound(r)
  {
    forall j: nat | i < j < |ops| :: !MayRename(signed, r, ops, j, id)
  }

  lemma NothingRenamesBefore(signed: EnrollInput -> bool, r: Registry, ops: seq<EnrollmentOp>, i: nat, id: DeviceId)
    requires Sound(r) && i + 1 < |ops| && NothingRenames(signed, r, ops, i, id)
    ensures NothingRenames(signed, r, ops[..|ops| - 1], i, id) && !MayRename(signed, r, ops, |ops| - 1, id)
  {
    var n := |ops| - 1;
    forall j: nat | i < j < n ensures !MayRename(signed, r, ops[..n], j, id) {
      NamesPrefix(signed, r, ops, n, j, id);
    }
  }

  predicate HasName(devices: DeviceTable, id: DeviceId, name: Option<string>) {
    id in devices && devices[id].name == name
  }

  lemma NameIsKept(signed: EnrollInput -> bool, r: Registry, ops: seq<EnrollmentOp>, id: DeviceId, name: Option<string>)
    requires Sound(r) && ops != [] && !MayRename(signed, r, ops, |ops| - 1, id)
    requires HasName(Run(signed, r, ops[..|ops| - 1]).devices, id, name)
    ensures HasName(Run(signed, r, ops).devices, id, name)
  {
    NameStep(signed, r, ops, id, name);
  }

  lemma NameIsGiven(signed: EnrollInput -> bool, r: Registry, ops: seq<EnrollmentOp>, id: DeviceId, name: Option<string>)
    requires Sound(r) && ops != [] && Names(signed, r, ops, |ops| - 1, id, name)
    ensures HasName(Run(signed, r, ops).devices, id, name)
  {
    NameStep(signed, r, ops, id, name);
  }

  /** The name of a device is the last one given to it: what an admin typed outlives every enrollment that gives none. */
  lemma {:induction false} NameIsTheLastGiven(signed: EnrollInput -> bool, r: Registry, ops: seq<EnrollmentOp>, i: nat,
                                              id: DeviceId, name: Option<string>)
    requires Sound(r) && i < |ops| && Names(signed, r, ops, i, id, name) && NothingRenames(signed, r, ops, i, id)
    ensures HasName(Run(signed, r, ops).devices, id, name)
  {
    var n: nat := |ops| - 1;
    if i == n {
      NameIsGiven(signed, r, ops, id, name);
    } else {
      NamesPrefix(signed, r, ops, n, i, id);
      NothingRenamesBefore(signed, r, ops, i, id);
      NameIsTheLastGiven(signed, r, ops[..n], i, id, name);
      NameIsKept(signed, r, ops, id, name);
    }
  }
}
