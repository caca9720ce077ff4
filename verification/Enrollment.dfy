/**
 * Enrolling a device: the challenge it uses up and the public key it pins.
 *
 * `Enroll` is one committed or rolled back transaction. A valid signature is an uninterpreted predicate of the request.
 */
module Enrollment {
  import opened Wrappers
  import opened Devices

  type Nonce = string

  datatype Challenge = Challenge(expiresAt: int, consumedAt: Option<Instant>)

  type ChallengeTable = map<Nonce, Challenge>

  /** `drawn` records every device id ever drawn; the database never draws one twice. */
  datatype Registry = Registry(challenges: ChallengeTable, devices: DeviceTable, drawn: set<DeviceId>)

  datatype EnrollInput = EnrollInput(
    challenge: Nonce,
    signature: string,
    publicKey: string,
    androidId: Option<string>,
    model: string,
    brand: Option<string>,
    name: Option<string>)

  datatype Refusal =
    | ChallengeNotFound | ChallengeConsumed | ChallengeExpired
    | InvalidSignature | IdentityMismatch | AlreadyEnrolled

  datatype Result = EnrolledAs(id: DeviceId) | Refused(why: Refusal)

  /** `assertChallengeValid`: usable up to and including the instant it expires. */
  function ChallengeRefusal(challenges: ChallengeTable, nonce: Nonce, now: Instant): Option<Refusal> {
    if nonce !in challenges then Some(ChallengeNotFound)
    else if challenges[nonce].consumedAt.Some? then Some(ChallengeConsumed)
    else if challenges[nonce].expiresAt < now then Some(ChallengeExpired)
    else None
  }

  /** The unique constraint on `android_id`; NULLs never collide. */
  predicate UniqueAndroidIds(devices: DeviceTable) {
    forall i, j | i in devices && j in devices && devices[i].androidId.Some?
                  && devices[i].androidId == devices[j].androidId :: i == j
  }

  function WithAndroidId(devices: DeviceTable, androidId: string): set<DeviceId> {
    set id | id in devices && devices[id].androidId == Some(androidId)
  }

  function Identity(input: EnrollInput): string {
    input.androidId.GetOr("") + ":" + input.publicKey
  }

  function NewDevice(input: EnrollInput): Device {
    Device(Identity(input), input.name, input.androidId, Some(input.publicKey), Some(input.model), input.brand,
           Enrolled, false, None)
  }

  /** What was left out keeps its value: the brand the agent did not report, the name an admin may have typed. */
  function ReEnrolled(device: Device, input: EnrollInput): Device {
    device.(
    enrollmentIdentity := Identity(input),
    model := Some(input.model),
    brand := if input.brand.Some? then input.brand else device.brand,
    name := if input.name.Some? then input.name else device.name,
    enrollmentStatus := Enrolled)
  }

  /** The device a request is looked up as: none unless it gives a non-empty android id. */
  function Known(devices: DeviceTable, input: EnrollInput): set<DeviceId> {
    if input.androidId.Some? && input.androidId.value != "" then WithAndroidId(devices, input.androidId.value) else {}
  }

  ghost function Enroll(signed: EnrollInput -> bool, r: Registry, input: EnrollInput, now: Instant, newId: DeviceId)
    : (Registry, Result)
    requires UniqueAndroidIds(r.devices)
  {
    var refusal := ChallengeRefusal(r.challenges, input.challenge, now);
    if refusal.Some? then (r, Refused(refusal.value))
    else if !signed(input) then (r, Refused(InvalidSignature))
    else
      var challenges := r.challenges[input.challenge := r.challenges[input.challenge].(consumedAt := Some(now))];
      if Known(r.devices, input) != {} then
        var id :| id in Known(r.devices, input);
        if r.devices[id].publicKey != Some(input.publicKey) then (r, Refused(IdentityMismatch))
        else (Registry(challenges, r.devices[id := ReEnrolled(r.devices[id], input)], r.drawn), EnrolledAs(id))
      else if input.androidId.Some? && WithAndroidId(r.devices, input.androidId.value) != {} then
        (r, Refused(AlreadyEnrolled))
      else
        (Registry(challenges, r.devices[newId := NewDevice(input)], r.drawn + {newId}), EnrolledAs(newId))
  }

  // ----- everything that writes these tables -----

  datatype EnrollmentOp =
    | NewChallenge(nonce: Nonce, expiresAt: int)
    | EnrollDevice(input: EnrollInput, now: Instant, newId: DeviceId)
    /** Admin edit: `None` leaves the column alone, `Some(None)` clears it. */
    | EditDevice(id: DeviceId, name: Option<Option<string>>, androidId: Option<Option<string>>)
    | DeleteDevice(id: DeviceId)
    /** Heartbeats, presence, blocking: any write that leaves the identity alone. */
    | Touch(id: DeviceId, device: Device)

  /** `DeviceService.update`: only a listed device, and not another device's android id. */
  predicate EditAllowed(devices: DeviceTable, id: DeviceId, androidId: Option<Option<string>>) {
    && id in devices && Listed(devices[id])
    && (androidId.Some? && androidId.value.Some? ==> WithAndroidId(devices, androidId.value.value) <= {id})
  }

  function Edited(device: Device, name: Option<Option<string>>, androidId: Option<Option<string>>): Device {
    device.(name := name.GetOr(device.name), androidId := androidId.GetOr(device.androidId))
  }

  ghost function Perform(signed: EnrollInput -> bool, r: Registry, op: EnrollmentOp): Registry
    requires UniqueAndroidIds(r.devices)
  {
    match op
    case NewChallenge(nonce, expiresAt) =>
      if nonce in r.challenges then r else r.(challenges := r.challenges[nonce := Challenge(expiresAt, None)])
    case EnrollDevice(input, now, newId) => if newId in r.drawn then r else Enroll(signed, r, input, now, newId).0
    case EditDevice(id, name, androidId) =>
      if EditAllowed(r.devices, id, androidId) then r.(devices := r.devices[id := Edited(r.devices[id], name, androidId)]) else r
    case DeleteDevice(id) => r.(devices := r.devices - {id})
    case Touch(id, device) =>
      if id in r.devices
      then r.(devices := r.devices[id := device.(androidId := r.devices[id].androidId, publicKey := r.devices[id].publicKey)])
      else r
  }

  /** How an enrollment ends, `None` when the operation is not one (or draws an id already drawn). */
  ghost function Outcome(signed: EnrollInput -> bool, r: Registry, op: EnrollmentOp): Option<Result>
    requires UniqueAndroidIds(r.devices)
  {
    if op.EnrollDevice? && op.newId !in r.drawn then Some(Enroll(signed, r, op.input, op.now, op.newId).1) else None
  }

  predicate Sound(r: Registry) {
    UniqueAndroidIds(r.devices) && r.devices.Keys <= r.drawn
  }

  lemma KnownIsTheOne(devices: DeviceTable, androidId: string, id: DeviceId)
    requires UniqueAndroidIds(devices) && id in WithAndroidId(devices, androidId)
    ensures WithAndroidId(devices, androidId) == {id}
  {
    forall j | j in WithAndroidId(devices, androidId) ensures j == id {
      assert devices[j].androidId == devices[id].androidId;
    }
  }

  /** Inserting or changing one row keeps android ids unique if no other row has its android id. */
  lemma PutKeepsUnique(devices: DeviceTable, id: DeviceId, device: Device)
    requires UniqueAndroidIds(devices)
    requires device.androidId.Some? ==> WithAndroidId(devices, device.androidId.value) <= {id}
    ensures UniqueAndroidIds(devices[id := device])
  {
    if device.androidId.Some? {
      assert forall j | j in devices && devices[j].androidId == device.androidId ::
          j in WithAndroidId(devices, device.androidId.value);
    }
  }

  lemma EnrollKeepsSound(signed: EnrollInput -> bool, r: Registry, input: EnrollInput, now: Instant, newId: DeviceId)
    requires Sound(r) && newId !in r.drawn
    ensures Sound(Enroll(signed, r, input, now, newId).0)
  {
    var (after, result) := Enroll(signed, r, input, now, newId);
    if result.EnrolledAs? {
      var id := result.id;
      if after.devices[id].androidId.Some? {
        var androidId := after.devices[id].androidId.value;
        if id in r.devices {
          KnownIsTheOne(r.devices, androidId, id);
        }
      }
      PutKeepsUnique(r.devices, id, after.devices[id]);
    }
  }

  lemma StepKeepsSound(signed: EnrollInput -> bool, r: Registry, op: EnrollmentOp)
    requires Sound(r)
    ensures Sound(Perform(signed, r, op))
  {
    match op
    case EnrollDevice(input, now, newId) =>
      if newId !in r.drawn {
        EnrollKeepsSound(signed, r, input, now, newId);
      }
    case EditDevice(id, name, androidId) =>
      if EditAllowed(r.devices, id, androidId) {
        var edited := Edited(r.devices[id], name, androidId);
        if androidId.None? && edited.androidId.Some? {
          KnownIsTheOne(r.devices, edited.androidId.value, id);
        }
        PutKeepsUnique(r.devices, id, edited);
      }
    case Touch(id, device) =>
      if id in r.devices {
        var touched := device.(androidId := r.devices[id].androidId, publicKey := r.devices[id].publicKey);
        if touched.androidId.Some? {
          KnownIsTheOne(r.devices, touched.androidId.value, id);
        }
        PutKeepsUnique(r.devices, id, touched);
      }
    case _ =>
  }
}
