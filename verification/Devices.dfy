/** One row of the `devices` table, shared by commands, enrollment and the fleet overview. */
module Devices {
  import opened Wrappers

  type DeviceId = nat

  /** Milliseconds since the epoch, as `Date.now()` gives them. */
  type Instant = nat

  datatype EnrollmentStatus = EnrollmentPending | Enrolled | Revoked | Unenrolled

  /** The columns the modelled operations read or write; NULL is `None`. */
  datatype Device = Device(
    enrollmentIdentity: string,
    name: Option<string>,
    androidId: Option<string>,
    publicKey: Option<string>,
    model: Option<string>,
    brand: Option<string>,
    enrollmentStatus: EnrollmentStatus,
    online: bool,
    blockedAt: Option<Instant>)

  type DeviceTable = map<DeviceId, Device>

  /** The devices the overview shows: revoked and unenrolled ones are not listed. */
  predicate Listed(device: Device) {
    device.enrollmentStatus in {EnrollmentPending, Enrolled}
  }
}
