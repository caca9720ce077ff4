/** `DeviceRepository` and `DeviceService`: enrollment, admin edits, blocking and deletion, in place. */
module DeviceServices {
  import opened Wrappers
  import opened Devices
  import opened Enrollment
  import opened EnrollmentServices

  predicate NoDuplicates(ids: seq<DeviceId>) {
    forall i, j | 0 <= i < j < |ids| :: ids[i] != ids[j]
  }

  class DeviceRepository {
    var rows: DeviceTable
    // History: every id the database drew.
    var drawn: set<DeviceId>

    constructor ()
      ensures rows == map[] && drawn == {}
    {
      rows, drawn := map[], {};
    }

    method DrawId() returns (id: DeviceId)
      ensures id !in drawn
    {
      id := 0;
      var rest := drawn;
      while rest != {}
        invariant rest <= drawn
        invariant forall d | d in drawn && d !in rest :: d < id
        decreases rest
      {
        var d :| d in rest;
        id, rest := if d >= id then d + 1 else id, rest - {d};
      }
    }

    /** Inserts the row, or reports the unique violation. */
    method CreateDevice(input: EnrollInput, id: DeviceId) returns (created: bool)
      requires id !in drawn
      modifies this
      ensures created <==> input.androidId.None? || WithAndroidId(old(rows), input.androidId.value) == {}
      ensures rows == if created then old(rows)[id := NewDevice(input)] else old(rows)
      ensures drawn == if created then old(drawn) + {id} else old(drawn)
    {
      created := input.androidId.None? || (set d | d in rows && rows[d].androidId == input.androidId) == {};
      assert input.androidId.Some? ==>
          (set d | d in rows && rows[d].androidId == input.androidId) == WithAndroidId(rows, input.androidId.value);
      if created {
        rows := rows[id := Device(input.androidId.GetOr("") + ":" + input.publicKey, input.name, input.androidId,
                                  Some(input.publicKey), Some(input.model), input.brand, Enrolled, false, None)];
        drawn := drawn + {id};
      }
    }

    method FindByAndroidId(androidId: string) returns (id: Option<DeviceId>)
      ensures id.None? <==> WithAndroidId(rows, androidId) == {}
      ensures id.Some? ==> id.value in WithAndroidId(rows, androidId)
    {
      var matches := set d | d in rows && rows[d].androidId == Some(androidId);
      if matches == {} { return None; }
      var found :| found in matches;
      return Some(found);
    }

    method ReEnrollDevice(id: DeviceId, input: EnrollInput)
      requires id in rows
      modifies this`rows
      ensures rows == old(rows)[id := ReEnrolled(old(rows)[id], input)]
    {
      rows := rows[id := rows[id].(
          enrollmentIdentity := input.androidId.GetOr("") + ":" + input.publicKey,
          model := Some(input.model),
          brand := if input.brand.Some? then input.brand else rows[id].brand,
          name := if input.name.Some? then input.name else rows[id].name,
          enrollmentStatus := Enrolled)];
    }

    /** Blocks the devices among `ids` not blocked yet. */
    method Block(ids: seq<DeviceId>, now: Instant)
      modifies this`rows
      ensures rows.Keys == old(rows).Keys
      ensures forall id | id in rows ::
                rows[id] == if id in ids then old(rows)[id].(blockedAt := Some(old(rows)[id].blockedAt.GetOr(now))) else old(rows)[id]
    {
      rows := map id | id in rows ::
        if id in ids && rows[id].blockedAt.None? then rows[id].(blockedAt := Some(now)) else rows[id];
    }

    method Unblock(ids: seq<DeviceId>)
      modifies this`rows
      ensures rows.Keys == old(rows).Keys
      ensures forall id | id in rows :: rows[id] == if id in ids then old(rows)[id].(blockedAt := None) else old(rows)[id]
    {
      rows := map id | id in rows ::
        if id in ids && rows[id].blockedAt.Some? then rows[id].(blockedAt := None) else rows[id];
    }

    method Delete(id: DeviceId) returns (deleted: bool)
      modifies this`rows
      ensures deleted <==> id in old(rows)
      ensures rows == old(rows) - {id}
    {
      deleted := id in rows;
      rows := rows - {id};
    }

    /** Tries every id: each existing device is deleted and reported once, a repeated or unknown id is a failure, and
        the two reports together are the request. */
    method DeleteMany(ids: seq<DeviceId>) returns (success: seq<DeviceId>, failures: seq<DeviceId>)
      modifies this`rows
      ensures rows == old(rows) - (set id | id in ids)
      ensures multiset(success) + multiset(failures) == multiset(ids)
      ensures NoDuplicates(success) && (forall id :: id in success <==> id in ids && id in old(rows))
    {
      success, failures := [], [];
      var n := 0;
      while n < |ids|
        invariant n <= |ids|
        invariant rows == old(rows) - (set id | id in ids[..n])
        invariant multiset(success) + multiset(failures) == multiset(ids[..n])
        invariant NoDuplicates(success) && (forall id :: id in success <==> id in ids[..n] && id in old(rows))
      {
        assert ids[..n + 1] == ids[..n] + [ids[n]];
        var deleted := Delete(ids[n]);
        if deleted {
          success := success + [ids[n]];
        } else {
          failures := failures + [ids[n]];
        }
        n := n + 1;
      }
      assert ids[..n] == ids;
    }
  }

  datatype EditOutcome = EditDone | EditNotFound | EditConflict

  class DeviceService {
    const repository: DeviceRepository
    const enrollmentService: EnrollmentService
    /** Whether the request is signed by the key it declares, over its canonical message. */
    const signed: EnrollInput -> bool

    constructor (repository: DeviceRepository, enrollmentService: EnrollmentService, signed: EnrollInput -> bool)
      ensures this.repository == repository && this.enrollmentService == enrollmentService && this.signed == signed
    {
      this.repository, this.enrollmentService, this.signed := repository, enrollmentService, signed;
    }

    function State(): Registry
      reads repository, enrollmentService.challengeRepo
    {
      Registry(enrollmentService.challengeRepo.rows, repository.rows, repository.drawn)
    }

    /** Pinned-key enrollment, as one transaction: what it wrote is undone when it is refused. */
    method Create(input: EnrollInput, now: Instant) returns (result: Result, ghost newId: DeviceId)
      requires Sound(State())
      modifies repository, enrollmentService.challengeRepo
      ensures newId !in old(repository.drawn)
      ensures (State(), result) == Enroll(signed, old(State()), input, now, newId)
      ensures State() == Perform(signed, old(State()), EnrollDevice(input, now, newId)) && Sound(State())
    {
      var challenges, rows, drawn := enrollmentService.challengeRepo.rows, repository.rows, repository.drawn;
      var id := repository.DrawId();
      newId := id;
      EnrollKeepsSound(signed, State(), input, now, id);
      result := CreateInTransaction(input, now, id);
      if result.Refused? {
        enrollmentService.challengeRepo.rows := challenges;
        repository.rows, repository.drawn := rows, drawn;
      }
    }

    method CreateInTransaction(input: EnrollInput, now: Instant, newId: DeviceId) returns (result: Result)
      requires Sound(State()) && newId !in repository.drawn
      modifies repository, enrollmentService.challengeRepo
      ensures result == Enroll(signed, old(State()), input, now, newId).1
      ensures result.EnrolledAs? ==> State() == Enroll(signed, old(State()), input, now, newId).0
    {
      var refusal := enrollmentService.AssertChallengeValid(input.challenge, now);
      if refusal.Some? { return Refused(refusal.value); }
      if !signed(input) { return Refused(InvalidSignature); }
      enrollmentService.ConsumeChallenge(input.challenge, now);
      if input.androidId.Some? && input.androidId.value != "" {
        var existing := repository.FindByAndroidId(input.androidId.value);
        if existing.Some? {
          KnownIsTheOne(repository.rows, input.androidId.value, existing.value);
          if repository.rows[existing.value].publicKey != Some(input.publicKey) {
            return Refused(IdentityMismatch);
          }
          repository.ReEnrollDevice(existing.value, input);
          return EnrolledAs(existing.value);
        }
      }
      var created := repository.CreateDevice(input, newId);
      return if created then EnrolledAs(newId) else Refused(AlreadyEnrolled);
    }

    /** Admin edit: 404 unless the device is listed, 409 when another device has the android id. */
    method Update(id: DeviceId, name: Option<Option<string>>, androidId: Option<Option<string>>) returns (outcome: EditOutcome)
      requires Sound(State())
      modifies repository
      ensures State() == Perform(signed, old(State()), EditDevice(id, name, androidId)) && Sound(State())
      ensures outcome == EditDone <==> EditAllowed(old(repository.rows), id, androidId)
      ensures outcome == EditDone ==>
                var row, found := repository.rows[id], old(repository.rows)[id];
                && row.name == (if name.Some? then name.value else found.name)
                && row.androidId == (if androidId.Some? then androidId.value else found.androidId)
      ensures outcome == EditNotFound <==> id !in old(repository.rows) || !Listed(old(repository.rows)[id])
    {
      StepKeepsSound(signed, State(), EditDevice(id, name, androidId));
      if id !in repository.rows || repository.rows[id].enrollmentStatus !in {EnrollmentPending, Enrolled} {
        return EditNotFound;
      }
      if androidId.Some? && androidId.value.Some? {
        var holder := repository.FindByAndroidId(androidId.value.value);
        if holder.Some? {
          KnownIsTheOne(repository.rows, androidId.value.value, holder.value);
          if holder.value != id { return EditConflict; }
        }
      }
      repository.rows := repository.rows[id := repository.rows[id].(
          name := name.GetOr(repository.rows[id].name),
          androidId := androidId.GetOr(repository.rows[id].androidId))];
      return EditDone;
    }
  }
}
