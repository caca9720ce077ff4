/** Enrollment over whole runs: every enrollment, admin edit and deletion, one after the other. */
module EnrollmentRuns {
  import opened Wrappers
  import opened Devices
  import opened Enrollment

  predicate Empty(r: Registry) {
    r.challenges == map[] && r.devices == map[] && r.drawn == {}
  }

  ghost function Run(signed: EnrollInput -> bool, r: Registry, ops: seq<EnrollmentOp>): (after: Registry)
    requires Sound(r)
    ensures Sound(after)
  {
    if ops == [] then r
    else
      var before := Run(signed, r, ops[..|ops| - 1]);
      StepKeepsSound(signed, before, ops[|ops| - 1]);
      Perform(signed, before, ops[|ops| - 1])
  }

  /** How operation `i` of the run ended. */
  ghost function OutcomeAt(signed: EnrollInput -> bool, r: Registry, ops: seq<EnrollmentOp>, i: nat): Option<Result>
    requires Sound(r) && i < |ops|
  {
    Outcome(signed, Run(signed, r, ops[..i]), ops[i])
  }

  ghost predicate Enrolls(signed: EnrollInput -> bool, r: Registry, ops: seq<EnrollmentOp>, i: nat)
    requires Sound(r)
  {
    i < |ops| && OutcomeAt(signed, r, ops, i).Some? && OutcomeAt(signed, r, ops, i).value.EnrolledAs?
  }

  lemma {:induction false} RunSplit(signed: EnrollInput -> bool, r: Registry, ops: seq<EnrollmentOp>, n: nat)
    requires Sound(r) && n <= |ops|
    ensures Run(signed, r, ops) == Run(signed, Run(signed, r, ops[..n]), ops[n..])
  {
    if n == |ops| {
      assert ops[..n] == ops && ops[n..] == [];
    } else {
      RunSplit(signed, r, ops[..|ops| - 1], n);
      assert ops[..|ops| - 1][..n] == ops[..n];
      assert ops[..|ops| - 1][n..] == ops[n..][..|ops[n..]| - 1];
    }
  }

  // ----- a device row -----

  /** An admin deleted device `id`, or edited its android id. */
  predicate Unpins(op: EnrollmentOp, id: DeviceId) {
    op == DeleteDevice(id) || (op.EditDevice? && op.id == id && op.androidId.Some?)
  }

  /** A row's key never changes; its android id changes only by an admin edit; a deleted id never comes back. */
  lemma RowStep(signed: EnrollInput -> bool, r: Registry, op: EnrollmentOp, id: DeviceId)
    requires Sound(r) && id in r.drawn
    ensures var after := Perform(signed, r, op);
            && id in after.drawn
            && (id in after.devices ==> id in r.devices && after.devices[id].publicKey == r.devices[id].publicKey)
            && (id in r.devices && !Unpins(op, id) ==>
                  id in after.devices && after.devices[id].androidId == r.devices[id].androidId)
  {
  }

  /** The public key is written once: whatever happens to a row, while it lasts it keeps the key it enrolled with. */
  lemma {:induction false} KeyIsPinned(signed: EnrollInput -> bool, r: Registry, ops: seq<EnrollmentOp>, id: DeviceId)
    requires Sound(r) && id in r.drawn
    ensures var after := Run(signed, r, ops);
            && id in after.drawn
            && (id in after.devices ==> id in r.devices && after.devices[id].publicKey == r.devices[id].publicKey)
            && (id in r.devices && (forall op | op in ops :: !Unpins(op, id)) ==>
                  id in after.devices && after.devices[id].androidId == r.devices[id].androidId)
  {
    if ops != [] {
      KeyIsPinned(signed, r, ops[..|ops| - 1], id);
      RowStep(signed, Run(signed, r, ops[..|ops| - 1]), ops[|ops| - 1], id);
    }
  }

  /** A successful enrollment leaves a row with the key and, if it gave one, the android id of its request. */
  lemma EnrolledRow(signed: EnrollInput -> bool, r: Registry, input: EnrollInput, now: Instant, newId: DeviceId)
    requires Sound(r) && newId !in r.drawn && Enroll(signed, r, input, now, newId).1.EnrolledAs?
    ensures var (after, result) := Enroll(signed, r, input, now, newId);
            && result.id in after.devices && result.id in after.drawn
            && after.devices[result.id].publicKey == Some(input.publicKey)
            && after.devices[result.id].enrollmentStatus == Enrolled
            && (input.androidId.Some? && input.androidId.value != "" ==>
                  after.devices[result.id].androidId == input.androidId)
  {
  }

  /** While a device holds an android id, nobody enrolls under it with another key. */
  lemma PinnedKeyRefusesOthers(signed: EnrollInput -> bool, r: Registry, input: EnrollInput, now: Instant, newId: DeviceId,
                               id: DeviceId)
    requires Sound(r) && input.androidId.Some? && input.androidId.value != ""
    requires id in r.devices && r.devices[id].androidId == input.androidId
    requires Enroll(signed, r, input, now, newId).1.EnrolledAs?
    ensures r.devices[id].publicKey == Some(input.publicKey)
    ensures Enroll(signed, r, input, now, newId).1 == EnrolledAs(id)
  {
    KnownIsTheOne(r.devices, input.androidId.value, id);
  }

  /** If one android id enrolls twice with two different keys, then in between an admin deleted the device of the first
      enrollment or edited its android id. */
  lemma TwoKeysNeedAnAdmin(signed: EnrollInput -> bool, r: Registry, ops: seq<EnrollmentOp>, i: nat, j: nat)
    requires Sound(r) && i < j < |ops| && Enrolls(signed, r, ops, i) && Enrolls(signed, r, ops, j)
    requires ops[i].input.androidId == ops[j].input.androidId
    requires ops[i].input.androidId.Some? && ops[i].input.androidId.value != ""
    requires ops[i].input.publicKey != ops[j].input.publicKey
    ensures exists k | i < k < j :: Unpins(ops[k], OutcomeAt(signed, r, ops, i).value.id)
  {
    var id := OutcomeAt(signed, r, ops, i).value.id;
    var before := Run(signed, r, ops[..i]);
    EnrolledRow(signed, before, ops[i].input, ops[i].now, ops[i].newId);
    assert ops[..i + 1][..i] == ops[..i];
    var enrolled := Run(signed, r, ops[..i + 1]);
    var between := ops[i + 1..j];
    RunSplit(signed, r, ops[..j], i + 1);
    assert ops[..j][..i + 1] == ops[..i + 1] && ops[..j][i + 1..] == between;
    var k := SomebodyUnpins(signed, enrolled, between, ops[j].input, ops[j].now, ops[j].newId, id);
    assert ops[i + 1 + k] == between[k];
  }

  /** Another key gets in only past an operation that unpins the device. */
  lemma SomebodyUnpins(signed: EnrollInput -> bool, r: Registry, ops: seq<EnrollmentOp>, input: EnrollInput, now: Instant,
                       newId: DeviceId, id: DeviceId) returns (k: nat)
    requires Sound(r) && id in r.devices && r.devices[id].androidId == input.androidId
    requires input.androidId.Some? && input.androidId.value != "" && r.devices[id].publicKey != Some(input.publicKey)
    requires Enroll(signed, Run(signed, r, ops), input, now, newId).1.EnrolledAs?
    ensures k < |ops| && Unpins(ops[k], id)
  {
    KeyIsPinned(signed, r, ops, id);
    if forall op | op in ops :: !Unpins(op, id) {
      PinnedKeyRefusesOthers(signed, Run(signed, r, ops), input, now, newId, id);
      assert false;
    }
    var op :| op in ops && Unpins(op, id);
    k :| 0 <= k < |ops| && ops[k] == op;
  }

  /** A deleted device never comes back: whoever enrolls under its android id afterwards is another one. */
  lemma DeletedIsGone(signed: EnrollInput -> bool, r: Registry, ops: seq<EnrollmentOp>, i: nat, id: DeviceId)
    requires Sound(r) && i < |ops| && ops[i] == DeleteDevice(id) && id in Run(signed, r, ops[..i]).drawn
    ensures id !in Run(signed, r, ops).devices && id in Run(signed, r, ops).drawn
  {
    RunSplit(signed, r, ops, i + 1);
    assert ops[..i + 1][..i] == ops[..i];
    KeyIsPinned(signed, Run(signed, r, ops[..i + 1]), ops[i + 1..], id);
  }

  // ----- a challenge -----

  ghost predicate UsesChallenge(signed: EnrollInput -> bool, r: Registry, ops: seq<EnrollmentOp>, i: nat, nonce: Nonce)
    requires Sound(r)
  {
    Enrolls(signed, r, ops, i) && ops[i].input.challenge == nonce
  }

  /** Operation `i` issued `nonce`. */
  ghost predicate IssuesChallenge(signed: EnrollInput -> bool, r: Registry, ops: seq<EnrollmentOp>, i: nat, nonce: Nonce)
    requires Sound(r)
  {
    i < |ops| && ops[i].NewChallenge? && ops[i].nonce == nonce && nonce !in Run(signed, r, ops[..i]).challenges
  }

  lemma ChallengeStep(signed: EnrollInput -> bool, r: Registry, op: EnrollmentOp, nonce: Nonce)
    requires Sound(r)
    ensures var after := Perform(signed, r, op);
            var used := Outcome(signed, r, op).Some? && Outcome(signed, r, op).value.EnrolledAs? && op.input.challenge == nonce;
            && (used ==> nonce in r.challenges && r.challenges[nonce].consumedAt.None? && op.now <= r.challenges[nonce].expiresAt)
            && (nonce in after.challenges <==> nonce in r.challenges || (op.NewChallenge? && op.nonce == nonce))
            && (nonce in r.challenges ==>
                  && after.challenges[nonce].expiresAt == r.challenges[nonce].expiresAt
                  && (after.challenges[nonce].consumedAt.Some? <==> r.challenges[nonce].consumedAt.Some? || used))
            && (nonce !in r.challenges && nonce in after.challenges ==>
                  after.challenges[nonce] == Challenge(op.expiresAt, None))
  {
  }

  lemma OutcomePrefix(signed: EnrollInput -> bool, r: Registry, ops: seq<EnrollmentOp>, n: nat, i: nat)
    requires Sound(r) && i < n <= |ops|
    ensures OutcomeAt(signed, r, ops[..n], i) == OutcomeAt(signed, r, ops, i)
    ensures forall nonce :: IssuesChallenge(signed, r, ops[..n], i, nonce) <==> IssuesChallenge(signed, r, ops, i, nonce)
  {
    assert ops[..n][..i] == ops[..i];
  }

  /** A challenge is in the table because some operation issued it, and has the expiry it was issued with. */
  lemma {:induction false} ChallengeWasIssued(signed: EnrollInput -> bool, r: Registry, ops: seq<EnrollmentOp>, nonce: Nonce) returns (i: nat)
    requires Empty(r) && nonce in Run(signed, r, ops).challenges
    ensures IssuesChallenge(signed, r, ops, i, nonce)
    ensures Run(signed, r, ops).challenges[nonce].expiresAt == ops[i].expiresAt
  {
    var n := |ops| - 1;
    var before := Run(signed, r, ops[..n]);
    ChallengeStep(signed, before, ops[n], nonce);
    if nonce in before.challenges {
      i := ChallengeWasIssued(signed, r, ops[..n], nonce);
      OutcomePrefix(signed, r, ops, n, i);
    } else {
      i := n;
    }
  }

  lemma UsesPrefix(signed: EnrollInput -> bool, r: Registry, ops: seq<EnrollmentOp>, nonce: Nonce, i: nat)
    requires Sound(r) && i < |ops| - 1
    ensures UsesChallenge(signed, r, ops, i, nonce) <==> UsesChallenge(signed, r, ops[..|ops| - 1], i, nonce)
  {
    OutcomePrefix(signed, r, ops, |ops| - 1, i);
  }

  ghost predicate Used(signed: EnrollInput -> bool, r: Registry, ops: seq<EnrollmentOp>, nonce: Nonce)
    requires Sound(r)
  {
    exists i: nat :: UsesChallenge(signed, r, ops, i, nonce)
  }

  predicate IsConsumed(challenges: ChallengeTable, nonce: Nonce) {
    nonce in challenges && challenges[nonce].consumedAt.Some?
  }

  lemma UsedSnoc(signed: EnrollInput -> bool, r: Registry, ops: seq<EnrollmentOp>, nonce: Nonce)
    requires Sound(r) && ops != []
    ensures Used(signed, r, ops, nonce)
            <==> Used(signed, r, ops[..|ops| - 1], nonce) || UsesChallenge(signed, r, ops, |ops| - 1, nonce)
  {
    var n: nat := |ops| - 1;
    if i: nat :| i < n && UsesChallenge(signed, r, ops, i, nonce) {
      UsesPrefix(signed, r, ops, nonce, i);
    }
    if i: nat :| UsesChallenge(signed, r, ops[..n], i, nonce) {
      UsesPrefix(signed, r, ops, nonce, i);
    }
  }

  /** A challenge is consumed exactly when a committed enrollment used it. */
  lemma {:induction false} ConsumedMeansUsed(signed: EnrollInput -> bool, r: Registry, ops: seq<EnrollmentOp>, nonce: Nonce)
    requires Empty(r)
    ensures Used(signed, r, ops, nonce) <==> IsConsumed(Run(signed, r, ops).challenges, nonce)
  {
    if ops != [] {
      var n := |ops| - 1;
      ConsumedMeansUsed(signed, r, ops[..n], nonce);
      ChallengeStep(signed, Run(signed, r, ops[..n]), ops[n], nonce);
      UsedSnoc(signed, r, ops, nonce);
    }
  }

  /** At most one committed enrollment uses a challenge: after one has, no other does. */
  lemma ChallengeIsUsedOnce(signed: EnrollInput -> bool, r: Registry, ops: seq<EnrollmentOp>, nonce: Nonce, i: nat, j: nat)
    requires Empty(r) && i < j < |ops|
    requires UsesChallenge(signed, r, ops, i, nonce)
    ensures !UsesChallenge(signed, r, ops, j, nonce)
  {
    OutcomePrefix(signed, r, ops, j, i);
    assert UsesChallenge(signed, r, ops[..j], i, nonce);
    ConsumedMeansUsed(signed, r, ops[..j], nonce);
    ChallengeStep(signed, Run(signed, r, ops[..j]), ops[j], nonce);
  }

  /** A committed enrollment used a challenge issued before it and not expired at the time. */
  lemma EnrollmentUsesALiveChallenge(signed: EnrollInput -> bool, r: Registry, ops: seq<EnrollmentOp>, i: nat) returns (k: nat)
    requires Empty(r) && Enrolls(signed, r, ops, i)
    ensures k < i && IssuesChallenge(signed, r, ops, k, ops[i].input.challenge)
    ensures ops[i].now <= ops[k].expiresAt
  {
    ChallengeStep(signed, Run(signed, r, ops[..i]), ops[i], ops[i].input.challenge);
    k := ChallengeWasIssued(signed, r, ops[..i], ops[i].input.challenge);
    OutcomePrefix(signed, r, ops, i, k);
  }

  /** Two committed enrollments used two challenges, issued by two operations. */
  lemma EnrollmentsUseDistinctChallenges(signed: EnrollInput -> bool, r: Registry, ops: seq<EnrollmentOp>, i: nat, j: nat)
    requires Empty(r) && i != j && Enrolls(signed, r, ops, i) && Enrolls(signed, r, ops, j)
    ensures ops[i].input.challenge != ops[j].input.challenge
  {
    if i < j {
      ChallengeIsUsedOnce(signed, r, ops, ops[i].input.challenge, i, j);
    } else {
      ChallengeIsUsedOnce(signed, r, ops, ops[j].input.challenge, j, i);
    }
  }

  // ----- rejections -----

  /** What it takes to enroll: a usable challenge, a signature, and an android id that is not given, free, or pinned to
      the key presented (an empty one is never looked up, so it has to be free). */
  predicate Admitted(signed: EnrollInput -> bool, r: Registry, input: EnrollInput, now: Instant) {
    && ChallengeRefusal(r.challenges, input.challenge, now).None?
    && signed(input)
    && (|| input.androidId.None?
        || WithAndroidId(r.devices, input.androidId.value) == {}
        || (&& input.androidId.value != ""
            && exists id :: id in r.devices && r.devices[id].androidId == input.androidId
                            && r.devices[id].publicKey == Some(input.publicKey)))
  }

  lemma EnrollsWhenAdmitted(signed: EnrollInput -> bool, r: Registry, input: EnrollInput, now: Instant, newId: DeviceId)
    requires UniqueAndroidIds(r.devices)
    ensures Enroll(signed, r, input, now, newId).1.EnrolledAs? <==> Admitted(signed, r, input, now)
  {
    if input.androidId.Some? && WithAndroidId(r.devices, input.androidId.value) != {} {
      var id :| id in WithAndroidId(r.devices, input.androidId.value);
      KnownIsTheOne(r.devices, input.androidId.value, id);
    }
  }

  predicate Usable(challenges: ChallengeTable, nonce: Nonce, now: Instant) {
    nonce in challenges && challenges[nonce].consumedAt.None? && now <= challenges[nonce].expiresAt
  }

  /** Which refusal for which cause, in the order they are looked for: the causes exclude one another. */
  lemma RefusalHasItsCause(signed: EnrollInput -> bool, r: Registry, input: EnrollInput, now: Instant, newId: DeviceId)
    requires UniqueAndroidIds(r.devices)
    ensures match Enroll(signed, r, input, now, newId).1
            case EnrolledAs(_) => Admitted(signed, r, input, now)
            case Refused(ChallengeNotFound) => input.challenge !in r.challenges
            case Refused(ChallengeConsumed) => input.challenge in r.challenges && r.challenges[input.challenge].consumedAt.Some?
            case Refused(ChallengeExpired) =>
              && input.challenge in r.challenges && r.challenges[input.challenge].consumedAt.None?
              && r.challenges[input.challenge].expiresAt < now
            case Refused(InvalidSignature) => Usable(r.challenges, input.challenge, now) && !signed(input)
            case Refused(IdentityMismatch) =>
              && Usable(r.challenges, input.challenge, now) && signed(input)
              && input.androidId.Some? && input.androidId.value != ""
              && exists id :: id in r.devices && r.devices[id].androidId == input.androidId
                              && r.devices[id].publicKey != Some(input.publicKey)
            case Refused(AlreadyEnrolled) =>
              && Usable(r.challenges, input.challenge, now) && signed(input)
              && input.androidId == Some("") && exists id :: id in r.devices && r.devices[id].androidId == input.androidId
  {
    EnrollsWhenAdmitted(signed, r, input, now, newId);
    if input.androidId.Some? && WithAndroidId(r.devices, input.androidId.value) != {} {
      var id :| id in WithAndroidId(r.devices, input.androidId.value);
      KnownIsTheOne(r.devices, input.androidId.value, id);
      assert r.devices[id].androidId == input.androidId;
    }
  }

  /** A rejected attempt leaves every table as it was: whoever comes next, with the same challenge or another, is admitted
      exactly as if it had not been made. */
  lemma RejectionRollsBack(signed: EnrollInput -> bool, r: Registry, input: EnrollInput, now: Instant, newId: DeviceId,
                           retry: EnrollInput, later: Instant, retryId: DeviceId)
    requires Sound(r) && newId !in r.drawn && !Admitted(signed, r, input, now)
    ensures var after := Perform(signed, r, EnrollDevice(input, now, newId));
            && after == r
            && (Enroll(signed, after, retry, later, retryId).1.EnrolledAs? <==> Admitted(signed, r, retry, later))
  {
    EnrollsWhenAdmitted(signed, r, input, now, newId);
    EnrollsWhenAdmitted(signed, r, retry, later, retryId);
  }

  /** The run without the enrollments that were rejected. */
  ghost function WithoutRejected(signed: EnrollInput -> bool, r: Registry, ops: seq<EnrollmentOp>): seq<EnrollmentOp>
    requires Sound(r)
  {
    if ops == [] then []
    else
      var n := |ops| - 1;
      var before := WithoutRejected(signed, r, ops[..n]);
      if ops[n].EnrollDevice? && !Admitted(signed, Run(signed, r, ops[..n]), ops[n].input, ops[n].now) then before
      else before + [ops[n]]
  }

  /** However many attempts were rejected, and wherever in the run, the tables are those of the run without them. */
  lemma {:induction false} RejectionsLeaveNoTrace(signed: EnrollInput -> bool, r: Registry, ops: seq<EnrollmentOp>)
    requires Sound(r)
    ensures Run(signed, r, WithoutRejected(signed, r, ops)) == Run(signed, r, ops)
  {
    if ops != [] {
      var n := |ops| - 1;
      var before, kept := Run(signed, r, ops[..n]), WithoutRejected(signed, r, ops[..n]);
      RejectionsLeaveNoTrace(signed, r, ops[..n]);
      assert (kept + [ops[n]])[..|kept|] == kept;
      if ops[n].EnrollDevice? {
        EnrollsWhenAdmitted(signed, before, ops[n].input, ops[n].now, ops[n].newId);
      }
    }
  }

  /** Operation `i` issued `nonce`, until `now` or later. */
  ghost predicate IssuesUntil(signed: EnrollInput -> bool, r: Registry, ops: seq<EnrollmentOp>, i: nat, nonce: Nonce,
                              now: Instant)
    requires Sound(r)
  {
    IssuesChallenge(signed, r, ops, i, nonce) && now <= ops[i].expiresAt
  }

  lemma UsableWasIssued(signed: EnrollInput -> bool, r: Registry, ops: seq<EnrollmentOp>, nonce: Nonce, now: Instant)
    returns (i: nat)
    requires Empty(r) && ChallengeRefusal(Run(signed, r, ops).challenges, nonce, now).None?
    ensures IssuesUntil(signed, r, ops, i, nonce, now)
  {
    i := ChallengeWasIssued(signed, r, ops, nonce);
  }

  lemma IssuedIsUsable(signed: EnrollInput -> bool, r: Registry, ops: seq<EnrollmentOp>, nonce: Nonce, now: Instant, i: nat)
    requires Sound(r) && IssuesUntil(signed, r, ops, i, nonce, now)
    requires !IsConsumed(Run(signed, r, ops).challenges, nonce)
    ensures ChallengeRefusal(Run(signed, r, ops).challenges, nonce, now).None?
  {
    IssuedChallengeStays(signed, r, ops, nonce, i);
  }

  /** Over whole runs: a challenge is usable exactly when it was issued, has not run out, and no committed enrollment used
      it, whatever was rejected meanwhile. */
  lemma ChallengeIsUsable(signed: EnrollInput -> bool, r: Registry, ops: seq<EnrollmentOp>, nonce: Nonce, now: Instant)
    requires Empty(r)
    ensures ChallengeRefusal(Run(signed, r, ops).challenges, nonce, now).None?
            <==> !Used(signed, r, ops, nonce) && exists i: nat :: IssuesUntil(signed, r, ops, i, nonce, now)
  {
    ConsumedMeansUsed(signed, r, ops, nonce);
    if ChallengeRefusal(Run(signed, r, ops).challenges, nonce, now).None? {
      var i := UsableWasIssued(signed, r, ops, nonce, now);
    } else if i: nat :| IssuesUntil(signed, r, ops, i, nonce, now) {
      if !IsConsumed(Run(signed, r, ops).challenges, nonce) {
        IssuedIsUsable(signed, r, ops, nonce, now, i);
      }
    }
  }

  /** An issued challenge stays in the table, with the expiry it was issued with. */
  lemma {:induction false} IssuedChallengeStays(signed: EnrollInput -> bool, r: Registry, ops: seq<EnrollmentOp>,
                                                nonce: Nonce, i: nat)
    requires Sound(r) && IssuesChallenge(signed, r, ops, i, nonce)
    ensures var after := Run(signed, r, ops).challenges;
            nonce in after && after[nonce].expiresAt == ops[i].expiresAt
  {
    var n := |ops| - 1;
    ChallengeStep(signed, Run(signed, r, ops[..n]), ops[n], nonce);
    if i < n {
      OutcomePrefix(signed, r, ops, n, i);
      IssuedChallengeStays(signed, r, ops[..n], nonce, i);
    }
  }
}
