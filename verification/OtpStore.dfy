/**
 * The `enrollment_otps` table.
 *
 * Rows are never deleted: a consumed code is history, a code that ran out is recycled in place. Seen from outside, the
 * table is a map from pending codes to their expiry, and every run of the table is a run of that map.
 */
module OtpStore {
  import opened Wrappers
  import opened Devices

  type Code = string

  datatype Otp = Otp(code: Code, expiresAt: Instant, consumedAt: Option<Instant>)

  datatype OtpOp =
    | Issue(code: Code, expiresAt: Instant, now: Instant)
    | Consume(code: Code, now: Instant)

  predicate PendingAt(rows: seq<Otp>, code: Code, i: nat) {
    i < |rows| && rows[i].code == code && rows[i].consumedAt.None?
  }

  /** The partial unique index: `code` where `consumed_at is null`. */
  predicate UniquePending(rows: seq<Otp>) {
    forall i, j | 0 <= i < j < |rows| && rows[i].consumedAt.None? && rows[j].consumedAt.None? :: rows[i].code != rows[j].code
  }

  /** The row holding `code`, or `|rows|`. */
  function Holder(rows: seq<Otp>, code: Code): (i: nat)
    ensures i <= |rows|
    ensures i < |rows| ==> PendingAt(rows, code, i)
    ensures i == |rows| ==> forall j: nat :: !PendingAt(rows, code, j)
  {
    if rows == [] then 0
    else if rows[0].code == code && rows[0].consumedAt.None? then 0
    else
      var i := Holder(rows[1..], code);
      assert forall j: nat | j > 0 :: PendingAt(rows, code, j) <==> PendingAt(rows[1..], code, j - 1);
      i + 1
  }

  // ----- the two statements -----

  /** `insert … on conflict (code) where consumed_at is null do update … where expires_at <= now`: the rows after, and
      whether a row came back. */
  function Issued(rows: seq<Otp>, code: Code, expiresAt: Instant, now: Instant): (seq<Otp>, bool) {
    var i := Holder(rows, code);
    if i == |rows| then (rows + [Otp(code, expiresAt, None)], true)
    else if rows[i].expiresAt <= now then (rows[i := rows[i].(expiresAt := expiresAt)], true)
    else (rows, false)
  }

  /** `update … set consumed_at = now where code = … and consumed_at is null and expires_at > now`. */
  function Consumed(rows: seq<Otp>, code: Code, now: Instant): (seq<Otp>, bool) {
    var i := Holder(rows, code);
    if i < |rows| && rows[i].expiresAt > now then (rows[i := rows[i].(consumedAt := Some(now))], true) else (rows, false)
  }

  function PerformOtp(rows: seq<Otp>, op: OtpOp): (seq<Otp>, bool) {
    match op
    case Issue(code, expiresAt, now) => Issued(rows, code, expiresAt, now)
    case Consume(code, now) => Consumed(rows, code, now)
  }

  // ----- the abstract map -----

  /** The codes waiting to be used, with their expiry. */
  ghost function Pending(rows: seq<Otp>): map<Code, Instant> {
    map code | code in (set row | row in rows :: row.code) && Holder(rows, code) < |rows| :: rows[Holder(rows, code)].expiresAt
  }

  predicate Consumable(pending: map<Code, Instant>, code: Code, now: Instant) {
    code in pending && pending[code] > now
  }

  predicate Issuable(pending: map<Code, Instant>, code: Code, now: Instant) {
    code in pending ==> pending[code] <= now
  }

  function PerformOnMap(pending: map<Code, Instant>, op: OtpOp): (map<Code, Instant>, bool) {
    match op
    case Issue(code, expiresAt, now) =>
      if Issuable(pending, code, now) then (pending[code := expiresAt], true) else (pending, false)
    case Consume(code, now) =>
      if Consumable(pending, code, now) then (pending - {code}, true) else (pending, false)
  }

  /** The unique index makes "the row that holds a code" mean something. */
  lemma HolderIsUnique(rows: seq<Otp>, code: Code, i: nat)
    requires UniquePending(rows) && PendingAt(rows, code, i)
    ensures Holder(rows, code) == i
  {
    var h := Holder(rows, code);
    assert PendingAt(rows, code, h);
  }

  lemma PendingKeys(rows: seq<Otp>, code: Code)
    ensures code in Pending(rows) <==> Holder(rows, code) < |rows|
    ensures code in Pending(rows) ==> Pending(rows)[code] == rows[Holder(rows, code)].expiresAt
  {
    if Holder(rows, code) < |rows| {
      assert rows[Holder(rows, code)] in rows;
    }
  }

  lemma StepKeepsUnique(rows: seq<Otp>, op: OtpOp)
    requires UniquePending(rows)
    ensures UniquePending(PerformOtp(rows, op).0)
  {
    var h := Holder(rows, op.code);
    if h == |rows| {
      forall i: nat | i < |rows| && rows[i].consumedAt.None? ensures rows[i].code != op.code {
        assert !PendingAt(rows, op.code, i);
      }
    }
  }

  predicate SameAt(a: map<Code, Instant>, b: map<Code, Instant>, code: Code) {
    (code in a <==> code in b) && (code in a ==> a[code] == b[code])
  }

  lemma SameEverywhere(a: map<Code, Instant>, b: map<Code, Instant>)
    requires forall code :: SameAt(a, b, code)
    ensures a == b
  {
    assert forall code :: code in a ==> SameAt(a, b, code);
    assert forall code :: code in b ==> SameAt(a, b, code);
  }

  /** Another code's row stays where it was. */
  lemma OtherHolders(rows: seq<Otp>, op: OtpOp, code: Code)
    requires UniquePending(rows) && code != op.code
    ensures var after := PerformOtp(rows, op).0;
            var h := Holder(rows, code);
            if h < |rows| then Holder(after, code) == h && after[h] == rows[h] else Holder(after, code) == |after|
  {
    var after := PerformOtp(rows, op).0;
    StepKeepsUnique(rows, op);
    var h := Holder(rows, code);
    var h' := Holder(after, code);
    if h < |rows| {
      assert PendingAt(after, code, h);
      HolderIsUnique(after, code, h);
    } else if h' < |after| {
      assert PendingAt(rows, code, h');
    }
  }

  /** A code other than the operation's is neither issued, consumed nor moved. */
  lemma OtherCodes(rows: seq<Otp>, op: OtpOp, code: Code)
    requires UniquePending(rows) && code != op.code
    ensures SameAt(Pending(PerformOtp(rows, op).0), Pending(rows), code)
  {
    OtherHolders(rows, op, code);
    PendingKeys(rows, code);
    PendingKeys(PerformOtp(rows, op).0, code);
  }

  lemma OwnCode(rows: seq<Otp>, op: OtpOp)
    requires UniquePending(rows)
    ensures PerformOtp(rows, op).1 == PerformOnMap(Pending(rows), op).1
    ensures SameAt(Pending(PerformOtp(rows, op).0), PerformOnMap(Pending(rows), op).0, op.code)
  {
    var after := PerformOtp(rows, op).0;
    StepKeepsUnique(rows, op);
    PendingKeys(rows, op.code);
    PendingKeys(after, op.code);
    var h := Holder(rows, op.code);
    if PerformOtp(rows, op).1 && op.Issue? {
      assert PendingAt(after, op.code, h);
      HolderIsUnique(after, op.code, h);
    } else if PerformOtp(rows, op).1 {
      var h' := Holder(after, op.code);
      if h' < |after| {
        assert PendingAt(rows, op.code, h');
        HolderIsUnique(rows, op.code, h');
      }
    }
  }

  /** The table refines the map: same answer, same map after. */
  lemma TableRefinesMap(rows: seq<Otp>, op: OtpOp)
    requires UniquePending(rows)
    ensures UniquePending(PerformOtp(rows, op).0)
    ensures Pending(PerformOtp(rows, op).0) == PerformOnMap(Pending(rows), op).0
    ensures PerformOtp(rows, op).1 == PerformOnMap(Pending(rows), op).1
  {
    StepKeepsUnique(rows, op);
    OwnCode(rows, op);
    forall code ensures SameAt(Pending(PerformOtp(rows, op).0), PerformOnMap(Pending(rows), op).0, code) {
      if code != op.code {
        OtherCodes(rows, op, code);
      }
    }
    SameEverywhere(Pending(PerformOtp(rows, op).0), PerformOnMap(Pending(rows), op).0);
  }

  /** At any instant, a code can be consumed or issued, never both and never neither. */
  lemma ConsumableOrIssuable(rows: seq<Otp>, code: Code, expiresAt: Instant, now: Instant)
    requires UniquePending(rows)
    ensures PerformOtp(rows, Consume(code, now)).1 <==> !PerformOtp(rows, Issue(code, expiresAt, now)).1
  {
    TableRefinesMap(rows, Consume(code, now));
    TableRefinesMap(rows, Issue(code, expiresAt, now));
  }
}
