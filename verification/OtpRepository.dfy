/** `OtpRepository`: the table updated in place, one statement a method. */
module OtpRepositories {
  import opened Wrappers
  import opened Devices
  import opened OtpStore
  import opened OtpRuns

  class OtpRepository {
    var rows: seq<Otp>
    ghost var history: seq<OtpOp>

    ghost predicate Valid()
      reads this
    {
      rows == RunOps([], history)
    }

    constructor ()
      ensures Valid() && rows == [] && history == []
    {
      rows, history := [], [];
    }

    ghost method Record(op: OtpOp)
      requires rows == PerformOtp(RunOps([], history), op).0
      modifies this`history
      ensures Valid() && history == old(history) + [op]
    {
      assert (history + [op])[..|history|] == history;
      history := history + [op];
    }

    /** `await`: other calls issue and consume codes. */
    method Interleave(others: seq<OtpOp>)
      requires Valid()
      modifies this
      ensures Valid() && history == old(history) + others
    {
      RunOpsConcat([], history, others);
      rows := RunOps(rows, others);
      history := history + others;
    }

    /** Inserts the code, recycles the row that let it run out, or refuses it because it is still usable. */
    method Issue(code: Code, expiresAt: Instant, now: Instant) returns (row: Option<Otp>)
      requires Valid()
      modifies this
      ensures Valid() && history == old(history) + [OtpStore.Issue(code, expiresAt, now)]
      ensures row.Some? <==> Issuable(Pending(old(rows)), code, now)
      ensures row.Some? ==> row.value == Otp(code, expiresAt, None) && Pending(rows) == Pending(old(rows))[code := expiresAt]
      ensures row.None? ==> rows == old(rows)
    {
      RunKeepsUnique(history);
      TableRefinesMap(rows, OtpStore.Issue(code, expiresAt, now));
      var i := Holder(rows, code);
      if i == |rows| {
        rows := rows + [Otp(code, expiresAt, None)];
        row := Some(rows[i]);
      } else if rows[i].expiresAt <= now {
        rows := rows[i := rows[i].(expiresAt := expiresAt)];
        row := Some(rows[i]);
      } else {
        row := None;
      }
      Record(OtpStore.Issue(code, expiresAt, now));
    }

    /** Uses the pending, unexpired code, once. */
    method Consume(code: Code, now: Instant) returns (row: Option<Otp>)
      requires Valid()
      modifies this
      ensures Valid() && history == old(history) + [OtpStore.Consume(code, now)]
      ensures row.Some? <==> Consumable(Pending(old(rows)), code, now)
      ensures row.Some? ==> row.value.code == code && row.value.consumedAt == Some(now)
      ensures row.Some? ==> Pending(rows) == Pending(old(rows)) - {code}
      ensures row.None? ==> rows == old(rows)
    {
      RunKeepsUnique(history);
      TableRefinesMap(rows, OtpStore.Consume(code, now));
      var i := Holder(rows, code);
      if i < |rows| && rows[i].expiresAt > now {
        rows := rows[i := rows[i].(consumedAt := Some(now))];
        row := Some(rows[i]);
      } else {
        row := None;
      }
      Record(OtpStore.Consume(code, now));
    }
  }
}
