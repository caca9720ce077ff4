/** The OTP table over whole runs of `issue` and `consume`, from an empty table. */
module OtpRuns {
  import opened Wrappers
  import opened Devices
  import opened OtpStore
  import opened OtpCodes

  function RunOps(rows: seq<Otp>, ops: seq<OtpOp>): seq<Otp> {
    if ops == [] then rows else PerformOtp(RunOps(rows, ops[..|ops| - 1]), ops[|ops| - 1]).0
  }

  /** Operation `i` of the run returned a row. */
  predicate Succeeds(ops: seq<OtpOp>, i: nat)
    requires i < |ops|
  {
    PerformOtp(RunOps([], ops[..i]), ops[i]).1
  }

  lemma {:induction false} RunKeepsUnique(ops: seq<OtpOp>)
    ensures UniquePending(RunOps([], ops))
  {
    if ops != [] {
      RunKeepsUnique(ops[..|ops| - 1]);
      StepKeepsUnique(RunOps([], ops[..|ops| - 1]), ops[|ops| - 1]);
    }
  }

  lemma {:induction false} RunOpsConcat(rows: seq<Otp>, a: seq<OtpOp>, b: seq<OtpOp>)
    ensures RunOps(rows, a + b) == RunOps(RunOps(rows, a), b)
    decreases |b|
  {
    if b == [] {
      assert a + b == a;
    } else {
      RunOpsConcat(rows, a, b[..|b| - 1]);
      assert (a + b)[..|a + b| - 1] == a + b[..|b| - 1];
    }
  }

  // ----- issues and consumptions pair up -----

  /** Operation `i` issued `code` and nothing has touched the code between `i` and `j`. */
  predicate LastTouch(ops: seq<OtpOp>, code: Code, i: nat, j: nat)
    requires j <= |ops|
  {
    && i < j && ops[i].Issue? && ops[i].code == code && Succeeds(ops, i)
    && forall k: nat | i < k < j && ops[k].code == code :: !Succeeds(ops, k)
  }

  lemma SucceedsPrefix(ops: seq<OtpOp>, n: nat, i: nat)
    requires i < n <= |ops|
    ensures Succeeds(ops[..n], i) == Succeeds(ops, i)
  {
    assert ops[..n][..i] == ops[..i];
  }

  lemma LastTouchPrefix(ops: seq<OtpOp>, code: Code, i: nat, n: nat)
    requires n <= |ops|
    ensures LastTouch(ops[..n], code, i, n) <==> LastTouch(ops, code, i, n)
  {
    forall k: nat | k < n ensures Succeeds(ops[..n], k) == Succeeds(ops, k) {
      SucceedsPrefix(ops, n, k);
    }
  }

  /** One operation, seen from one code: untouched, or issued by it if it is pending afterwards. */
  lemma TouchOrNot(rows: seq<Otp>, op: OtpOp, code: Code)
    requires UniquePending(rows) && code in Pending(PerformOtp(rows, op).0)
    ensures if op.code == code && PerformOtp(rows, op).1
            then op.Issue? && Pending(PerformOtp(rows, op).0)[code] == op.expiresAt
            else code in Pending(rows) && Pending(PerformOtp(rows, op).0)[code] == Pending(rows)[code]
  {
    TableRefinesMap(rows, op);
  }

  lemma LastTouchExtends(ops: seq<OtpOp>, code: Code, i: nat)
    requires ops != [] && LastTouch(ops[..|ops| - 1], code, i, |ops| - 1)
    requires !(ops[|ops| - 1].code == code && Succeeds(ops, |ops| - 1))
    ensures LastTouch(ops, code, i, |ops|)
  {
    LastTouchPrefix(ops, code, i, |ops| - 1);
  }

  /** A pending code was issued, with the expiry it has, by the last successful operation on it. */
  lemma {:induction false} PendingWasIssued(ops: seq<OtpOp>, code: Code) returns (i: nat)
    requires code in Pending(RunOps([], ops))
    ensures LastTouch(ops, code, i, |ops|) && ops[i].expiresAt == Pending(RunOps([], ops))[code]
  {
    if ops == [] {
      PendingKeys([], code);
      assert false;
    } else {
      var n := |ops| - 1;
      RunKeepsUnique(ops[..n]);
      TouchOrNot(RunOps([], ops[..n]), ops[n], code);
      if ops[n].code == code && Succeeds(ops, n) {
        i := n;
      } else {
        i := PendingWasIssued(ops[..n], code);
        LastTouchExtends(ops, code, i);
      }
    }
  }

  /** Each successful consumption answers the issue that last touched its code, before that issue's expiry. */
  lemma ConsumptionFollowsIssue(ops: seq<OtpOp>, j: nat) returns (i: nat)
    requires j < |ops| && ops[j].Consume? && Succeeds(ops, j)
    ensures LastTouch(ops, ops[j].code, i, j) && ops[j].now < ops[i].expiresAt
  {
    var before := RunOps([], ops[..j]);
    RunKeepsUnique(ops[..j]);
    TableRefinesMap(before, ops[j]);
    i := PendingWasIssued(ops[..j], ops[j].code);
    LastTouchPrefix(ops, ops[j].code, i, j);
  }

  /** Two consumptions, of one code or of two, answer two different issues: a code works once. */
  lemma ConsumptionsAnswerDistinctIssues(ops: seq<OtpOp>, j: nat, k: nat) returns (i: nat, l: nat)
    requires j < |ops| && ops[j].Consume? && Succeeds(ops, j)
    requires k < |ops| && ops[k].Consume? && Succeeds(ops, k)
    requires j != k
    ensures LastTouch(ops, ops[j].code, i, j) && ops[j].now < ops[i].expiresAt
    ensures LastTouch(ops, ops[k].code, l, k) && ops[k].now < ops[l].expiresAt
    ensures i != l
  {
    i := ConsumptionFollowsIssue(ops, j);
    l := ConsumptionFollowsIssue(ops, k);
  }

  // ----- a code that comes back -----

  lemma IssuedIsPending(rows: seq<Otp>, op: OtpOp)
    requires UniquePending(rows) && op.Issue? && PerformOtp(rows, op).1
    ensures op.code in Pending(PerformOtp(rows, op).0) && Pending(PerformOtp(rows, op).0)[op.code] == op.expiresAt
  {
    TableRefinesMap(rows, op);
  }

  lemma UntouchedIsPending(rows: seq<Otp>, op: OtpOp, code: Code)
    requires UniquePending(rows) && code in Pending(rows) && !(op.code == code && PerformOtp(rows, op).1)
    ensures code in Pending(PerformOtp(rows, op).0) && Pending(PerformOtp(rows, op).0)[code] == Pending(rows)[code]
  {
    TableRefinesMap(rows, op);
  }

  lemma {:induction false} LastTouchIsPending(ops: seq<OtpOp>, code: Code, i: nat)
    requires LastTouch(ops, code, i, |ops|)
    ensures code in Pending(RunOps([], ops)) && Pending(RunOps([], ops))[code] == ops[i].expiresAt
  {
    var n := |ops| - 1;
    RunKeepsUnique(ops[..n]);
    if i == n {
      IssuedIsPending(RunOps([], ops[..n]), ops[n]);
    } else {
      LastTouchPrefix(ops, code, i, n);
      LastTouchIsPending(ops[..n], code, i);
      assert ops[n].code == code ==> !Succeeds(ops, n);
      UntouchedIsPending(RunOps([], ops[..n]), ops[n], code);
    }
  }

  /** A code is refused exactly while the issue that last touched it has not run out; used or run out, it comes back. */
  lemma IssueIsRefused(ops: seq<OtpOp>, j: nat)
    requires j < |ops| && ops[j].Issue?
    ensures !Succeeds(ops, j) <==> exists i: nat :: LastTouch(ops, ops[j].code, i, j) && ops[j].now < ops[i].expiresAt
  {
    var before, code := RunOps([], ops[..j]), ops[j].code;
    RunKeepsUnique(ops[..j]);
    TableRefinesMap(before, ops[j]);
    if !Succeeds(ops, j) {
      var i := PendingWasIssued(ops[..j], code);
      LastTouchPrefix(ops, code, i, j);
    }
    if i: nat :| LastTouch(ops, code, i, j) && ops[j].now < ops[i].expiresAt {
      LastTouchPrefix(ops, code, i, j);
      LastTouchIsPending(ops[..j], code, i);
    }
  }

  /** Any code can be issued twice over: once it ran out, or once it was used. */
  lemma CodeIsIssuedTwice(code: Code, at: Instant, ttl: nat)
    requires ttl > 0
    ensures var lapsed := [Issue(code, at + ttl, at), Issue(code, at + 2 * ttl, at + ttl)];
            Succeeds(lapsed, 0) && Succeeds(lapsed, 1)
    ensures var used := [Issue(code, at + ttl, at), Consume(code, at), Issue(code, at + ttl, at)];
            Succeeds(used, 0) && Succeeds(used, 1) && Succeeds(used, 2)
  {
    var first := Issue(code, at + ttl, at);
    var lapsed := [first, Issue(code, at + 2 * ttl, at + ttl)];
    var used := [first, Consume(code, at), first];
    assert lapsed[..0] == [] && used[..0] == [] && lapsed[..1] == [first] && used[..1] == [first] && [first][..0] == [];
    assert used[..2] == [first, Consume(code, at)] && [first, Consume(code, at)][..1] == [first];
    assert RunOps([], [first]) == [Otp(code, at + ttl, None)];
    assert RunOps([], used[..2]) == [Otp(code, at + ttl, Some(at))];
  }

  // ----- counting -----

  function Consumptions(ops: seq<OtpOp>): nat {
    if ops == [] then 0
    else
      var n := |ops| - 1;
      Consumptions(ops[..n]) + if ops[n].Consume? && Succeeds(ops, n) then 1 else 0
  }

  /** How many codes an operation adds to the map, and how many rows to the table. */
  lemma MapCount(pending: map<Code, Instant>, op: OtpOp)
    ensures |PerformOnMap(pending, op).0| == |pending|
         + (if op.Issue? && op.code !in pending then 1 else 0)
         - (if op.Consume? && PerformOnMap(pending, op).1 then 1 else 0)
  {
    var after := PerformOnMap(pending, op).0;
    assert |after| == |after.Keys| && |pending| == |pending.Keys|;
    if op.Issue? && op.code !in pending {
      assert after.Keys == pending.Keys + {op.code};
    } else if op.Consume? && PerformOnMap(pending, op).1 {
      assert after.Keys == pending.Keys - {op.code};
    } else {
      assert after.Keys == pending.Keys;
    }
  }

  lemma RowCount(rows: seq<Otp>, op: OtpOp)
    ensures |PerformOtp(rows, op).0| == |rows| + (if op.Issue? && op.code !in Pending(rows) then 1 else 0)
  {
    PendingKeys(rows, op.code);
  }

  lemma StepCount(rows: seq<Otp>, op: OtpOp)
    requires UniquePending(rows)
    ensures |PerformOtp(rows, op).0| - |Pending(PerformOtp(rows, op).0)|
         == |rows| - |Pending(rows)| + (if op.Consume? && PerformOtp(rows, op).1 then 1 else 0)
  {
    TableRefinesMap(rows, op);
    MapCount(Pending(rows), op);
    RowCount(rows, op);
  }

  lemma {:induction false} RunCount(ops: seq<OtpOp>)
    ensures |RunOps([], ops)| == Consumptions(ops) + |Pending(RunOps([], ops))|
  {
    if ops == [] {
      assert Pending([]) == map[];
    } else {
      var n := |ops| - 1;
      RunCount(ops[..n]);
      RunKeepsUnique(ops[..n]);
      StepCount(RunOps([], ops[..n]), ops[n]);
    }
  }

  lemma {:induction false} PendingAreRendered(ops: seq<OtpOp>, code: Code)
    requires forall op | op in ops && op.Issue? :: IsOtpCode(op.code)
    requires code in Pending(RunOps([], ops))
    ensures IsOtpCode(code)
  {
    var i := PendingWasIssued(ops, code);
    assert ops[i] in ops;
  }

  /** The table holds one row per consumption and one per pending code; of these there are at most a million. */
  lemma TableIsConserved(ops: seq<OtpOp>)
    requires forall op | op in ops && op.Issue? :: IsOtpCode(op.code)
    ensures |RunOps([], ops)| == Consumptions(ops) + |Pending(RunOps([], ops))|
    ensures |Pending(RunOps([], ops))| <= OTP_CODES
  {
    RunCount(ops);
    forall code | code in Pending(RunOps([], ops)).Keys ensures IsOtpCode(code) {
      PendingAreRendered(ops, code);
    }
    AtMostAMillion(Pending(RunOps([], ops)).Keys);
  }
}
