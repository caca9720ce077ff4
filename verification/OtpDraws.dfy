/** The draws of one `generateOTP` among whatever else happens to the table. */
module OtpDraws {
  import opened Devices
  import opened OtpCodes
  import opened OtpRuns
  import opened OtpStore

  /** `draws` are the positions, in the history from `since` on, of issues of six-digit codes drawn by one call. */
  ghost predicate DrawnSince(history: seq<OtpOp>, since: nat, start: Instant, expiresAt: Instant, draws: seq<nat>) {
    && (forall k | 0 <= k < |draws| :: since <= draws[k] < |history| && IsDraw(history[draws[k]], start, expiresAt))
    && Increasing(draws)
  }

  predicate IsDraw(op: OtpOp, start: Instant, expiresAt: Instant) {
    op.Issue? && IsOtpCode(op.code) && op.expiresAt == expiresAt && op.now >= start
  }

  /** The first `n` draws were refused. */
  ghost predicate DrawsRefused(history: seq<OtpOp>, draws: seq<nat>, n: nat) {
    n <= |draws| && forall k | 0 <= k < n :: draws[k] < |history| && !Succeeds(history, draws[k])
  }

  ghost predicate AllRefused(history: seq<OtpOp>, since: nat, start: Instant, expiresAt: Instant, draws: seq<nat>) {
    DrawnSince(history, since, start, expiresAt, draws) && DrawsRefused(history, draws, |draws|)
  }

  /** The last operation of the history issued `code`, which nobody could use, and changed no other code. */
  ghost predicate TakesFreeCode(history: seq<OtpOp>, code: Code, expiresAt: Instant) {
    && history != []
    && var n := |history| - 1;
       var before := RunOps([], history[..n]);
       && Issuable(Pending(before), code, history[n].now)
       && Pending(RunOps([], history)) == Pending(before)[code := expiresAt]
  }

  /** Every draw but the last was refused; the last, the end of the history, took a free code. */
  ghost predicate LastIssued(history: seq<OtpOp>, since: nat, start: Instant, expiresAt: Instant, draws: seq<nat>, code: Code) {
    && DrawnSince(history, since, start, expiresAt, draws)
    && draws != [] && DrawsRefused(history, draws, |draws| - 1)
    && draws[|draws| - 1] == |history| - 1 && history[|history| - 1].code == code
    && TakesFreeCode(history, code, expiresAt)
  }

  /** Refused draws write nothing. */
  lemma {:induction false} RefusedDrawsWriteNothing(history: seq<OtpOp>, since: nat)
    requires since <= |history|
    requires forall k | since <= k < |history| :: history[k].Issue? && !Succeeds(history, k)
    ensures RunOps([], history) == RunOps([], history[..since])
    decreases |history|
  {
    if since == |history| {
      assert history[..since] == history;
    } else {
      var before := history[..|history| - 1];
      forall k | since <= k < |before| ensures !Succeeds(before, k) {
        SucceedsPrefix(history, |before|, k);
      }
      RefusedDrawsWriteNothing(before, since);
      assert before[..since] == history[..since];
      assert !Succeeds(history, |before|);
    }
  }

  predicate Increasing(draws: seq<nat>) {
    forall k | 0 < k < |draws| :: draws[k - 1] < draws[k]
  }

  lemma {:induction false} AtLeast(draws: seq<nat>, since: nat, k: nat)
    requires Increasing(draws) && k < |draws| && draws[0] >= since
    ensures draws[k] >= since + k
  {
    if k > 0 {
      AtLeast(draws, since, k - 1);
    }
  }

  lemma {:induction false} AtMost(draws: seq<nat>, end: nat, k: nat)
    requires Increasing(draws) && k < |draws| && draws[|draws| - 1] < end
    ensures draws[k] <= end - (|draws| - k)
    decreases |draws| - k
  {
    if k + 1 < |draws| {
      AtMost(draws, end, k + 1);
    }
  }

  /** A call that nothing interrupted, and whose every draw was refused, leaves the table as it was. */
  lemma FailureAloneWritesNothing(before: seq<OtpOp>, history: seq<OtpOp>, start: Instant, expiresAt: Instant, draws: seq<nat>)
    requires before <= history && AllRefused(history, |before|, start, expiresAt, draws)
    ensures |history| == |before| + |draws| ==> RunOps([], history) == RunOps([], before)
  {
    var since := |before|;
    if |history| == since + |draws| {
      forall k | since <= k < |history| ensures history[k].Issue? && !Succeeds(history, k) {
        AtLeast(draws, since, k - since);
        AtMost(draws, |history|, k - since);
        assert draws[k - since] == k;
      }
      RefusedDrawsWriteNothing(history, since);
      assert history[..since] == before;
    }
  }

  /** The history went on, ending with one more draw. */
  lemma DrawnOnceMore(before: seq<OtpOp>, after: seq<OtpOp>, since: nat, start: Instant, expiresAt: Instant, draws: seq<nat>)
    requires since <= |before| && before < after && IsDraw(after[|after| - 1], start, expiresAt)
    requires DrawnSince(before, since, start, expiresAt, draws)
    ensures DrawnSince(after, since, start, expiresAt, draws + [|after| - 1])
  {
    forall k | 0 <= k < |draws| ensures after[draws[k]] == before[draws[k]] {}
  }

  lemma StillRefused(before: seq<OtpOp>, after: seq<OtpOp>, draws: seq<nat>, draw: nat)
    requires before <= after && DrawsRefused(before, draws, |draws|)
    ensures DrawsRefused(after, draws + [draw], |draws|)
  {
    assert after[..|before|] == before;
    forall k | 0 <= k < |draws| ensures !Succeeds(after, draws[k]) {
      SucceedsPrefix(after, |before|, draws[k]);
    }
  }

  lemma OneMoreDraw(before: seq<OtpOp>, after: seq<OtpOp>, since: nat, start: Instant, expiresAt: Instant, draws: seq<nat>)
    requires since <= |before| && before < after && IsDraw(after[|after| - 1], start, expiresAt)
    requires AllRefused(before, since, start, expiresAt, draws)
    ensures var drawn := draws + [|after| - 1];
            if Succeeds(after, |after| - 1)
            then TakesFreeCode(after, after[|after| - 1].code, expiresAt) ==>
                   LastIssued(after, since, start, expiresAt, drawn, after[|after| - 1].code)
            else AllRefused(after, since, start, expiresAt, drawn)
  {
    DrawnOnceMore(before, after, since, start, expiresAt, draws);
    StillRefused(before, after, draws, |after| - 1);
  }

  /** Whether an operation succeeded does not depend on what follows. */
  lemma OutcomeIsFixed(before: seq<OtpOp>, op: OtpOp, others: seq<OtpOp>)
    ensures var history := before + [op] + others;
            history[|before|] == op && Succeeds(history, |before|) == PerformOtp(RunOps([], before), op).1
  {
    assert (before + [op] + others)[..|before|] == before;
  }
}
