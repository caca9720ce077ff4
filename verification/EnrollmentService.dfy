/** `ChallengeRepository` and `EnrollmentService`, in place. */
module EnrollmentServices {
  import opened Wrappers
  import opened Devices
  import opened OtpStore
  import opened OtpCodes
  import opened OtpDraws
  import opened OtpRuns
  import opened OtpRepositories
  import opened Enrollment

  class ChallengeRepository {
    var rows: ChallengeTable

    constructor ()
      ensures rows == map[]
    {
      rows := map[];
    }

    /** Refused when the challenge exists already (unique column). */
    method Create(nonce: Nonce, expiresAt: int) returns (created: bool)
      modifies this
      ensures created <==> nonce !in old(rows)
      ensures rows == if created then old(rows)[nonce := Challenge(expiresAt, None)] else old(rows)
    {
      created := nonce !in rows;
      if created {
        rows := rows[nonce := Challenge(expiresAt, None)];
      }
    }

    method ByChallenge(nonce: Nonce) returns (row: Option<Challenge>)
      ensures row == if nonce in rows then Some(rows[nonce]) else None
    {
      row := if nonce in rows then Some(rows[nonce]) else None;
    }

    /** Stamps the row whatever its state: that it was usable is the caller's business. From then on the challenge is
        refused at every instant, and no other challenge is refused or accepted differently. */
    method MarkConsumed(nonce: Nonce, now: Instant)
      modifies this
      ensures rows == if nonce in old(rows) then old(rows)[nonce := old(rows)[nonce].(consumedAt := Some(now))] else old(rows)
      ensures forall t: Instant :: ChallengeRefusal(rows, nonce, t)
                          == Some(if nonce in old(rows) then ChallengeConsumed else ChallengeNotFound)
      ensures forall other, t: Instant | other != nonce :: ChallengeRefusal(rows, other, t) == ChallengeRefusal(old(rows), other, t)
    {
      if nonce in rows {
        rows := rows[nonce := rows[nonce].(consumedAt := Some(now))];
      }
    }
  }

  const MAX_OTP_ISSUE_ATTEMPTS: nat := 10

  class EnrollmentService {
    const challengeRepo: ChallengeRepository
    const otpRepo: OtpRepository

    constructor (challengeRepo: ChallengeRepository, otpRepo: OtpRepository)
      ensures this.challengeRepo == challengeRepo && this.otpRepo == otpRepo
    {
      this.challengeRepo, this.otpRepo := challengeRepo, otpRepo;
    }

    /** Exchanges a code for a challenge. The code works once, whatever other calls do between the two statements: it is
        consumable when it is consumed, and no longer; an unusable code (unknown, run out or used) writes nothing. The
        challenge is usable until its expiry and is all the call changes among the challenges. The nonce is random: it is
        not in the table when it is inserted. */
    method VerifyOTP(otp: Code, now: Instant, nonce: Nonce, ttlSeconds: int)
      returns (challenge: Option<Nonce>, ghost others: seq<OtpOp>, ghost found: ChallengeTable, ghost later: Instant)
      requires otpRepo.Valid() && nonce !in challengeRepo.rows
      modifies otpRepo, challengeRepo
      ensures otpRepo.Valid() && otpRepo.history == old(otpRepo.history) + [Consume(otp, now)] + others
      ensures challenge == if Consumable(Pending(old(otpRepo.rows)), otp, now) then Some(nonce) else None
      ensures Succeeds(otpRepo.history, |old(otpRepo.history)|) <==> challenge.Some?
      ensures challenge.Some? && others == [] ==> Pending(otpRepo.rows) == Pending(old(otpRepo.rows)) - {otp}
      ensures challenge.Some? ==>
                && nonce !in found && later >= now
                && (forall t: Instant :: ChallengeRefusal(challengeRepo.rows, nonce, t)
                                         == if t <= later + ttlSeconds * 1000 then None else Some(ChallengeExpired))
                && (forall other, t: Instant | other != nonce ::
                      ChallengeRefusal(challengeRepo.rows, other, t) == ChallengeRefusal(found, other, t))
      ensures challenge.None? ==>
                others == [] && otpRepo.rows == old(otpRepo.rows) && challengeRepo.rows == old(challengeRepo.rows)
    {
      others, found, later := [], challengeRepo.rows, now;
      ghost var before := otpRepo.history;
      RunKeepsUnique(before);
      TableRefinesMap(RunOps([], before), Consume(otp, now));
      var consumed := otpRepo.Consume(otp, now);
      OutcomeIsFixed(before, Consume(otp, now), []);
      assert before + [Consume(otp, now)] + [] == before + [Consume(otp, now)];
      if consumed.None? { return None, [], found, now; }
      var schedule: seq<OtpOp> := *;
      otpRepo.Interleave(schedule);
      OutcomeIsFixed(before, Consume(otp, now), schedule);
      InterleaveChallenges(nonce);
      var at: Instant :| at >= now;
      others, found, later := schedule, challengeRepo.rows, at;
      GenerateChallenge(at, nonce, ttlSeconds);
      challenge := Some(nonce);
      assert schedule == [] ==> before + [Consume(otp, now)] + schedule == before + [Consume(otp, now)];
    }

    /** `await`: other calls issue and consume challenges; none draws this nonce. */
    method InterleaveChallenges(nonce: Nonce)
      requires nonce !in challengeRepo.rows
      modifies challengeRepo
      ensures nonce !in challengeRepo.rows
    {
      var rows: ChallengeTable := *;
      challengeRepo.rows := rows - {nonce};
    }

    /** The new challenge is usable up to its expiry and refused past it; every other one is as usable as it was. */
    method GenerateChallenge(now: Instant, nonce: Nonce, ttlSeconds: int)
      requires nonce !in challengeRepo.rows
      modifies challengeRepo
      ensures challengeRepo.rows == old(challengeRepo.rows)[nonce := Challenge(now + ttlSeconds * 1000, None)]
      ensures forall t: Instant :: ChallengeRefusal(challengeRepo.rows, nonce, t)
                          == if t <= now + ttlSeconds * 1000 then None else Some(ChallengeExpired)
      ensures forall other, t: Instant | other != nonce ::
                ChallengeRefusal(challengeRepo.rows, other, t) == ChallengeRefusal(old(challengeRepo.rows), other, t)
    {
      var created := challengeRepo.Create(nonce, now + ttlSeconds * 1000);
    }

    method AssertChallengeValid(nonce: Nonce, now: Instant) returns (refusal: Option<Refusal>)
      ensures refusal == ChallengeRefusal(challengeRepo.rows, nonce, now)
    {
      var existing := challengeRepo.ByChallenge(nonce);
      if existing.None? { return Some(ChallengeNotFound); }
      if existing.value.consumedAt.Some? { return Some(ChallengeConsumed); }
      if existing.value.expiresAt < now { return Some(ChallengeExpired); }
      return None;
    }

    /** The challenge is refused from then on, at every instant; every other one is as usable as it was. */
    method ConsumeChallenge(nonce: Nonce, now: Instant)
      modifies challengeRepo
      ensures var before := old(challengeRepo.rows);
              challengeRepo.rows == if nonce in before then before[nonce := before[nonce].(consumedAt := Some(now))] else before
      ensures forall t: Instant :: ChallengeRefusal(challengeRepo.rows, nonce, t)
                          == Some(if nonce in old(challengeRepo.rows) then ChallengeConsumed else ChallengeNotFound)
      ensures forall other, t: Instant | other != nonce ::
                ChallengeRefusal(challengeRepo.rows, other, t) == ChallengeRefusal(old(challengeRepo.rows), other, t)
    {
      challengeRepo.MarkConsumed(nonce, now);
    }

    /** A random draw, rendered on six digits. */
    method GenerateOtpCode() returns (code: Code)
      ensures IsOtpCode(code)
    {
      var draw: nat :| draw < OTP_CODES;
      RenderedDraw(draw);
      code := RenderOtp(draw);
    }

    /** One draw, after whatever other calls did meanwhile: the code is issued or refused. */
    method DrawAndIssue(start: Instant, expiresAt: Instant) returns (code: Code, issued: bool)
      requires otpRepo.Valid()
      modifies otpRepo
      ensures otpRepo.Valid() && old(otpRepo.history) < otpRepo.history
      ensures var n := |otpRepo.history| - 1;
              && IsDraw(otpRepo.history[n], start, expiresAt) && otpRepo.history[n].code == code
              && (issued <==> Succeeds(otpRepo.history, n))
      ensures issued ==> TakesFreeCode(otpRepo.history, code, expiresAt)
    {
      var others: seq<OtpOp> := *;
      otpRepo.Interleave(others);
      ghost var before := otpRepo.history;
      code := GenerateOtpCode();
      var at: Instant :| at >= start;
      var row := otpRepo.Issue(code, expiresAt, at);
      issued := row.Some?;
      assert otpRepo.history[..|before|] == before;
      RunKeepsUnique(before);
      TableRefinesMap(RunOps([], before), Issue(code, expiresAt, at));
    }

    /** One attempt of a call that has made `draws` since `since`, all refused. */
    method Attempt(ghost since: nat, start: Instant, expiresAt: Instant, ghost draws: seq<nat>)
      returns (code: Code, issued: bool, ghost drawn: seq<nat>)
      requires otpRepo.Valid() && since <= |otpRepo.history|
      requires AllRefused(otpRepo.history, since, start, expiresAt, draws)
      modifies otpRepo
      ensures otpRepo.Valid() && old(otpRepo.history) < otpRepo.history && |drawn| == |draws| + 1
      ensures if issued then LastIssued(otpRepo.history, since, start, expiresAt, drawn, code)
              else AllRefused(otpRepo.history, since, start, expiresAt, drawn)
    {
      code, issued := DrawAndIssue(start, expiresAt);
      OneMoreDraw(old(otpRepo.history), otpRepo.history, since, start, expiresAt, draws);
      drawn := draws + [|otpRepo.history| - 1];
    }

    /** Draws codes until one is free, at most ten times; the draws, the clock and what other calls do in between are
        whatever they are. The call writes only its last draw, and only when it comes back: then nobody could use that code
        (`OtpRuns.IssueIsRefused`) and no other code changed. Otherwise its ten draws were refused and wrote nothing. */
    method GenerateOTP(start: Instant, ttlSeconds: nat) returns (code: Option<Code>, ghost draws: seq<nat>)
      requires otpRepo.Valid()
      modifies otpRepo
      ensures otpRepo.Valid() && old(otpRepo.history) < otpRepo.history && 0 < |draws| <= 10
      ensures var since, expiresAt := |old(otpRepo.history)|, start + ttlSeconds * 1000;
              match code
              case Some(c) => LastIssued(otpRepo.history, since, start, expiresAt, draws, c)
              case None => AllRefused(otpRepo.history, since, start, expiresAt, draws) && |draws| == 10
      ensures code.None? && |otpRepo.history| == |old(otpRepo.history)| + |draws| ==> otpRepo.rows == old(otpRepo.rows)
    {
      var expiresAt := start + ttlSeconds * 1000;
      ghost var since := |otpRepo.history|;
      draws, code := [], None;
      var attempt := 0;
      while attempt < MAX_OTP_ISSUE_ATTEMPTS
        invariant |draws| == attempt <= MAX_OTP_ISSUE_ATTEMPTS
        invariant otpRepo.Valid() && old(otpRepo.history) <= otpRepo.history
        invariant attempt > 0 ==> old(otpRepo.history) < otpRepo.history
        invariant AllRefused(otpRepo.history, since, start, expiresAt, draws)
      {
        var drawn, issued;
        drawn, issued, draws := Attempt(since, start, expiresAt, draws);
        if issued {
          return Some(drawn), draws;
        }
        attempt := attempt + 1;
      }
      code := None;
      FailureAloneWritesNothing(old(otpRepo.history), otpRepo.history, start, expiresAt, draws);
    }
  }
}
