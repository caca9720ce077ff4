/** How a draw becomes a code: `randomInt(0, 10 ** 6).toString().padStart(6, "0")`. */
module OtpCodes {
  import opened Decimals

  const OTP_DIGITS: nat := 6
  const OTP_CODES: nat := 1_000_000

  predicate IsOtpCode(s: string) {
    |s| == OTP_DIGITS && Digits(s)
  }

  function Zeros(n: nat): string {
    if n == 0 then [] else ['0'] + Zeros(n - 1)
  }

  /** `s.padStart(width, "0")`. */
  function PadStart(s: string, width: nat): string {
    if |s| >= width then s else Zeros(width - |s|) + s
  }

  function RenderOtp(n: nat): string {
    PadStart(Decimal(n), OTP_DIGITS)
  }

  function Pow10(k: nat): nat {
    if k == 0 then 1 else 10 * Pow10(k - 1)
  }

  lemma {:induction false} DecimalLength(n: nat, k: nat)
    requires k >= 1 && n < Pow10(k)
    ensures |Decimal(n)| <= k
  {
    if n >= 10 {
      assert Pow10(k) == 10 * Pow10(k - 1);
      DecimalLength(n / 10, k - 1);
    }
  }

  lemma {:induction false} ZerosAddNothing(n: nat, s: string)
    requires Digits(s)
    ensures |Zeros(n)| == n && Digits(Zeros(n) + s) && Value(Zeros(n) + s) == Value(s)
    decreases n, |s|
  {
    if s != [] {
      ZerosAddNothing(n, s[..|s| - 1]);
      assert (Zeros(n) + s)[..n + |s| - 1] == Zeros(n) + s[..|s| - 1];
    } else if n > 0 {
      ZerosAddNothing(n - 1, []);
      assert Zeros(n - 1) + [] == Zeros(n - 1);
      ZerosAddNothing(n - 1, ['0']);
      ZerosCommute(n - 1);
      assert Zeros(n) + [] == Zeros(n - 1) + ['0'];
      assert Value(Zeros(n - 1) + ['0']) == Value(['0']) == 0;
    } else {
      assert Zeros(0) + s == s;
    }
  }

  lemma {:induction false} ZerosCommute(n: nat)
    ensures ['0'] + Zeros(n) == Zeros(n) + ['0']
  {
    if n > 0 {
      ZerosCommute(n - 1);
      assert ['0'] + Zeros(n) == ['0'] + (['0'] + Zeros(n - 1));
      assert Zeros(n) + ['0'] == ['0'] + (Zeros(n - 1) + ['0']);
    }
  }

  lemma {:induction false} ValueBound(s: string)
    requires Digits(s)
    ensures Value(s) < Pow10(|s|)
  {
    if s != [] {
      ValueBound(s[..|s| - 1]);
    }
  }

  /** Strings of digits of one length are told apart by their value. */
  lemma {:induction false} ValueIsInjective(a: string, b: string)
    requires Digits(a) && Digits(b) && |a| == |b| && Value(a) == Value(b)
    ensures a == b
  {
    if a != [] {
      var n := |a| - 1;
      var x, y := a[n] as int - '0' as int, b[n] as int - '0' as int;
      assert 0 <= x < 10 && 0 <= y < 10 && 10 * Value(a[..n]) + x == 10 * Value(b[..n]) + y;
      ValueIsInjective(a[..n], b[..n]);
      assert a == a[..n] + [a[n]] && b == b[..n] + [b[n]];
    }
  }

  lemma MillionIsPow10()
    ensures Pow10(OTP_DIGITS) == OTP_CODES
  {
    assert Pow10(3) == 1000;
    assert Pow10(6) == 10 * (10 * (10 * Pow10(3)));
  }

  /** Every draw renders as a six-digit code, and the code gives the draw back. */
  lemma RenderedDraw(n: nat)
    requires n < OTP_CODES
    ensures IsOtpCode(RenderOtp(n)) && Value(RenderOtp(n)) == n
  {
    MillionIsPow10();
    DecimalLength(n, OTP_DIGITS);
    ZerosAddNothing(OTP_DIGITS - |Decimal(n)|, Decimal(n));
    assert Zeros(0) + Decimal(n) == Decimal(n);
  }

  /** Every six-digit code is the rendering of exactly one draw. */
  lemma EveryCodeIsDrawn(code: string)
    requires IsOtpCode(code)
    ensures Value(code) < OTP_CODES && RenderOtp(Value(code)) == code
    ensures forall n: nat | n < OTP_CODES && RenderOtp(n) == code :: n == Value(code)
  {
    MillionIsPow10();
    ValueBound(code);
    RenderedDraw(Value(code));
    ValueIsInjective(RenderOtp(Value(code)), code);
    forall n: nat | n < OTP_CODES && RenderOtp(n) == code ensures n == Value(code) {
      RenderedDraw(n);
    }
  }

  function Draws(codes: set<string>): set<nat> {
    set c | c in codes && IsOtpCode(c) :: Value(c)
  }

  lemma {:induction false} BelowSize(values: set<nat>, n: nat)
    requires forall v | v in values :: v < n
    ensures |values| <= n
  {
    if n == 0 {
      assert values == {};
    } else {
      BelowSize(values - {n - 1}, n - 1);
      assert n - 1 !in values ==> values - {n - 1} == values;
    }
  }

  lemma {:induction false} AsManyDraws(codes: set<string>)
    requires forall c | c in codes :: IsOtpCode(c)
    ensures |Draws(codes)| == |codes|
  {
    if codes != {} {
      var c :| c in codes;
      var rest := codes - {c};
      AsManyDraws(rest);
      assert Draws(codes) == Draws(rest) + {Value(c)};
      if Value(c) in Draws(rest) {
        var d :| d in rest && IsOtpCode(d) && Value(d) == Value(c);
        ValueIsInjective(c, d);
      }
    }
  }

  /** There are at most a million codes. */
  lemma AtMostAMillion(codes: set<string>)
    requires forall c | c in codes :: IsOtpCode(c)
    ensures |codes| <= OTP_CODES
  {
    AsManyDraws(codes);
    forall v | v in Draws(codes) ensures v < OTP_CODES {
      var c :| c in codes && IsOtpCode(c) && Value(c) == v;
      EveryCodeIsDrawn(c);
    }
    BelowSize(Draws(codes), OTP_CODES);
  }
}
