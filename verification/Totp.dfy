/** src/totp.ts: HOTP truncation (RFC 4226, section 5.3), the TOTP window search with its
    replay floor (RFC 6238, section 5.2), and the recovery codes. HMAC is any function
    returning at least twenty octets. */
module Totp {
  import opened Text
  import opened Bits
  import Base32

  type Mac = mac: (seq<byte>, seq<byte>) -> seq<byte> | forall key, msg :: |mac(key, msg)| >= 20
    witness (key, msg) => seq(20, _ => 0)

  // ---------------------------------------------------------------- one-time passwords

  /** `writeBigUInt64BE`: k octets, most significant first. */
  function BigEndian(n: nat, k: nat): (s: seq<byte>)
  {
    if k == 0 then [] else BigEndian(n / 256, k - 1) + [n % 256]
  }

  /** The shift-and-or expression over the four octets at the offset. */
  function Truncated(digest: seq<byte>): int32
    requires |digest| >= 20
  {
    var offset := Offset(digest);
    Or(Or(Or(Shl(And(digest[offset], 0x7F), 24), Shl(digest[offset + 1], 16)), Shl(digest[offset + 2], 8)),
       digest[offset + 3])
  }

  function Offset(digest: seq<byte>): (offset: nat)
    requires |digest| >= 20
    ensures offset + 3 < |digest|
  {
    LowNibble(digest[|digest| - 1]);
    And(digest[|digest| - 1], 0x0F)
  }

  lemma LowNibble(x: byte)
    ensures And(x, 0x0F) == x % 16
  {
    assert Pow2(4) == 16;
    MaskedValue(x, 4);
  }

  /** The number section 5.3 of RFC 4226 defines: 31 bits, big-endian. */
  function DynamicBinaryCode(digest: seq<byte>): nat
    requires |digest| >= 20
  {
    var o: int := digest[|digest| - 1] % 16;
    var b0: int, b1: int, b2: int, b3: int := digest[o] % 128, digest[o + 1], digest[o + 2], digest[o + 3];
    b0 * 0x100_0000 + b1 * 0x1_0000 + b2 * 0x100 + b3
  }

  lemma TruncationIsBigEndian(digest: seq<byte>)
    requires |digest| >= 20
    ensures Truncated(digest) == DynamicBinaryCode(digest) < 0x8000_0000
  {
    hide And, Or, Shl;
    var o := Offset(digest);
    LowNibble(digest[|digest| - 1]);
    LowSeven(digest[o]);
    JoinOctets(And(digest[o], 0x7F), digest[o + 1], digest[o + 2], digest[o + 3]);
  }

  lemma LowSeven(x: byte)
    ensures And(x, 0x7F) == x % 128
  {
    assert Pow2(7) == 128 by { Pow2Values(); }
    SmallUnsigned(x);
    MaskedValue(x, 7);
  }

  lemma JoinOctets(b0: nat, b1: nat, b2: nat, b3: nat)
    requires b0 < 128 && b1 < 256 && b2 < 256 && b3 < 256
    ensures Or(Or(Or(Shl(b0, 24), Shl(b1, 16)), Shl(b2, 8)), b3)
         == b0 * 0x100_0000 + b1 * 0x1_0000 + b2 * 0x100 + b3
  {
    var top := Or(Shl(b0, 24), Shl(b1, 16));
    var c := b0 * 0x100 + b1;
    assert top == c * 0x1_0000 by { JoinTwo(b0, b1); }
    var middle := Or(top, Shl(b2, 8));
    assert middle == (c * 0x100 + b2) * 0x100 by { JoinNext(c, b2); }
    JoinLast(c * 0x100 + b2, b3);
  }

  lemma JoinTwo(b0: nat, b1: nat)
    requires b0 < 128 && b1 < 256
    ensures Or(Shl(b0, 24), Shl(b1, 16)) == (b0 * 0x100 + b1) * 0x1_0000
  {
    Pow2Values();
    ShlSmall(b0, 24, 0x100_0000);
    ShlSmall(b1, 16, 0x1_0000);
    OrAdds(b0 * 0x100_0000, b1 * 0x1_0000, 24);
  }

  lemma JoinNext(c: nat, b: nat)
    requires c < 0x8000 && b < 256
    ensures Or(c * 0x1_0000, Shl(b, 8)) == (c * 0x100 + b) * 0x100
  {
    Pow2Values();
    ShlSmall(b, 8, 0x100);
    OrAdds(c * 0x1_0000, b * 0x100, 16);
  }

  lemma JoinLast(c: nat, b: nat)
    requires c < 0x80_0000 && b < 256
    ensures Or(c * 0x100, b) == c * 0x100 + b
  {
    Pow2Values();
    OrAdds(c * 0x100, b, 8);
  }

  lemma ShlSmall(x: nat, k: nat, p: nat)
    requires k < 32 && p == Pow2(k) && x < 0x8000_0000 && x * p < 0x8000_0000
    ensures Shl(x, k) == x * p
  {
    SmallSigned(x);
    SmallSigned(x * p);
  }

  lemma OrAdds(a: nat, b: nat, j: nat)
    requires a % Pow2(j) == 0 && b < Pow2(j) && a + b < 0x8000_0000
    ensures Or(a, b) == a + b
  {
    SmallUnsigned(a);
    SmallUnsigned(b);
    SmallSigned(a + b);
    OrDisjoint(a, b, j);
  }

  function PadStart(s: string, n: nat, c: char): (r: string)
  {
    if |s| < n then seq(n - |s|, _ => c) + s else s
  }

  function CodeText(code: nat, digits: nat): string {
    PadStart(Decimal(code % Pow10(digits)), digits, '0')
  }

  function Hotp(mac: Mac, upper: char -> string, secret: string, counter: int, digits: nat): Result<string>
  {
    if counter < 0 || counter >= 0x1_0000_0000_0000_0000 then Err("out of range")
    else
      match Base32.Decoded(Base32.Cleaned(upper, secret))
      case Err(m) => Err(m)
      case Ok(key) =>
        var digest := mac(key, BigEndian(counter, 8));
        TruncationIsBigEndian(digest);
        Ok(CodeText(Truncated(digest), digits))
  }

  /** A code is exactly `digits` decimal characters that read back as the truncated number modulo 10^digits. */
  lemma CodeReadsBack(code: nat, digits: nat)
    requires digits > 0
    ensures |CodeText(code, digits)| == digits && AllDigits(CodeText(code, digits))
    ensures NumberOf(CodeText(code, digits)) == code % Pow10(digits)
  {
    var n := code % Pow10(digits);
    DecimalLength(n, digits);
    NumberOfDecimal(n);
    var zeros := seq(digits - |Decimal(n)|, _ => '0');
    NumberOfZeros(zeros);
    NumberOfConcat(zeros, Decimal(n));
  }

  lemma {:induction false} DecimalLength(n: nat, k: nat)
    requires k > 0 && n < Pow10(k)
    ensures |Decimal(n)| <= k
  {
    if n >= 10 {
      assert k > 1 by { assert Pow10(1) == 10; }
      DecimalLength(n / 10, k - 1);
    }
  }

  lemma {:induction false} NumberOfZeros(s: string)
    requires forall i :: 0 <= i < |s| ==> s[i] == '0'
    ensures AllDigits(s) && NumberOf(s) == 0
  {
    if s != [] { NumberOfZeros(s[..|s| - 1]); }
  }

  /** Eight octets as one number, the first with the greatest weight. */
  function Weighed(msg: seq<int>): int
    requires |msg| == 8
  {
    msg[0] * 0x100_0000_0000_0000 + msg[1] * 0x1_0000_0000_0000 + msg[2] * 0x100_0000_0000 + msg[3] * 0x1_0000_0000
    + msg[4] * 0x100_0000 + msg[5] * 0x1_0000 + msg[6] * 0x100 + msg[7]
  }

  lemma {:induction false} NumberOctets(msg: seq<byte>)
    ensures Number(256, msg) >= 0 && BigEndian(Number(256, msg), |msg|) == msg
  {
    if msg != [] {
      var k := |msg| - 1;
      NumberOctets(msg[..k]);
      DivModUnique(Number(256, msg), 256, Number(256, msg[..k]), msg[k]);
      assert msg[..k] + [msg[k]] == msg;
    }
  }

  lemma NumberLast(msg: seq<int>, k: nat)
    requires 0 < k <= |msg|
    ensures Number(256, msg[..k]) == 256 * Number(256, msg[..k - 1]) + msg[k - 1]
  {
    assert msg[..k][..k - 1] == msg[..k - 1];
  }

  lemma WeighedNumber(msg: seq<int>)
    requires |msg| == 8
    ensures Number(256, msg) == Weighed(msg)
  {
    hide Number;
    NumberLast(msg, 1);
    NumberLast(msg, 2);
    NumberLast(msg, 3);
    NumberLast(msg, 4);
    NumberLast(msg, 5);
    NumberLast(msg, 6);
    NumberLast(msg, 7);
    NumberLast(msg, 8);
    assert msg[..8] == msg && msg[..0] == [];
    NumberNone(256);
  }

  /** What the authenticator shows: the truncated HMAC of the counter's eight octets, most significant
      first, under the decoded secret. */
  lemma HotpValue(mac: Mac, upper: char -> string, key: seq<byte>, secret: string, counter: nat, digits: nat,
                  msg: seq<byte>)
    requires UppersAscii(upper)
    requires Base32.Disguises(secret, Base32.Encoded(key))
    requires counter < 0x1_0000_0000_0000_0000 && digits > 0
    requires |msg| == 8 && Weighed(msg) == counter
    ensures var r := Hotp(mac, upper, secret, counter, digits);
            && r.Ok? && |r.value| == digits && AllDigits(r.value)
            && NumberOf(r.value) == DynamicBinaryCode(mac(key, msg)) % Pow10(digits)
  {
    hide BigEndian, CodeText, Truncated, DynamicBinaryCode, UppersAscii,
      Base32.Disguises, Base32.Decoded, Base32.Encoded, Base32.Cleaned;
    WeighedNumber(msg);
    NumberOctets(msg);
    Base32.DecodeInvertsEncode(upper, key, secret);
    TruncationIsBigEndian(mac(key, msg));
    CodeReadsBack(DynamicBinaryCode(mac(key, msg)), digits);
  }

  // ---------------------------------------------------------------- verification

  /** The two divisions of the source followed by its floor. */
  function TotpStep(nowMs: int, stepSeconds: nat): int
    requires stepSeconds > 0
  {
    nowMs / (1000 * stepSeconds)
  }

  /** What one verification runs under; `hotp` gives the code of each step. */
  datatype Options = Options(hotp: int -> Result<string>, digits: nat, stepSeconds: nat, window: int) {
    predicate WellFormed(code: string) {
      var clean := Without(IsSpace, code);
      |clean| == digits && AllDigits(clean)
    }

    predicate InWindow(step: int, nowMs: int)
      requires stepSeconds > 0
    {
      TotpStep(nowMs, stepSeconds) - window <= step <= TotpStep(nowMs, stepSeconds) + window
    }

    predicate Acceptable(code: string, step: int, nowMs: int, minStep: Option<int>)
      requires stepSeconds > 0
    {
      && InWindow(step, nowMs)
      && hotp(step) == Ok(Without(IsSpace, code))
      && (minStep.Some? ==> step > minStep.value)
    }

    /** The result the source promises: the largest acceptable step, or null when there is none.
        It throws exactly when the code is well formed and some step of the window has no code. */
    ghost predicate Verdict(code: string, nowMs: int, minStep: Option<int>, r: Result<Option<int>>)
      requires stepSeconds > 0
    {
      && (r.Err? <==> WellFormed(code) && exists step :: InWindow(step, nowMs) && hotp(step).Err?)
      && (r.Ok? && !WellFormed(code) ==> r.value == None)
      && (r.Ok? && WellFormed(code) ==>
            match r.value
            case Some(m) => && Acceptable(code, m, nowMs, minStep)
                            && forall step :: Acceptable(code, step, nowMs, minStep) ==> step <= m
            case None => forall step :: !Acceptable(code, step, nowMs, minStep))
    }
  }

  method VerifyTotp(o: Options, code: string, nowMs: int, minStep: Option<int>) returns (r: Result<Option<int>>)
    requires o.stepSeconds > 0
    ensures o.Verdict(code, nowMs, minStep, r)
    ensures var clean, now := Without(IsSpace, code), TotpStep(nowMs, o.stepSeconds);
      && (r.Ok? && r.value.Some? ==>
            var m := r.value.value;
            && now - o.window <= m <= now + o.window && o.hotp(m) == Ok(clean) && (minStep.Some? ==> minStep.value < m)
            && |clean| == o.digits && AllDigits(clean))
      && (r.Ok? && |clean| == o.digits && AllDigits(clean) ==>
            forall step :: now - o.window <= step <= now + o.window && o.hotp(step) == Ok(clean)
                           && (minStep.Some? ==> minStep.value < step) ==>
              r.value.Some? && step <= r.value.value)
  {
    var clean := Without(IsSpace, code);
    if !o.WellFormed(code) { return Ok(None); }
    var current := TotpStep(nowMs, o.stepSeconds);
    var matched: Option<int> := None;
    var step := current - o.window;
    while step <= current + o.window
      invariant current - o.window <= step
      invariant o.window >= 0 ==> step <= current + o.window + 1
      invariant forall k :: current - o.window <= k < step ==> o.hotp(k).Ok?
      invariant matched.Some? ==> matched.value < step && o.Acceptable(code, matched.value, nowMs, minStep)
      invariant forall k :: k < step && o.Acceptable(code, k, nowMs, minStep) ==> matched.Some? && k <= matched.value
      decreases current + o.window - step
    {
      var expected := o.hotp(step);
      if expected.Err? {
        assert o.InWindow(step, nowMs) && o.hotp(step).Err?;
        return Err(expected.message);
      }
      if |expected.value| == |clean| && expected.value == clean {
        if minStep.None? || step > minStep.value { matched := Some(step); }
      }
      step := step + 1;
    }
    forall k | o.InWindow(k, nowMs) && o.hotp(k) == Ok(clean) && (minStep.Some? ==> minStep.value < k)
      ensures matched.Some? && k <= matched.value
    {
      assert o.Acceptable(code, k, nowMs, minStep);
    }
    r := Ok(matched);
  }

  /** With the codes of `Hotp` it throws exactly when a well-formed code meets a secret that is not
      base32 or a window that reaches below step 0 or beyond the 64-bit counters. */
  lemma VerdictThrowsExactly(mac: Mac, upper: char -> string, secret: string, o: Options,
                             code: string, nowMs: int, minStep: Option<int>, r: Result<Option<int>>)
    requires o.stepSeconds > 0 && o.Verdict(code, nowMs, minStep, r)
    requires forall step :: o.hotp(step) == Hotp(mac, upper, secret, step, o.digits)
    ensures r.Err? <==>
      && o.WellFormed(code) && o.window >= 0
      && (|| Base32.Decoded(Base32.Cleaned(upper, secret)).Err?
          || TotpStep(nowMs, o.stepSeconds) - o.window < 0
          || TotpStep(nowMs, o.stepSeconds) + o.window >= 0x1_0000_0000_0000_0000)
  {
    var current := TotpStep(nowMs, o.stepSeconds);
    var key := Base32.Decoded(Base32.Cleaned(upper, secret));
    forall step ensures o.hotp(step).Err? <==> step < 0 || step >= 0x1_0000_0000_0000_0000 || key.Err? {
      HotpThrows(mac, upper, secret, step, o.digits);
    }
    if o.window >= 0 {
      assert o.InWindow(current - o.window, nowMs) && o.InWindow(current + o.window, nowMs);
    }
  }

  lemma HotpThrows(mac: Mac, upper: char -> string, secret: string, counter: int, digits: nat)
    ensures Hotp(mac, upper, secret, counter, digits).Err?
       <==> counter < 0 || counter >= 0x1_0000_0000_0000_0000 || Base32.Decoded(Base32.Cleaned(upper, secret)).Err?
  {
    hide Base32.Decoded, Base32.Cleaned, CodeText, BigEndian;
  }

  /** A step lasts stepSeconds, the first one from the epoch on. */
  lemma StepExactly(nowMs: int, stepSeconds: nat, k: int)
    requires stepSeconds > 0
    ensures TotpStep(nowMs, stepSeconds) == k <==> k * (1000 * stepSeconds) <= nowMs < (k + 1) * (1000 * stepSeconds)
  {
    var d := 1000 * stepSeconds;
    assert nowMs == d * (nowMs / d) + nowMs % d;
    assert (k + 1) * d == k * d + d;
    if k * d <= nowMs < k * d + d { DivModUnique(nowMs, d, k, nowMs - k * d); }
  }

  lemma StepsApart(t0: int, t1: int, stepSeconds: nat, w: int)
    requires stepSeconds > 0 && t1 - t0 <= w * (1000 * stepSeconds)
    ensures TotpStep(t1, stepSeconds) - TotpStep(t0, stepSeconds) <= w
  {
    var d := 1000 * stepSeconds;
    var q := TotpStep(t0, stepSeconds);
    StepExactly(t0, stepSeconds, q);
    assert (q + w) * d == q * d + w * d && (q + w + 1) * d == (q + 1) * d + w * d;
    StepExactly(t0 + w * d, stepSeconds, q + w);
    StepMonotonic(t1, t0 + w * d, stepSeconds);
  }

  /** What an authenticator shows at one moment is accepted, whatever white space is typed with it, at
      every moment at most `window` steps of time before or after, unless its step was used up; the
      step found is not an earlier one. */
  lemma ShownCodeAccepted(mac: Mac, upper: char -> string, secret: string, o: Options, shownMs: int,
                          typed: string, nowMs: int, minStep: Option<int>, r: Result<Option<int>>)
    requires o.stepSeconds > 0 && o.digits > 0 && o.Verdict(typed, nowMs, minStep, r)
    requires forall step :: o.hotp(step) == Hotp(mac, upper, secret, step, o.digits)
    requires Hotp(mac, upper, secret, TotpStep(shownMs, o.stepSeconds), o.digits) == Ok(Without(IsSpace, typed))
    requires nowMs - shownMs <= o.window * (1000 * o.stepSeconds)
    requires shownMs - nowMs <= o.window * (1000 * o.stepSeconds)
    requires o.window <= TotpStep(nowMs, o.stepSeconds) < 0x1_0000_0000_0000_0000 - o.window
    requires minStep.Some? ==> minStep.value < TotpStep(shownMs, o.stepSeconds)
    ensures r.Ok? && r.value.Some? && r.value.value >= TotpStep(shownMs, o.stepSeconds)
  {
    hide Base32.Decoded, Base32.Cleaned, BigEndian, Without, CodeText, TotpStep;
    var step := TotpStep(shownMs, o.stepSeconds);
    StepsApart(shownMs, nowMs, o.stepSeconds, o.window);
    StepsApart(nowMs, shownMs, o.stepSeconds, o.window);
    HotpShape(mac, upper, secret, step, o.digits);
    HotpThrows(mac, upper, secret, step, o.digits);
    VerdictThrowsExactly(mac, upper, secret, o, typed, nowMs, minStep, r);
    assert o.Acceptable(typed, step, nowMs, minStep);
  }

  lemma HotpShape(mac: Mac, upper: char -> string, secret: string, counter: int, digits: nat)
    requires digits > 0 && Hotp(mac, upper, secret, counter, digits).Ok?
    ensures var code := Hotp(mac, upper, secret, counter, digits).value; |code| == digits && AllDigits(code)
  {
    hide CodeText, BigEndian, Truncated;
    var digest := mac(Base32.Decoded(Base32.Cleaned(upper, secret)).value, BigEndian(counter, 8));
    TruncationIsBigEndian(digest);
    CodeReadsBack(Truncated(digest), digits);
  }

  lemma FirstStep(nowMs: int)
    requires 0 <= nowMs < 30000
    ensures TotpStep(nowMs, 30) == 0
  {
    assert 1000 * 30 == 30000;
  }

  /** In the first step after the epoch the default window reaches step -1, and any code of six digits
      makes the verification throw. */
  lemma EpochThrows(mac: Mac, upper: char -> string, secret: string, o: Options,
                    code: string, nowMs: int, minStep: Option<int>, r: Result<Option<int>>)
    requires o.digits == 6 && o.stepSeconds == 30 && o.window == 1 && 0 <= nowMs < 30000
    requires o.Verdict(code, nowMs, minStep, r)
    requires forall step :: o.hotp(step) == Hotp(mac, upper, secret, step, o.digits)
    ensures |Without(IsSpace, code)| == 6 && AllDigits(Without(IsSpace, code)) <==> r.Err?
  {
    hide Hotp, Base32.Decoded, Base32.Cleaned, Without, TotpStep;
    VerdictThrowsExactly(mac, upper, secret, o, code, nowMs, minStep, r);
    FirstStep(nowMs);
  }

  // ---------------------------------------------------------------- replay over whole runs

  datatype Attempt = Attempt(code: string, nowMs: int, result: Result<Option<int>>)

  /** A run of calls in which every accepted step becomes the floor of the calls after it. */
  ghost predicate Run(o: Options, floor: Option<int>, calls: seq<Attempt>)
    requires o.stepSeconds > 0
    decreases |calls|
  {
    calls != [] ==>
      && o.Verdict(calls[0].code, calls[0].nowMs, floor, calls[0].result)
      && Run(o, Raised(floor, calls[0].result), calls[1..])
  }

  function Raised(floor: Option<int>, r: Result<Option<int>>): Option<int> {
    if r.Ok? && r.value.Some? then r.value else floor
  }

  function AcceptedSteps(calls: seq<Attempt>): seq<int> {
    if calls == [] then []
    else (if calls[0].result.Ok? && calls[0].result.value.Some? then [calls[0].result.value.value] else [])
         + AcceptedSteps(calls[1..])
  }

  ghost predicate Increasing(s: seq<int>) { forall i, j :: 0 <= i < j < |s| ==> s[i] < s[j] }

  lemma IncreasingPrepend(x: int, s: seq<int>)
    requires Increasing(s) && forall y :: y in s ==> x < y
    ensures Increasing([x] + s)
  {
    forall j | 0 < j < |[x] + s| ensures x < ([x] + s)[j] { assert s[j - 1] in s; }
  }

  lemma StepMonotonic(t0: int, t1: int, stepSeconds: nat)
    requires stepSeconds > 0 && t0 <= t1
    ensures TotpStep(t0, stepSeconds) <= TotpStep(t1, stepSeconds)
  {
    var d := 1000 * stepSeconds;
    var q0, q1 := t0 / d, t1 / d;
    assert t0 == d * q0 + t0 % d && t1 == d * q1 + t1 % d;
    if q0 > q1 { MulMonotonic(d, q1 + 1, q0); }
  }

  lemma {:induction false} AcceptedStepsIncrease(o: Options, floor: Option<int>, calls: seq<Attempt>, t0: int, t1: int)
    requires o.stepSeconds > 0 && Run(o, floor, calls)
    requires forall c :: c in calls ==> t0 <= c.nowMs <= t1
    ensures Increasing(AcceptedSteps(calls))
    ensures forall s :: s in AcceptedSteps(calls) ==>
                          && (floor.Some? ==> floor.value < s)
                          && TotpStep(t0, o.stepSeconds) - o.window <= s <= TotpStep(t1, o.stepSeconds) + o.window
    decreases |calls|
  {
    if calls != [] {
      var c := calls[0];
      AcceptedStepsIncrease(o, Raised(floor, c.result), calls[1..], t0, t1);
      if c.result.Ok? && c.result.value.Some? {
        assert o.Acceptable(c.code, c.result.value.value, c.nowMs, floor);
        StepMonotonic(t0, c.nowMs, o.stepSeconds);
        StepMonotonic(c.nowMs, t1, o.stepSeconds);
        IncreasingPrepend(c.result.value.value, AcceptedSteps(calls[1..]));
      }
    }
  }

  lemma {:induction false} IncreasingInRange(s: seq<int>, lo: int, hi: int)
    requires Increasing(s) && forall x :: x in s ==> lo <= x <= hi
    requires s != []
    ensures |s| <= hi - lo + 1
  {
    var k := |s| - 1;
    assert s[k] in s;
    if k > 0 {
      forall x | x in s[..k] ensures lo <= x <= s[k] - 1 {
        var i :| 0 <= i < k && s[..k][i] == x;
        assert s[i] in s;
      }
      IncreasingInRange(s[..k], lo, s[k] - 1);
    }
  }

  /** However many codes are tried while the clock stays in [t0, t1], no step is accepted twice
      and at most step(t1) - step(t0) + 2 * window + 1 of them are accepted. */
  lemma AcceptedCodesBounded(o: Options, floor: Option<int>, calls: seq<Attempt>, t0: int, t1: int)
    requires o.stepSeconds > 0 && Run(o, floor, calls) && o.window >= 0 && t0 <= t1
    requires forall c :: c in calls ==> t0 <= c.nowMs <= t1
    ensures Increasing(AcceptedSteps(calls))
    ensures |AcceptedSteps(calls)| <= TotpStep(t1, o.stepSeconds) - TotpStep(t0, o.stepSeconds) + 2 * o.window + 1
  {
    AcceptedStepsIncrease(o, floor, calls, t0, t1);
    StepMonotonic(t0, t1, o.stepSeconds);
    if AcceptedSteps(calls) != [] {
      IncreasingInRange(AcceptedSteps(calls),
                        TotpStep(t0, o.stepSeconds) - o.window, TotpStep(t1, o.stepSeconds) + o.window);
    }
  }
}
