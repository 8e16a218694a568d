/** Bit strings, the 32-bit integer operators of ECMAScript, and the regrouping of octets
    into w-bit groups that RFC 4648 defines base32 (w = 5) and base64 (w = 6) by. */
module Bits {

  type byte = x: int | 0 <= x < 256

  function Pow2(k: nat): (p: nat)
    ensures p > 0
  {
    if k == 0 then 1 else 2 * Pow2(k - 1)
  }

  lemma {:induction false} Pow2Add(a: nat, b: nat)
    ensures Pow2(a + b) == Pow2(a) * Pow2(b)
  {
    if a > 0 {
      Pow2Add(a - 1, b);
    }
  }

  lemma {:induction false} Pow2Monotonic(a: nat, b: nat)
    requires a <= b
    ensures Pow2(a) <= Pow2(b)
  {
    if a < b { Pow2Monotonic(a, b - 1); }
  }

  lemma Pow2Values()
    ensures Pow2(5) == 32 && Pow2(6) == 64 && Pow2(7) == 128 && Pow2(8) == 256
    ensures Pow2(16) == 0x1_0000 && Pow2(24) == 0x100_0000 && Pow2(31) == 0x8000_0000 && Pow2(32) == 0x1_0000_0000
  {
    assert Pow2(3) == 8;
    assert Pow2(6) == 64;
    assert Pow2(8) == 256;
    Pow2Add(8, 8);
    Pow2Add(16, 8);
    Pow2Add(16, 16);
  }

  // ---------------------------------------------------------------- division

  lemma MulMonotonic(d: int, x: int, y: int)
    requires d >= 0 && x <= y
    ensures d * x <= d * y
  {
  }

  lemma DivModUnique(n: int, d: int, q: int, r: int)
    requires d > 0 && 0 <= r < d && n == d * q + r
    ensures n / d == q && n % d == r
  {
    var q', r' := n / d, n % d;
    assert n == d * q' + r';
    assert d * (q - q') == r' - r;
    if q - q' >= 1 { MulMonotonic(d, 1, q - q'); }
    if q - q' <= -1 { MulMonotonic(d, q - q', -1); }
  }

  lemma ModDouble(n: nat, m: nat)
    requires m > 0
    ensures n % (2 * m) == 2 * ((n / 2) % m) + n % 2
    ensures n / (2 * m) == (n / 2) / m
  {
    var q, r := (n / 2) / m, (n / 2) % m;
    assert n / 2 == m * q + r;
    assert (2 * m) * q == 2 * (m * q);
    DivModUnique(n, 2 * m, q, 2 * r + n % 2);
  }

  /** Reducing modulo a multiple of m first changes nothing modulo m. */
  lemma ModMod(n: int, m: int, k: int)
    requires m > 0 && k > 0
    ensures m * k > 0 && (n % (m * k)) % m == n % m
  {
    var q, r := n / (m * k), n % (m * k);
    assert n == (m * k) * q + r;
    var q1, r1 := r / m, r % m;
    assert r == m * q1 + r1;
    assert (m * k) * q == m * (k * q);
    assert n == m * (k * q + q1) + r1;
    DivModUnique(n, m, k * q + q1, r1);
  }

  // ---------------------------------------------------------------- bit strings, most significant bit first

  /** The k least significant bits of n. */
  function LowBits(n: nat, k: nat): (b: seq<bool>)
    ensures |b| == k
  {
    if k == 0 then [] else LowBits(n / 2, k - 1) + [n % 2 == 1]
  }

  /** The number a bit string denotes. */
  function Value(b: seq<bool>): nat {
    if b == [] then 0 else 2 * Value(b[..|b| - 1]) + (if b[|b| - 1] then 1 else 0)
  }

  function Zeros(k: nat): seq<bool> { seq(k, _ => false) }

  lemma {:induction false} ValueBound(b: seq<bool>)
    ensures Value(b) < Pow2(|b|)
  {
    if b != [] { ValueBound(b[..|b| - 1]); }
  }

  lemma {:induction false} ValueLowBits(n: nat, k: nat)
    ensures Value(LowBits(n, k)) == n % Pow2(k)
  {
    if k > 0 {
      ValueLowBits(n / 2, k - 1);
      ModDouble(n, Pow2(k - 1));
      assert LowBits(n, k)[..k - 1] == LowBits(n / 2, k - 1);
    }
  }

  lemma {:induction false} LowBitsValue(b: seq<bool>)
    ensures LowBits(Value(b), |b|) == b
  {
    if b != [] { LowBitsValue(b[..|b| - 1]); }
  }

  /** Only the residue modulo 2^k matters for the k low bits. */
  lemma LowBitsMod(n: nat, m: nat, k: nat)
    requires n % Pow2(k) == m % Pow2(k)
    ensures LowBits(n, k) == LowBits(m, k)
  {
    ValueLowBits(n, k);
    ValueLowBits(m, k);
    LowBitsValue(LowBits(n, k));
    LowBitsValue(LowBits(m, k));
  }

  /** n with its j low bits removed. */
  function Drop(n: nat, j: nat): nat {
    if j == 0 then n else Drop(n / 2, j - 1)
  }

  lemma {:induction false} DropIsQuotient(n: nat, j: nat)
    ensures Drop(n, j) == n / Pow2(j)
  {
    if j > 0 {
      DropIsQuotient(n / 2, j - 1);
      ModDouble(n, Pow2(j - 1));
    }
  }

  lemma {:induction false} LowBitsSplit(n: nat, i: nat, j: nat)
    ensures LowBits(n, i + j) == LowBits(Drop(n, j), i) + LowBits(n, j)
  {
    if j == 0 {
      assert LowBits(n, i) + [] == LowBits(n, i);
    } else {
      LowBitsSplit(n / 2, i, j - 1);
      assert LowBits(n, i + j) == LowBits(n / 2, i + (j - 1)) + [n % 2 == 1];
    }
  }

  /** Writing b below a concatenates their bits. */
  lemma LowBitsConcat(a: nat, i: nat, b: nat, j: nat)
    requires b < Pow2(j)
    ensures a * Pow2(j) + b >= 0
    ensures LowBits(a * Pow2(j) + b, i + j) == LowBits(a, i) + LowBits(b, j)
  {
    var n := a * Pow2(j) + b;
    DivModUnique(n, Pow2(j), a, b);
    DivModUnique(b, Pow2(j), 0, b);
    DropIsQuotient(n, j);
    LowBitsSplit(n, i, j);
    LowBitsMod(n, b, j);
  }

  lemma {:induction false} LowBitsZero(j: nat)
    ensures LowBits(0, j) == Zeros(j)
  {
    if j > 0 { LowBitsZero(j - 1); }
  }

  // ---------------------------------------------------------------- ECMAScript 32-bit operators

  const TWO32 := 0x1_0000_0000

  type int32 = x: int | -0x8000_0000 <= x < 0x8000_0000

  function ToUint32(x: int): (u: nat) { x % TWO32 }

  function ToInt32(x: int): int32 {
    var u := ToUint32(x);
    if u < 0x8000_0000 then u else u - TWO32
  }

  function BitwiseOr(a: nat, b: nat): nat
    decreases a + b
  {
    if a == 0 && b == 0 then 0
    else 2 * BitwiseOr(a / 2, b / 2) + (if a % 2 == 1 || b % 2 == 1 then 1 else 0)
  }

  function BitwiseAnd(a: nat, b: nat): nat {
    if a == 0 || b == 0 then 0
    else 2 * BitwiseAnd(a / 2, b / 2) + (if a % 2 == 1 && b % 2 == 1 then 1 else 0)
  }

  function Shl(x: int, k: nat): int32
    requires k < 32
  {
    ToInt32(ToInt32(x) * Pow2(k))
  }

  function UShr(x: int, k: nat): nat
    requires k < 32
  {
    QuotientNat(ToUint32(x), Pow2(k));
    ToUint32(x) / Pow2(k)
  }

  lemma QuotientNat(a: nat, d: nat)
    requires d > 0
    ensures a / d >= 0
  {
  }

  function Or(x: int, y: int): int32 { ToInt32(BitwiseOr(ToUint32(x), ToUint32(y))) }

  function And(x: int, y: int): int32 { ToInt32(BitwiseAnd(ToUint32(x), ToUint32(y))) }

  lemma ToInt32Congruent(x: int)
    ensures ToUint32(ToInt32(x)) == ToUint32(x)
  {
    var u := ToUint32(x);
    if u >= 0x8000_0000 { DivModUnique(u - TWO32, TWO32, -1, u); }
  }

  /** Where no bit is set on both sides, `|` is addition. */
  lemma {:induction false} OrDisjoint(a: nat, b: nat, j: nat)
    requires a % Pow2(j) == 0 && b < Pow2(j)
    ensures BitwiseOr(a, b) == a + b
    decreases j
  {
    if j == 0 {
      OrZeroRight(a);
    } else if a + b > 0 {
      ModDouble(a, Pow2(j - 1));
      OrDisjoint(a / 2, b / 2, j - 1);
    }
  }

  lemma {:induction false} OrZeroRight(a: nat)
    ensures BitwiseOr(a, 0) == a
  {
    if a > 0 { OrZeroRight(a / 2); }
  }

  /** Masking with k ones is reduction modulo 2^k. */
  lemma AndZero(a: nat)
    ensures BitwiseAnd(a, 0) == 0 && BitwiseAnd(0, a) == 0
  {
  }

  lemma AndStep(a: nat, p: nat)
    requires a > 0 && p > 0
    ensures BitwiseAnd(a, 2 * p - 1) == 2 * BitwiseAnd(a / 2, p - 1) + a % 2
  {
    assert (2 * p - 1) / 2 == p - 1 && (2 * p - 1) % 2 == 1;
  }

  lemma {:induction false} AndMask(a: nat, k: nat)
    ensures BitwiseAnd(a, Pow2(k) - 1) == a % Pow2(k)
  {
    hide BitwiseAnd;
    AndZero(a);
    if a == 0 {
      AndZero(Pow2(k) - 1);
      DivModUnique(0, Pow2(k), 0, 0);
    } else if k > 0 {
      var p := Pow2(k - 1);
      ModDouble(a, p);
      AndMask(a / 2, k - 1);
      AndStep(a, p);
    }
  }

  lemma ShlUnsigned(x: int, k: nat)
    requires k < 32
    ensures ToUint32(Shl(x, k)) == (ToUint32(x) * Pow2(k)) % TWO32
  {
    ToInt32Congruent(ToInt32(x) * Pow2(k));
    ToInt32Congruent(x);
    ProductModulo(ToInt32(x), Pow2(k));
  }

  /** A factor may be reduced before a product is. */
  lemma ProductModulo(x: int, p: nat)
    ensures ((x % TWO32) * p) % TWO32 == (x * p) % TWO32
  {
    var q, u := x / TWO32, x % TWO32;
    assert x * p == (TWO32 * q + u) * p == TWO32 * (q * p) + u * p;
  }

  lemma Pow2Divides(k: nat)
    requires k <= 32
    ensures TWO32 == Pow2(k) * Pow2(32 - k)
  {
    Pow2Values();
    Pow2Add(k, 32 - k);
  }

  /** A multiple of p below p * k leaves room for any x below p. */
  lemma RoomBelow(a: nat, x: nat, p: nat, k: nat)
    requires p > 0 && a % p == 0 && a < p * k && x < p
    ensures a + x < p * k
  {
    var c := a / p;
    assert a == p * c;
    if c >= k { MulMonotonic(p, k, c); }
    MulMonotonic(p, c + 1, k);
  }

  lemma MultipleModulo(u: nat, p: nat, k: nat)
    requires p > 0 && k > 0
    ensures p * k > 0 && (u * p) % (p * k) % p == 0
  {
    ModMod(u * p, p, k);
    DivModUnique(u * p, p, u, 0);
  }

  lemma OrFits(a: nat, x: nat, w: nat)
    requires w <= 32 && a % Pow2(w) == 0 && x < Pow2(w) && a + x < TWO32
    ensures ToUint32(ToInt32(BitwiseOr(a, x))) == a + x
  {
    OrDisjoint(a, x, w);
    ToInt32Congruent(a + x);
    DivModUnique(a + x, TWO32, 0, a + x);
  }

  lemma ShlFits(v: int, w: nat, x: nat)
    requires w < 32 && x < Pow2(w)
    ensures ToUint32(Shl(v, w)) % Pow2(w) == 0 && ToUint32(Shl(v, w)) + x < TWO32
  {
    ShlUnsigned(v, w);
    Pow2Divides(w);
    MultipleModulo(ToUint32(v), Pow2(w), Pow2(32 - w));
    RoomBelow(ToUint32(Shl(v, w)), x, Pow2(w), Pow2(32 - w));
  }

  lemma AddBelow(n: int, x: int)
    requires x >= 0 && n % TWO32 + x < TWO32
    ensures (n + x) % TWO32 == n % TWO32 + x
  {
  }

  /** `(v << w) | x` modulo 2^32. */
  lemma ShiftInUnsigned(v: int, w: nat, x: nat)
    requires w < 32 && x < Pow2(w)
    ensures ToUint32(Or(Shl(v, w), x)) == (ToUint32(v) * Pow2(w) + x) % TWO32
  {
    hide Shl, Pow2, BitwiseOr, ToInt32;
    var a, p := ToUint32(Shl(v, w)), ToUint32(v) * Pow2(w);
    ShlFits(v, w, x);
    SmallUnsigned(x);
    OrFits(a, x, w);
    ShlUnsigned(v, w);
    AddBelow(p, x);
  }

  lemma ModTwo32(n: int, k: nat)
    requires k <= 32
    ensures (n % TWO32) % Pow2(k) == n % Pow2(k)
  {
    Pow2Divides(k);
    ModMod(n, Pow2(k), Pow2(32 - k));
  }

  /** Feeding w bits into a wrapping accumulator appends them to its live bits, however often it wrapped. */
  lemma ShiftIn(v: int, live: nat, w: nat, x: nat)
    requires w < 32 && x < Pow2(w) && live + w <= 32
    ensures LowBits(ToUint32(Or(Shl(v, w), x)), live + w) == LowBits(ToUint32(v), live) + LowBits(x, w)
  {
    ShiftInUnsigned(v, w, x);
    LowBitsConcat(ToUint32(v), live, x, w);
    var n := ToUint32(v) * Pow2(w) + x;
    ModTwo32(n, live + w);
    LowBitsMod(n % TWO32, n, live + w);
  }

  lemma {:induction false} DropSmaller(n: nat, j: nat)
    ensures Drop(n, j) <= n
  {
    if j > 0 { DropSmaller(n / 2, j - 1); }
  }

  lemma ShiftRightMasked(u: nat, rest: nat, w: nat)
    requires rest < 32 && w <= 31 && u < TWO32
    ensures And(u / Pow2(rest), Pow2(w) - 1) == Drop(u, rest) % Pow2(w)
  {
    hide And, Drop, Pow2, ToUint32;
    var m := Drop(u, rest);
    DropIsQuotient(u, rest);
    DropSmaller(u, rest);
    SmallUnsigned(m);
    MaskedValue(m, w);
  }

  lemma SmallSigned(m: nat)
    requires m < 0x8000_0000
    ensures ToInt32(m) == m
  {
  }

  lemma SmallUnsigned(m: nat)
    requires m < TWO32
    ensures ToUint32(m) == m
  {
  }

  /** `(v >>> (live - w)) & (2^w - 1)` reads the oldest w live bits. */
  lemma ShiftOut(v: int, live: nat, w: nat)
    requires w <= live <= 31
    ensures And(UShr(v, live - w), Pow2(w) - 1) == Value(LowBits(ToUint32(v), live)[..w])
    ensures LowBits(ToUint32(v), live)[w..] == LowBits(ToUint32(v), live - w)
  {
    var u, rest := ToUint32(v), live - w;
    ShiftRightMasked(u, rest, w);
    ValueLowBits(Drop(u, rest), w);
    LowBitsParts(u, w, rest);
  }

  lemma LowBitsParts(n: nat, i: nat, j: nat)
    ensures LowBits(n, i + j)[..i] == LowBits(Drop(n, j), i)
    ensures LowBits(n, i + j)[i..] == LowBits(n, j)
  {
    LowBitsSplit(n, i, j);
  }

  lemma MaskedValue(m: int, w: nat)
    requires w <= 31
    ensures And(m, Pow2(w) - 1) == ToUint32(m) % Pow2(w)
  {
    hide BitwiseAnd, ToInt32;
    var u, p := ToUint32(m), Pow2(w);
    assert p <= 0x8000_0000 by {
      Pow2Monotonic(w, 31);
      Pow2Values();
    }
    SmallUnsigned(p - 1);
    AndMask(u, w);
    SmallSigned(u % p);
  }

  /** `(v << pad) & (2^(live + pad) - 1)` reads the live bits followed by `pad` zeros. */
  lemma ShiftOutPadded(v: int, live: nat, pad: nat)
    requires live + pad <= 31
    ensures And(Shl(v, pad), Pow2(live + pad) - 1) == Value(LowBits(ToUint32(v), live) + Zeros(pad))
  {
    hide And, Shl, LowBits, Value, Zeros, Pow2, ToUint32;
    ShlUnsigned(v, pad);
    MaskedValue(Shl(v, pad), live + pad);
    LowBitsConcat(ToUint32(v), live, 0, pad);
    LowBitsZero(pad);
    var n := ToUint32(v) * Pow2(pad);
    ModTwo32(n, live + pad);
    ValueLowBits(n, live + pad);
  }

  // ---------------------------------------------------------------- regrouping

  function BytesToBits(s: seq<byte>): seq<bool> {
    if s == [] then [] else LowBits(s[0], 8) + BytesToBits(s[1..])
  }

  /** Whole octets of a bit string; fewer than eight bits at the end are dropped. */
  function BitsToBytes(b: seq<bool>): seq<byte> {
    if |b| < 8 then [] else [OctetValue(b[..8])] + BitsToBytes(b[8..])
  }

  function OctetValue(b: seq<bool>): byte
    requires |b| == 8
  {
    ValueBound(b);
    Pow2Values();
    Value(b)
  }

  /** Groups of w bits, the last one filled with zeros on the right. */
  function BitsToGroups(b: seq<bool>, w: nat): (g: seq<nat>)
    requires w > 0
  {
    if b == [] then []
    else if |b| < w then [Value(b + Zeros(w - |b|))]
    else [Value(b[..w])] + BitsToGroups(b[w..], w)
  }

  function GroupsToBits(g: seq<nat>, w: nat): seq<bool> {
    if g == [] then [] else LowBits(g[0], w) + GroupsToBits(g[1..], w)
  }

  /** The bit-string definition of unpadded base32 and base64. */
  function EncodeGroups(s: seq<byte>, w: nat): seq<nat>
    requires w > 0
  {
    BitsToGroups(BytesToBits(s), w)
  }

  function DecodeGroups(g: seq<nat>, w: nat): seq<byte> {
    BitsToBytes(GroupsToBits(g, w))
  }

  lemma {:induction false} BytesToBitsLength(s: seq<byte>)
    ensures |BytesToBits(s)| == 8 * |s|
  {
    if s != [] { BytesToBitsLength(s[1..]); }
  }

  /** |b| / w, rounded up. */
  function GroupCount(n: nat, w: nat): nat
    requires w > 0
  {
    if n == 0 then 0 else if n < w then 1 else 1 + GroupCount(n - w, w)
  }

  /** Reading the groups back gives the bits and fewer than w zeros after them. */
  lemma {:induction false} GroupsRead(b: seq<bool>, w: nat)
    requires w > 0
    ensures exists pad :: 0 <= pad < w && GroupsToBits(BitsToGroups(b, w), w) == b + Zeros(pad)
    decreases |b|
  {
    hide LowBits, Value;
    if b == [] {
      NoZeros();
      assert GroupsToBits(BitsToGroups(b, w), w) == b + Zeros(0);
    } else if |b| < w {
      LowBitsValue(b + Zeros(w - |b|));
      var n := Value(b + Zeros(w - |b|));
      OneGroup(n, [], w);
      assert [n] + [] == [n] && LowBits(n, w) + [] == LowBits(n, w);
      assert GroupsToBits(BitsToGroups(b, w), w) == b + Zeros(w - |b|);
    } else {
      GroupsRead(b[w..], w);
      var pad :| 0 <= pad < w && GroupsToBits(BitsToGroups(b[w..], w), w) == b[w..] + Zeros(pad);
      LowBitsValue(b[..w]);
      OneGroup(Value(b[..w]), BitsToGroups(b[w..], w), w);
      assert b[..w] + (b[w..] + Zeros(pad)) == b + Zeros(pad);
      assert GroupsToBits(BitsToGroups(b, w), w) == b + Zeros(pad);
    }
  }

  lemma NoZeros()
    ensures Zeros(0) == []
  {
  }

  lemma OneGroup(n: nat, g: seq<nat>, w: nat)
    ensures GroupsToBits([n] + g, w) == LowBits(n, w) + GroupsToBits(g, w)
    ensures GroupsToBits([], w) == []
  {
    assert ([n] + g)[1..] == g;
  }

  lemma OctetOf(x: byte)
    ensures OctetValue(LowBits(x, 8)) == x
  {
    hide LowBits, Value, Pow2;
    ValueLowBits(x, 8);
    Pow2Values();
  }

  lemma {:induction false} BytesRead(s: seq<byte>, tail: seq<bool>)
    requires |tail| < 8
    ensures BitsToBytes(BytesToBits(s) + tail) == s
  {
    if s == [] {
      assert BytesToBits(s) + tail == tail;
    } else {
      var b := BytesToBits(s) + tail;
      assert b[..8] == LowBits(s[0], 8);
      assert b[8..] == BytesToBits(s[1..]) + tail;
      OctetOf(s[0]);
      BytesRead(s[1..], tail);
    }
  }

  /** Regrouping octets into groups of at most eight bits loses nothing. */
  lemma RegroupingInverts(s: seq<byte>, w: nat)
    requires 0 < w <= 8
    ensures DecodeGroups(EncodeGroups(s, w), w) == s
  {
    var b := BytesToBits(s);
    GroupsRead(b, w);
    var pad :| 0 <= pad < w && GroupsToBits(BitsToGroups(b, w), w) == b + Zeros(pad);
    BytesRead(s, Zeros(pad));
  }

  // ---------------------------------------------------------------- regrouping is a change of base

  /** The number some digits denote in a base, the most significant first. */
  function Number(base: nat, digits: seq<int>): int {
    if digits == [] then 0 else base * Number(base, digits[..|digits| - 1]) + digits[|digits| - 1]
  }

  lemma {:induction false} ValueConcat(a: seq<bool>, b: seq<bool>)
    ensures Value(a + b) == Value(a) * Pow2(|b|) + Value(b)
  {
    if b == [] {
      assert a + b == a && Pow2(0) == 1;
    } else {
      var k := |b| - 1;
      ValueConcat(a, b[..k]);
      assert (a + b)[..|a| + k] == a + b[..k] && (a + b)[|a| + k] == b[k];
      Twice(Value(a), Pow2(k));
    }
  }

  lemma Twice(x: int, p: int)
    ensures 2 * (x * p) == x * (2 * p)
  {
  }

  lemma {:induction false} ValueZeros(k: nat)
    ensures Value(Zeros(k)) == 0
  {
    if k > 0 {
      ValueZeros(k - 1);
      assert Zeros(k)[..k - 1] == Zeros(k - 1);
    }
  }

  lemma {:induction false} NumberPrepend(w: nat, d: int, rest: seq<int>)
    ensures Number(Pow2(w), [d] + rest) == d * Pow2(w * |rest|) + Number(Pow2(w), rest)
  {
    if rest == [] {
      assert [d] + rest == [d] && [d][..0] == [] && w * 0 == 0 && Pow2(0) == 1;
    } else {
      var k := |rest| - 1;
      NumberPrepend(w, d, rest[..k]);
      assert ([d] + rest)[..k + 1] == [d] + rest[..k];
      assert w * (k + 1) == w + w * k;
      Pow2Add(w, w * k);
      Spread(Pow2(w), d, Pow2(w * k), Number(Pow2(w), rest[..k]));
    }
  }

  lemma Spread(p: int, d: int, q: int, n: int)
    ensures p * (d * q + n) == d * (p * q) + p * n
  {
  }

  lemma {:induction false} OctetsNumber(s: seq<byte>)
    ensures Number(256, s) == Value(BytesToBits(s))
  {
    hide Number, Value, LowBits, Pow2;
    Pow2Values();
    NumberNone(256);
    if s != [] {
      OctetsNumber(s[1..]);
      assert s == [s[0]] + s[1..];
      NumberPrepend(8, s[0], s[1..]);
      ValueConcat(LowBits(s[0], 8), BytesToBits(s[1..]));
      ValueLowBits(s[0], 8);
      BytesToBitsLength(s[1..]);
    }
  }

  lemma NumberNone(base: nat)
    ensures Number(base, []) == 0 && Value([]) == 0
  {
  }

  lemma {:induction false} GroupsNumber(b: seq<bool>, w: nat)
    requires w > 0
    ensures var g := BitsToGroups(b, w);
      && 0 <= w * |g| - |b| < w
      && Number(Pow2(w), g) == Value(b) * Pow2(w * |g| - |b|)
    decreases |b|
  {
    hide Number, Value, Pow2;
    NumberNone(Pow2(w));
    if b == [] {
      assert w * 0 == 0;
      NoPower();
    } else if |b| < w {
      LastGroupNumber(b, w);
    } else {
      GroupsNumber(b[w..], w);
      FirstGroupNumber(b, w, BitsToGroups(b[w..], w));
    }
  }

  lemma FirstGroupNumber(b: seq<bool>, w: nat, g: seq<nat>)
    requires 0 < w <= |b| && 0 <= w * |g| - |b[w..]|
    requires Number(Pow2(w), g) == Value(b[w..]) * Pow2(w * |g| - |b[w..]|)
    ensures w * (|g| + 1) == w * |g| + w
    ensures Number(Pow2(w), [Value(b[..w])] + g) == Value(b) * Pow2(w * |g| + w - |b|)
  {
    hide Number, Value, Pow2;
    var rest := b[w..];
    NumberPrepend(w, Value(b[..w]), g);
    assert b == b[..w] + rest;
    ValueConcat(b[..w], rest);
    var pad := w * |g| - |rest|;
    assert w * |g| == |rest| + pad;
    Pow2Add(|rest|, pad);
    Refilled(Value(b[..w]), Pow2(|rest|), Value(rest), Pow2(pad));
  }

  lemma Refilled(d: int, p: int, n: int, q: int)
    ensures (d * p + n) * q == d * (p * q) + n * q
  {
  }

  lemma NoPower()
    ensures Pow2(0) == 1
  {
  }

  lemma LastGroupNumber(b: seq<bool>, w: nat)
    requires b != [] && |b| < w
    ensures var n := Value(b + Zeros(w - |b|)); Number(Pow2(w), [n]) == Value(b) * Pow2(w - |b|) && w * 1 == w
  {
    hide Value, Pow2;
    ValueConcat(b, Zeros(w - |b|));
    ValueZeros(w - |b|);
    assert [Value(b + Zeros(w - |b|))][..0] == [];
  }

  /** Grouping the bits of octets by w writes their number, filled up with zeros on the right, in base 2^w. */
  lemma ChangeOfBase(s: seq<byte>, w: nat)
    requires w > 0
    ensures var g := EncodeGroups(s, w);
      var pad := w * |g| - 8 * |s|;
      0 <= pad < w && Number(Pow2(w), g) == Number(256, s) * Pow2(pad)
  {
    BytesToBitsLength(s);
    OctetsNumber(s);
    GroupsNumber(BytesToBits(s), w);
  }

  lemma {:induction false} SpelledLength(g: seq<nat>, w: nat)
    ensures |GroupsToBits(g, w)| == w * |g|
  {
    hide LowBits;
    if g == [] {
      assert w * 0 == 0;
    } else {
      SpelledLength(g[1..], w);
      assert w * |g| == w + w * |g[1..]|;
    }
  }

  lemma {:induction false} SpelledNumber(g: seq<nat>, w: nat)
    requires forall i :: 0 <= i < |g| ==> g[i] < Pow2(w)
    ensures Value(GroupsToBits(g, w)) == Number(Pow2(w), g)
  {
    hide Number, Value, Pow2, LowBits, GroupsToBits;
    NumberNone(Pow2(w));
    if g == [] {
      OneGroup(0, [], w);
    } else {
      var rest := g[1..];
      SpelledNumber(rest, w);
      assert g == [g[0]] + rest;
      NumberPrepend(w, g[0], rest);
      OneGroup(g[0], rest, w);
      ValueConcat(LowBits(g[0], w), GroupsToBits(rest, w));
      SpelledLength(rest, w);
      ValueOf(g[0], w);
    }
  }

  lemma ValueOf(n: nat, w: nat)
    requires n < Pow2(w)
    ensures Value(LowBits(n, w)) == n
  {
    ValueLowBits(n, w);
  }

  lemma {:induction false} WholeOctets(b: seq<bool>)
    ensures var out := BitsToBytes(b);
      |out| == |b| / 8 && Number(256, out) == Value(b[..8 * |out|])
  {
    hide Number, Value, Pow2;
    Pow2Values();
    NumberNone(256);
    if |b| >= 8 {
      WholeOctets(b[8..]);
      FirstOctetNumber(b, BitsToBytes(b[8..]));
    }
  }

  lemma FirstOctetNumber(b: seq<bool>, out: seq<byte>)
    requires |b| >= 8 && 8 * |out| <= |b[8..]| && Number(256, out) == Value(b[8..][..8 * |out|])
    ensures Number(256, [OctetValue(b[..8])] + out) == Value(b[..8 * |[OctetValue(b[..8])] + out|])
  {
    hide Number, Value, Pow2;
    Pow2Values();
    var more := b[8..][..8 * |out|];
    NumberPrepend(8, OctetValue(b[..8]), out);
    ValueConcat(b[..8], more);
    assert b[..8 * |[OctetValue(b[..8])] + out|] == b[..8] + more;
  }

  lemma OctetsRead(b: seq<bool>)
    ensures |BitsToBytes(b)| == |b| / 8 && Number(256, BitsToBytes(b)) == Value(b) / Pow2(|b| % 8)
  {
    hide Number, Value, Pow2, BitsToBytes;
    WholeOctets(b);
    FrontValue(b, 8 * |BitsToBytes(b)|);
    EighthsLeft(|b|);
  }

  /** Reading groups of w bits as octets divides their number by the places left over. */
  lemma BaseChanged(g: seq<nat>, w: nat)
    requires forall i :: 0 <= i < |g| ==> g[i] < Pow2(w)
    ensures var out := DecodeGroups(g, w);
      |out| == w * |g| / 8 && Number(256, out) == Number(Pow2(w), g) / Pow2(w * |g| % 8)
  {
    hide Number, Value, Pow2, BitsToBytes, GroupsToBits;
    SpelledNumber(g, w);
    SpelledLength(g, w);
    OctetsRead(GroupsToBits(g, w));
  }

  lemma EighthsLeft(n: nat)
    ensures n - 8 * (n / 8) == n % 8
  {
  }

  lemma FrontValue(b: seq<bool>, n: nat)
    requires n <= |b|
    ensures Value(b) / Pow2(|b| - n) == Value(b[..n])
  {
    hide Value, Pow2;
    assert b == b[..n] + b[n..];
    ValueConcat(b[..n], b[n..]);
    ValueBound(b[n..]);
    DivModUnique(Value(b), Pow2(|b| - n), Value(b[..n]), Value(b[n..]));
  }
}
