/** src/config.ts: byte counts printed with rounding by `formatSize` and read back with a floor by
    `parseSize`. Quotients are exact rationals. */
module Sizes {
  import opened Text

  function Scale(i: nat): (d: nat)
    requires i < 4
  {
    if i == 0 then 0x400 else if i == 1 then 0x10_0000 else if i == 2 then 0x4000_0000 else 0x100_0000_0000
  }

  function UnitName(i: nat): string
    requires i < 4
  {
    if i == 0 then "KB" else if i == 1 then "MB" else if i == 2 then "GB" else "TB"
  }

  /** `Math.round`, and the integer `toFixed` looks for: nearest, upwards at a half. */
  function Nearest(x: real): int { (x + 0.5).Floor }

  function Digits2(k: nat): (s: string)
    requires k < 100
  {
    [DigitChar(k / 10), DigitChar(k % 10)]
  }

  /** v with two decimals below 10, one below 100 and none above. */
  function Rounded(v: real): string
    requires v >= 0.0
  {
    if v < 10.0 then
      var h := Nearest(100.0 * v);
      Decimal(h / 100) + "." + Digits2(h % 100)
    else if v < 100.0 then
      var h := Nearest(10.0 * v);
      Decimal(h / 10) + "." + [DigitChar(h % 10)]
    else Decimal(Nearest(v))
  }

  /** The unit the division loop stops at. */
  function UnitIndex(n: nat): (i: nat)
    ensures i < 4
  {
    if n < Scale(1) then 0 else if n < Scale(2) then 1 else if n < Scale(3) then 2 else 3
  }

  function Quotient(n: nat, i: nat): (v: real)
    requires i < 4
    ensures v >= 0.0
  {
    n as real / Scale(i) as real
  }

  function Formatted(n: nat): string {
    if n < 1024 then Decimal(n) + " B"
    else Rounded(Quotient(n, UnitIndex(n))) + " " + UnitName(UnitIndex(n))
  }

  lemma NextUnit(n: nat, i: nat)
    requires i < 3
    ensures Quotient(n, i) / 1024.0 == Quotient(n, i + 1)
    ensures i <= UnitIndex(n) ==> (Quotient(n, i) >= 1024.0 <==> i < UnitIndex(n))
  {
  }

  method FormatSize(bytes: nat) returns (s: string)
    ensures s == Formatted(bytes)
  {
    if bytes < 1024 { return Decimal(bytes) + " B"; }
    hide Rounded, UnitName, UnitIndex, Decimal;
    var v, i := bytes as real / 1024.0, 0;
    while v >= 1024.0 && i < 3
      invariant 0 <= i <= UnitIndex(bytes) && v == Quotient(bytes, i)
      decreases 3 - i
    {
      NextUnit(bytes, i);
      v := v / 1024.0;
      i := i + 1;
    }
    if i < 3 { NextUnit(bytes, i); }
    s := Rounded(v) + " " + UnitName(i);
  }

  // ---------------------------------------------------------------- reading

  const MAX_SAFE: int := 0x1F_FFFF_FFFF_FFFF

  function DigitRun(s: string): (n: nat)
    ensures n <= |s| && AllDigits(s[..n])
  {
    if s != [] && IsDigit(s[0]) then
      assert s[..1 + DigitRun(s[1..])] == [s[0]] + s[1..][..DigitRun(s[1..])];
      1 + DigitRun(s[1..])
    else 0
  }

  function LetterRun(s: string): (n: nat)
    ensures n <= |s|
  {
    if s != [] && IsLetter(s[0]) then 1 + LetterRun(s[1..]) else 0
  }

  /** The groups of `/^\s*(\d+(?:\.\d+)?)\s*([a-zA-Z]*)\s*$/`: whole digits, decimals and unit. No
      class in the pattern overlaps the one after it, so the greedy reading is the only one. */
  datatype Match = Match(whole: string, decimals: string, unit: string)

  function Groups(input: string): (m: Option<Match>)
  {
    var s := TrimStart(input);
    var n := DigitRun(s);
    if n == 0 then None else
      var (decimals, rest) := Fraction(s[n..]);
      var unit := UnitGroup(TrimStart(rest));
      if unit.None? then None else Some(Match(s[..n], decimals, unit.value))
  }

  /** `(?:\.\d+)?`: the decimals and what follows them. */
  function Fraction(t: string): (r: (string, string))
  {
    if t != [] && t[0] == '.' && DigitRun(t[1..]) > 0 then
      (t[1..][..DigitRun(t[1..])], t[1..][DigitRun(t[1..])..])
    else ([], t)
  }

  /** `([a-zA-Z]*)\s*$` */
  function UnitGroup(u: string): Option<string> {
    if TrimStart(u[LetterRun(u)..]) == [] then Some(u[..LetterRun(u)]) else None
  }

  /** The multiplier of a lower-case unit; None for an unknown one. */
  function Multiplier(unit: string): Option<nat> {
    if unit == "" || unit == "b" then Some(1)
    else if unit == "k" || unit == "kb" || unit == "kib" then Some(Scale(0))
    else if unit == "m" || unit == "mb" || unit == "mib" then Some(Scale(1))
    else if unit == "g" || unit == "gb" || unit == "gib" then Some(Scale(2))
    else if unit == "t" || unit == "tb" || unit == "tib" then Some(Scale(3))
    else None
  }

  function Floored(number: nat, multiplier: nat, denominator: nat): nat
    requires denominator > 0
  {
    number * multiplier / denominator
  }

  /** whole.decimals times 10^|decimals| */
  function Numerator(whole: string, decimals: string): (k: nat)
    requires AllDigits(whole) && AllDigits(decimals)
    ensures k == NumberOf(whole) * Pow10(|decimals|) + NumberOf(decimals)
  {
    NumberOfConcat(whole, decimals);
    NumberOf(whole + decimals)
  }

  function Checked(value: nat): Result<nat> {
    if value > MAX_SAFE then Err("Invalid size") else Ok(value)
  }

  function ParseSize(input: string): Result<nat> {
    match Groups(input)
    case None => Err("Invalid size")
    case Some(m) =>
      // `SIZE_UNITS['constructor']` is inherited and no number: it fails the safe-integer check instead.
      if AsciiLowered(m.unit) == "constructor" then Err("Invalid size")
      else if Multiplier(AsciiLowered(m.unit)).None? then Err("Invalid unit in size")
      else Checked(Floored(Numerator(m.whole, m.decimals), Multiplier(AsciiLowered(m.unit)).value, Pow10(|m.decimals|)))
  }

  // ---------------------------------------------------------------- reading what was printed

  lemma {:induction false} RunOf(s: string, rest: string)
    requires AllDigits(s) && (rest != [] ==> !IsDigit(rest[0]))
    ensures DigitRun(s + rest) == |s|
  {
    if s == [] {
      assert s + rest == rest;
    } else {
      assert s[0] in s && (s + rest)[1..] == s[1..] + rest;
      RunOf(s[1..], rest);
    }
  }

  function Point(decimals: string): string {
    if decimals == [] then "" else "." + decimals
  }

  /** A numeral, one space and a unit are taken apart into the same parts. */
  lemma GroupsOf(whole: string, decimals: string, unit: string)
    requires whole != [] && AllDigits(whole) && AllDigits(decimals)
    requires unit != [] && forall i :: 0 <= i < |unit| ==> IsLetter(unit[i])
    ensures Groups(whole + (Point(decimals) + (" " + unit))) == Some(Match(whole, decimals, unit))
  {
    hide Groups;
    var m := Match(whole, decimals, unit);
    var input := whole + (Point(decimals) + (" " + unit));
    assert unit + "" == unit && "" + input == input;
    assert AllSpace(" ") && Written(input, m, "", " ", "");
    GroupsRead(input, m, "", " ", "");
  }

  lemma LowerPair(a: char, b: char)
    ensures AsciiLowered([a, b]) == [AsciiLower(a), AsciiLower(b)]
  {
    assert [a, b][1..] == [b];
    assert AsciiLowered([b]) == [AsciiLower(b)] + AsciiLowered([b][1..]);
  }

  lemma UnitReads(i: nat)
    requires i < 4
    ensures forall k :: 0 <= k < |UnitName(i)| ==> IsLetter(UnitName(i)[k])
    ensures UnitName(i) != [] && AsciiLowered(UnitName(i)) != "constructor"
    ensures Multiplier(AsciiLowered(UnitName(i))) == Some(Scale(i))
  {
    var u := UnitName(i);
    assert u == [u[0], 'B'];
    LowerPair(u[0], 'B');
  }

  /** What reading "whole.decimals unit" gives. */
  lemma ReadsAs(whole: string, decimals: string, i: nat)
    requires whole != [] && AllDigits(whole) && AllDigits(decimals) && i < 4
    ensures ParseSize(whole + (Point(decimals) + (" " + UnitName(i))))
         == Checked(Floored(Numerator(whole, decimals), Scale(i), Pow10(|decimals|)))
  {
    hide Groups, Numerator, Floored, Checked, Multiplier, Scale, UnitName, AsciiLowered, Pow10;
    UnitReads(i);
    GroupsOf(whole, decimals, UnitName(i));
  }

  lemma NumberOfDigits2(k: nat)
    requires k < 100
    ensures AllDigits(Digits2(k)) && |Digits2(k)| == 2 && NumberOf(Digits2(k)) == k
  {
    NumberOfOne(DigitChar(k / 10));
    assert Digits2(k)[..1] == [DigitChar(k / 10)];
  }

  /** How many units of the last printed place make one: 100, 10 or 1. */
  function Places(v: real): (p: nat) { if v < 10.0 then 100 else if v < 100.0 then 10 else 1 }

  lemma PointRead(whole: string, decimals: string, i: nat)
    requires whole != [] && decimals != [] && AllDigits(whole) && AllDigits(decimals) && i < 4
    ensures ParseSize(whole + "." + decimals + " " + UnitName(i))
         == Checked(Floored(Numerator(whole, decimals), Scale(i), Pow10(|decimals|)))
  {
    hide ParseSize, Scale, UnitName, Floored, Checked, Numerator, AllDigits, Pow10;
    ReadsAs(whole, decimals, i);
    Pointed(whole, decimals, " ", UnitName(i));
  }

  lemma Pointed(whole: string, decimals: string, space: string, unit: string)
    requires decimals != []
    ensures whole + "." + decimals + space + unit == whole + (Point(decimals) + (space + unit))
  {
  }

  lemma HundredthsRead(h: nat, i: nat)
    requires i < 4
    ensures ParseSize(Decimal(h / 100) + "." + Digits2(h % 100) + " " + UnitName(i)) == Checked(Floored(h, Scale(i), 100))
  {
    hide ParseSize, Scale, UnitName, Floored, Checked, Decimal, NumberOf, Digits2, Numerator;
    NumberOfDecimal(h / 100);
    NumberOfDigits2(h % 100);
    PointRead(Decimal(h / 100), Digits2(h % 100), i);
    Placed(Decimal(h / 100), Digits2(h % 100));
    Hundred();
  }

  lemma Placed(whole: string, decimals: string)
    requires AllDigits(whole) && AllDigits(decimals)
    ensures Numerator(whole, decimals) == NumberOf(whole) * Pow10(|decimals|) + NumberOf(decimals)
  {
    hide NumberOf, Pow10;
  }

  lemma Hundred()
    ensures Pow10(1) == 10 && Pow10(2) == 100
  {
    assert Pow10(1) == 10;
  }

  lemma TenthsRead(h: nat, i: nat)
    requires i < 4
    ensures ParseSize(Decimal(h / 10) + "." + [DigitChar(h % 10)] + " " + UnitName(i)) == Checked(Floored(h, Scale(i), 10))
  {
    hide ParseSize, Scale, UnitName, Floored, Checked, Decimal, NumberOf, DigitChar, Numerator;
    NumberOfDecimal(h / 10);
    DigitValued(h % 10);
    NumberOfOne(DigitChar(h % 10));
    PointRead(Decimal(h / 10), [DigitChar(h % 10)], i);
    Placed(Decimal(h / 10), [DigitChar(h % 10)]);
    Hundred();
  }

  lemma DigitValued(d: nat)
    requires d < 10
    ensures IsDigit(DigitChar(d)) && DigitValue(DigitChar(d)) == d
  {
  }

  lemma UnitsRead(h: nat, i: nat)
    requires i < 4
    ensures ParseSize(Decimal(h) + " " + UnitName(i)) == Checked(Floored(h, Scale(i), 1))
  {
    hide ParseSize, Scale, UnitName, Floored, Checked, Decimal, NumberOf;
    NumberOfDecimal(h);
    NumberOfOne('0');
    ReadsAs(Decimal(h), "", i);
    assert Decimal(h) + " " + UnitName(i) == Decimal(h) + (Point("") + (" " + UnitName(i)));
    assert Pow10(0) == 1;
    assert Numerator(Decimal(h), "") == h;
  }

  /** Printing v and reading it back under unit i floors the nearest multiple of the last place. */
  lemma RoundedReadsAs(v: real, i: nat)
    requires v >= 0.0 && i < 4
    ensures Nearest(Places(v) as real * v) >= 0
    ensures ParseSize(Rounded(v) + " " + UnitName(i))
         == Checked(Floored(Nearest(Places(v) as real * v), Scale(i), Places(v)))
  {
    hide ParseSize, Scale, UnitName, Floored, Checked, Decimal, Digits2, DigitChar;
    if v < 10.0 {
      HundredthsRead(Nearest(100.0 * v), i);
    } else if v < 100.0 {
      TenthsRead(Nearest(10.0 * v), i);
    } else {
      UnitsRead(Nearest(v), i);
      assert Places(v) as real * v == v;
    }
  }

  // ---------------------------------------------------------------- the error bound

  /** The nearest multiple, in whole numbers: h is within half of p * n / Scale(i). */
  lemma NearestOfQuotient(n: nat, i: nat, p: nat)
    requires i < 4 && (p == 1 || p == 10 || p == 100)
    ensures var h := Nearest(p as real * Quotient(n, i));
            (2 * h - 1) * Scale(i) <= 2 * p * n < (2 * h + 1) * Scale(i)
  {
    hide Nearest, Quotient, Scale;
    var h := Nearest(p as real * Quotient(n, i));
    NearestBounds(p as real * Quotient(n, i));
    if p == 1 {
      Cleared(h, n, 1.0, i);
    } else if p == 10 {
      Cleared(h, n, 10.0, i);
    } else {
      Cleared(h, n, 100.0, i);
    }
  }

  lemma NearestBounds(x: real)
    ensures Nearest(x) as real - 0.5 <= x < Nearest(x) as real + 0.5
  {
  }

  /** Multiplied by 2 * Scale(i). */
  lemma Cleared(h: int, n: nat, p: real, i: nat)
    requires i < 4 && (p == 1.0 || p == 10.0 || p == 100.0)
    requires h as real - 0.5 <= p * Quotient(n, i) < h as real + 0.5
    ensures ((2 * h - 1) * Scale(i)) as real <= 2.0 * p * n as real < ((2 * h + 1) * Scale(i)) as real
  {
    if p == 1.0 { ClearedOne(h, n, i); } else if p == 10.0 { ClearedTen(h, n, i); } else { ClearedHundred(h, n, i); }
  }

  lemma ClearedOne(h: int, n: nat, i: nat)
    requires i < 4 && h as real - 0.5 <= 1.0 * Quotient(n, i) < h as real + 0.5
    ensures ((2 * h - 1) * Scale(i)) as real <= 2.0 * n as real < ((2 * h + 1) * Scale(i)) as real
  {
    if i == 0 {} else if i == 1 {} else if i == 2 {} else {}
  }

  lemma ClearedTen(h: int, n: nat, i: nat)
    requires i < 4 && h as real - 0.5 <= 10.0 * Quotient(n, i) < h as real + 0.5
    ensures ((2 * h - 1) * Scale(i)) as real <= 20.0 * n as real < ((2 * h + 1) * Scale(i)) as real
  {
    if i == 0 {} else if i == 1 {} else if i == 2 {} else {}
  }

  lemma ClearedHundred(h: int, n: nat, i: nat)
    requires i < 4 && h as real - 0.5 <= 100.0 * Quotient(n, i) < h as real + 0.5
    ensures ((2 * h - 1) * Scale(i)) as real <= 200.0 * n as real < ((2 * h + 1) * Scale(i)) as real
  {
    if i == 0 {} else if i == 1 {} else if i == 2 {} else {}
  }

  /** Half of the last place is at most n / 200, and the floor loses less than one byte. */
  lemma FlooredWithin(n: nat, i: nat, p: nat, h: nat)
    requires i < 4 && (p == 1 || p == 10 || p == 100)
    requires (2 * h - 1) * Scale(i) <= 2 * p * n < (2 * h + 1) * Scale(i)
    requires 100 * Scale(i) <= p * n
    ensures 200 * (Floored(h, Scale(i), p) - n) <= n + 200
    ensures 200 * (n - Floored(h, Scale(i), p)) <= n + 200
  {
    hide Scale;
    var d := Scale(i);
    assert (2 * h - 1) * d == 2 * (h * d) - d && (2 * h + 1) * d == 2 * (h * d) + d;
    FlooredLinear(n, d, p, h * d);
  }

  lemma FlooredLinear(n: nat, d: nat, p: nat, x: nat)
    requires p == 1 || p == 10 || p == 100
    requires 2 * x - d <= 2 * p * n < 2 * x + d && 100 * d <= p * n
    ensures 200 * (x / p - n) <= n + 200 && 200 * (n - x / p) <= n + 200
  {
    if p == 1 {} else if p == 10 {} else {}
  }

  lemma QuotientRange(n: nat)
    requires n >= 1024
    ensures var i := UnitIndex(n); var p := Places(Quotient(n, i));
            100 * Scale(i) <= p * n && (i < 3 ==> n < 1024 * Scale(i))
            && (p > 1 ==> n < 100 * Scale(i))
  {
  }

  /** The range formatSize keeps readable: up to 8191.5 TB, exclusive. */
  predicate Readable(n: nat) { 2 * n < 16383 * Scale(3) }

  lemma CheckedExactly(n: nat, i: nat, p: nat, h: nat)
    requires i == UnitIndex(n) && p == Places(Quotient(n, i)) && n >= 1024
    requires (2 * h - 1) * Scale(i) <= 2 * p * n < (2 * h + 1) * Scale(i)
    ensures Floored(h, Scale(i), p) <= MAX_SAFE <==> Readable(n)
  {
    QuotientRange(n);
    if i == 0 {} else if i == 1 {} else if i == 2 {} else {}
  }

  lemma PlainByte()
    ensures AsciiLowered("B") == "b" && "b" != "constructor" && Multiplier("b") == Some(1)
  {
    assert "B"[1..] == "";
    assert |"b"| == 1 && |"constructor"| == 11;
  }

  lemma BytesReadAs(n: nat)
    requires n < 1024
    ensures ParseSize(Formatted(n)) == Ok(n)
  {
    hide Decimal, NumberOf, Groups, AsciiLowered, Multiplier;
    NumberOfDecimal(n);
    NumberOfOne('0');
    GroupsOf(Decimal(n), "", "B");
    assert Formatted(n) == Decimal(n) + " B";
    assert " " + "B" == " B";
    assert Formatted(n) == Decimal(n) + (Point("") + " B");
    PlainByte();
    assert Numerator(Decimal(n), "") == n;
    assert Pow10(0) == 1;
  }

  lemma UnitsReadAs(n: nat)
    requires n >= 1024
    ensures var back := ParseSize(Formatted(n));
      && (back.Ok? <==> Readable(n))
      && (back.Ok? ==> 200 * (back.value - n) <= n + 200 && 200 * (n - back.value) <= n + 200)
      && (back.Err? ==> back == Err("Invalid size"))
  {
    hide ParseSize, Rounded, Scale, UnitName, Floored, UnitIndex, Quotient, Nearest, Readable;
    var i := UnitIndex(n);
    var v := Quotient(n, i);
    var p := Places(v);
    RoundedReadsAs(v, i);
    NearestOfQuotient(n, i, p);
    QuotientRange(n);
    var h := Nearest(p as real * v);
    FlooredWithin(n, i, p, h);
    CheckedExactly(n, i, p, h);
  }

  /** A printed size is read back exactly when it prints below 8192 TB, and then comes back within
      one part in two hundred and one byte; below 1024 bytes it comes back exactly. */
  lemma FormatThenParse(n: nat)
    ensures ParseSize(Formatted(n)).Ok? <==> Readable(n)
    ensures Readable(n) ==>
      var back := ParseSize(Formatted(n)).value;
      && 200 * (back - n) <= n + 200 && 200 * (n - back) <= n + 200
      && (n < 1024 ==> back == n)
    ensures !Readable(n) ==> ParseSize(Formatted(n)) == Err("Invalid size")
  {
    hide ParseSize, Formatted;
    if n < 1024 {
      BytesReadAs(n);
    } else {
      UnitsReadAs(n);
    }
  }

  // ---------------------------------------------------------------- exactly what is printed

  /** The unit a number of bytes is shown in: its scale and its name. */
  predicate ShownIn(n: nat, scale: nat, name: string) {
    || (n < 1024 * 1024 && scale == 1024 && name == "KB")
    || (1024 * 1024 <= n < 1024 * 1024 * 1024 && scale == 1024 * 1024 && name == "MB")
    || (1024 * 1024 * 1024 <= n < 1024 * 1024 * 1024 * 1024 && scale == 1024 * 1024 * 1024 && name == "GB")
    || (1024 * 1024 * 1024 * 1024 <= n && scale == 1024 * 1024 * 1024 * 1024 && name == "TB")
  }

  /** Three figures: two decimals below 10 units, one below 100, none from there on. */
  predicate Figures(n: nat, scale: nat, places: nat) {
    if n < 10 * scale then places == 100 else if n < 100 * scale then places == 10 else places == 1
  }

  function Placed3(h: nat, places: nat): string {
    if places == 100 then Decimal(h / 100) + "." + [DigitChar(h / 10 % 10)] + [DigitChar(h % 10)]
    else if places == 10 then Decimal(h / 10) + "." + [DigitChar(h % 10)]
    else Decimal(h)
  }

  lemma SameNearest(scale: nat, x: int, h: int, k: int)
    requires (2 * h - 1) * scale <= x < (2 * h + 1) * scale
    requires (2 * k - 1) * scale <= x < (2 * k + 1) * scale
    ensures h == k
  {
    if h < k { HalvesApart(h, k, scale); } else if k < h { HalvesApart(k, h, scale); }
  }

  lemma HalvesApart(h: int, k: int, scale: nat)
    requires h < k
    ensures (2 * h + 1) * scale <= (2 * k - 1) * scale
  {
    assert (2 * k - 1) * scale == (2 * h + 1) * scale + (2 * (k - h - 1)) * scale;
  }

  lemma Figured(n: nat, places: nat)
    requires n >= 1024 && Figures(n, Scale(UnitIndex(n)), places)
    ensures places == Places(Quotient(n, UnitIndex(n))) && (places == 1 || places == 10 || places == 100)
  {
  }

  /** A size is printed as the nearest number with three figures, upwards at a half, and its unit. */
  lemma FormatExactly(n: nat, scale: nat, name: string, places: nat, h: nat)
    requires n >= 1024 && ShownIn(n, scale, name) && Figures(n, scale, places)
    requires (2 * h - 1) * scale <= 2 * places * n < (2 * h + 1) * scale
    ensures Formatted(n) == Placed3(h, places) + " " + name
  {
    hide Rounded, Quotient, Nearest, Figures, Places, Scale, UnitName, UnitIndex, ShownIn, Decimal, DigitChar;
    var i := UnitIndex(n);
    UnitShown(n, scale, name);
    Figured(n, places);
    NearestOfQuotient(n, i, places);
    SameNearest(scale, 2 * places * n, h, Nearest(places as real * Quotient(n, i)));
    RoundedAs(Quotient(n, i), places, h);
  }

  lemma UnitShown(n: nat, scale: nat, name: string)
    requires n >= 1024 && ShownIn(n, scale, name)
    ensures scale == Scale(UnitIndex(n)) && name == UnitName(UnitIndex(n))
  {
  }

  lemma RoundedAs(v: real, places: nat, h: nat)
    requires v >= 0.0 && places == Places(v) && h == Nearest(places as real * v)
    ensures Rounded(v) == Placed3(h, places)
  {
    hide Decimal, Nearest, DigitChar;
    if v < 10.0 {
      assert places as real == 100.0;
      LastTwo(h);
    } else if v < 100.0 {
      assert places as real == 10.0;
    } else {
      assert places as real == 1.0 && 1.0 * v == v;
    }
  }

  lemma LastTwo(h: nat)
    ensures Digits2(h % 100) == [DigitChar(h / 10 % 10)] + [DigitChar(h % 10)]
  {
    hide DigitChar;
    TwoPlaces(h);
  }

  lemma TwoPlaces(h: nat)
    ensures h % 100 / 10 == h / 10 % 10 && h % 100 % 10 == h % 10
  {
    var q, a, b := h / 100, h % 100 / 10, h % 100 % 10;
    assert h == 10 * (10 * q + a) + b;
    assert h / 10 == 10 * q + a;
  }

  // ---------------------------------------------------------------- exactly what is read

  predicate AllSpace(s: string) { forall c :: c in s ==> IsSpace(c) }

  predicate AllLetters(s: string) { forall i :: 0 <= i < |s| ==> IsLetter(s[i]) }

  /** White space, digits, perhaps a point and digits, white space, letters, white space. */
  ghost predicate Written(input: string, m: Match, left: string, space: string, right: string) {
    && AllSpace(left) && AllSpace(space) && AllSpace(right)
    && m.whole != "" && AllDigits(m.whole) && AllDigits(m.decimals) && AllLetters(m.unit)
    && input == left + (m.whole + (Point(m.decimals) + (space + (m.unit + right))))
  }

  ghost predicate Reads(input: string, m: Match) { exists left, space, right :: Written(input, m, left, space, right) }

  lemma Classes(c: char)
    ensures IsSpace(c) ==> !IsDigit(c) && !IsLetter(c) && c != '.'
    ensures IsLetter(c) ==> !IsDigit(c) && c != '.'
  {
  }

  lemma {:induction false} TrimmedStart(s: string) returns (left: string)
    ensures AllSpace(left) && s == left + TrimStart(s)
  {
    if s != "" && IsSpace(s[0]) {
      var more := TrimmedStart(s[1..]);
      left := [s[0]] + more;
    } else {
      left := "";
    }
  }

  lemma {:induction false} LettersRun(unit: string, rest: string)
    requires AllLetters(unit) && (rest != "" ==> !IsLetter(rest[0]))
    ensures LetterRun(unit + rest) == |unit|
  {
    if unit == "" {
      assert unit + rest == rest;
    } else {
      assert (unit + rest)[1..] == unit[1..] + rest;
      LettersRun(unit[1..], rest);
    }
  }

  lemma {:induction false} LettersTaken(s: string)
    ensures AllLetters(s[..LetterRun(s)])
  {
    if s != "" && IsLetter(s[0]) {
      LettersTaken(s[1..]);
      assert s[..LetterRun(s)] == [s[0]] + s[1..][..LetterRun(s) - 1];
    }
  }

  lemma SpaceTrimmed(s: string, rest: string)
    requires AllSpace(s) && (rest != "" ==> !IsSpace(rest[0]))
    ensures TrimStart(s + rest) == rest
  {
    TrimStartPadded(s, rest);
  }

  lemma UnitGroupReads(space: string, unit: string, right: string)
    requires AllSpace(space) && AllSpace(right) && AllLetters(unit)
    ensures UnitGroup(TrimStart(space + (unit + right))) == Some(unit)
  {
    hide IsSpace, IsLetter, TrimStart, LetterRun;
    if right != "" {
      assert right[0] in right;
      Classes(right[0]);
    }
    assert right + "" == right;
    SpaceTrimmed(right, "");
    if unit == "" {
      assert space + (unit + right) == (space + right) + "";
      SpaceTrimmed(space + right, "");
      LettersRun("", "");
      SpaceTrimmed("", "");
      assert "" + "" == "";
    } else {
      Classes(unit[0]);
      SpaceTrimmed(space, unit + right);
      LettersRun(unit, right);
      assert (unit + right)[|unit|..] == right && (unit + right)[..|unit|] == unit;
    }
  }

  lemma FractionReads(decimals: string, rest: string)
    requires AllDigits(decimals) && (rest != "" ==> !IsDigit(rest[0]) && rest[0] != '.')
    ensures Fraction(Point(decimals) + rest) == (decimals, rest)
  {
    hide IsDigit, DigitRun;
    var t := Point(decimals) + rest;
    if decimals == "" {
      assert t == rest;
    } else {
      assert t[1..] == decimals + rest;
      RunOf(decimals, rest);
    }
  }

  lemma TailFirst(space: string, unit: string, right: string)
    requires AllSpace(space) && AllSpace(right) && AllLetters(unit)
    ensures var t := space + (unit + right); t != "" ==> !IsDigit(t[0]) && t[0] != '.'
  {
    hide IsSpace, IsLetter, IsDigit;
    var t := space + (unit + right);
    if t != "" {
      Classes(t[0]);
      if space != "" { assert t[0] in space; } else if unit != "" { assert t[0] == unit[0]; } else { assert t[0] in right; }
    }
  }

  lemma GroupsRead(input: string, m: Match, left: string, space: string, right: string)
    requires Written(input, m, left, space, right)
    ensures Groups(input) == Some(m)
  {
    assert !IsDigit('.');
    hide IsSpace, IsLetter, IsDigit, TrimStart, DigitRun, Fraction, UnitGroup, AllSpace, AllLetters;
    var tail := space + (m.unit + right);
    var t := Point(m.decimals) + tail;
    assert t != "" ==> t[0] == if m.decimals == "" then tail[0] else '.';
    TailFirst(space, m.unit, right);
    FractionReads(m.decimals, tail);
    UnitGroupReads(space, m.unit, right);
    WholeReads(left, m.whole, t);
    assert (m.whole + t)[..|m.whole|] == m.whole && (m.whole + t)[|m.whole|..] == t;
  }

  lemma WholeReads(left: string, whole: string, t: string)
    requires AllSpace(left) && whole != "" && AllDigits(whole) && (t != "" ==> !IsDigit(t[0]))
    ensures TrimStart(left + (whole + t)) == whole + t && DigitRun(whole + t) == |whole|
  {
    assert whole[0] in whole;
    Classes(whole[0]);
    SpaceTrimmed(left, whole + t);
    RunOf(whole, t);
  }

  lemma FractionParts(t: string)
    ensures var (decimals, rest) := Fraction(t); AllDigits(decimals) && t == Point(decimals) + rest
  {
  }

  lemma GroupsOnly(input: string)
    requires Groups(input).Some?
    ensures Reads(input, Groups(input).value)
  {
    hide IsSpace, IsLetter, IsDigit, TrimStart, DigitRun, Fraction, LetterRun, AllSpace, AllLetters;
    var s := TrimStart(input);
    var n := DigitRun(s);
    var left := TrimmedStart(input);
    var (decimals, rest) := Fraction(s[n..]);
    FractionParts(s[n..]);
    var space := TrimmedStart(rest);
    var u := TrimStart(rest);
    var k := LetterRun(u);
    LettersTaken(u);
    var right := TrimmedStart(u[k..]);
    assert right + "" == right;
    var m := Match(s[..n], decimals, u[..k]);
    assert u == m.unit + right && rest == space + u && s == m.whole + s[n..];
    assert Written(input, m, left, space, right);
  }

  /** The units, in any case, and what each multiplies by. */
  predicate UnitIs(unit: string, multiplier: nat) {
    || (multiplier == 1 && (unit == "" || InAnyCase(unit, "b")))
    || (multiplier == 1024 && (InAnyCase(unit, "k") || InAnyCase(unit, "kb") || InAnyCase(unit, "kib")))
    || (multiplier == 1024 * 1024 && (InAnyCase(unit, "m") || InAnyCase(unit, "mb") || InAnyCase(unit, "mib")))
    || (multiplier == 1024 * 1024 * 1024 && (InAnyCase(unit, "g") || InAnyCase(unit, "gb") || InAnyCase(unit, "gib")))
    || (multiplier == 1024 * 1024 * 1024 * 1024 && (InAnyCase(unit, "t") || InAnyCase(unit, "tb") || InAnyCase(unit, "tib")))
  }

  lemma AnyCaseUnit(unit: string, c: char)
    requires 'a' <= c <= 'z'
    ensures AsciiLowered(unit) == [c] <==> InAnyCase(unit, [c])
    ensures AsciiLowered(unit) == [c, 'b'] <==> InAnyCase(unit, [c, 'b'])
    ensures AsciiLowered(unit) == [c, 'i', 'b'] <==> InAnyCase(unit, [c, 'i', 'b'])
  {
    AnyCase(unit, [c]);
    AnyCase(unit, [c, 'b']);
    AnyCase(unit, [c, 'i', 'b']);
  }

  lemma UnitExactly(unit: string, multiplier: nat)
    ensures Multiplier(AsciiLowered(unit)) == Some(multiplier) <==> UnitIs(unit, multiplier)
    ensures AsciiLowered(unit) == "constructor" ==> !UnitIs(unit, multiplier)
  {
    hide InAnyCase, AsciiLowered;
    LowerAt(unit);
    AnyCaseUnit(unit, 'b');
    AnyCaseUnit(unit, 'k');
    AnyCaseUnit(unit, 'm');
    AnyCaseUnit(unit, 'g');
    AnyCaseUnit(unit, 't');
    assert AsciiLowered(unit) == "" <==> unit == "";
    var u := AsciiLowered(unit);
    assert "b" == ['b'] && "k" == ['k'] && "kb" == ['k', 'b'] && "kib" == ['k', 'i', 'b'];
    assert "m" == ['m'] && "mb" == ['m', 'b'] && "mib" == ['m', 'i', 'b'];
    assert "g" == ['g'] && "gb" == ['g', 'b'] && "gib" == ['g', 'i', 'b'];
    assert "t" == ['t'] && "tb" == ['t', 'b'] && "tib" == ['t', 'i', 'b'];
  }

  /** whole.decimals times the multiplier, without what is left of a byte. */
  function Amount(m: Match, multiplier: nat): int
    requires AllDigits(m.whole) && AllDigits(m.decimals)
  {
    (NumberOf(m.whole) * Pow10(|m.decimals|) + NumberOf(m.decimals)) * multiplier / Pow10(|m.decimals|)
  }

  /** Exactly which texts are sizes, and what each comes to. */
  lemma SizeExactly(input: string, v: nat)
    ensures ParseSize(input) == Ok(v) <==>
      exists m, multiplier :: Reads(input, m) && UnitIs(m.unit, multiplier) &&
        AllDigits(m.whole) && AllDigits(m.decimals) && v == Amount(m, multiplier) <= 0x1F_FFFF_FFFF_FFFF
  {
    hide Groups, Multiplier, UnitIs, AsciiLowered, NumberOf, Pow10;
    forall m | Reads(input, m) ensures Groups(input) == Some(m) {
      var left, space, right :| Written(input, m, left, space, right);
      GroupsRead(input, m, left, space, right);
    }
    if Groups(input).Some? {
      var m := Groups(input).value;
      GroupsOnly(input);
      forall multiplier: nat { UnitExactly(m.unit, multiplier); }
      if ParseSize(input) == Ok(v) {
        var multiplier := Multiplier(AsciiLowered(m.unit)).value;
        assert UnitIs(m.unit, multiplier) && v == Amount(m, multiplier);
      }
    }
  }
}
