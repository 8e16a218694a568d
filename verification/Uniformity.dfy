/** How many streams of random octets lead to each access code and each password of src/crypto.ts:
    the same number for all of them. */
module Uniformity {
  import opened Text
  import opened Bits
  import opened Sampling

  /** The first accepted symbols of the tape are these. */
  predicate Yields(m: Sampler, tape: seq<int>, code: seq<nat>)
    requires m.Valid()
  {
    code <= Accepted(m, tape)
  }

  function Prefixed(b: int, tapes: set<seq<int>>): set<seq<int>> { set t | t in tapes :: [b] + t }

  lemma PrefixedMember(b: int, tapes: set<seq<int>>, t: seq<int>)
    ensures t in Prefixed(b, tapes) <==> t != [] && t[0] == b && t[1..] in tapes
  {
    if t != [] && t[0] == b && t[1..] in tapes { assert t == [b] + t[1..]; }
    forall u | u in tapes ensures ([b] + u)[1..] == u {}
  }

  lemma {:induction false} PrefixedSize(b: int, tapes: set<seq<int>>)
    ensures |Prefixed(b, tapes)| == |tapes|
    decreases tapes
  {
    if tapes == {} {
      assert Prefixed(b, tapes) == {};
    } else {
      var t :| t in tapes;
      PrefixedSize(b, tapes - {t});
      assert Prefixed(b, tapes) == Prefixed(b, tapes - {t}) + {[b] + t};
      PrefixedMember(b, tapes - {t}, [b] + t);
      assert ([b] + t)[1..] == t;
    }
  }

  /** One of the octets from `from` to 255, then one of the tapes. */
  function AfterRange(from: nat, tapes: set<seq<int>>): set<seq<int>>
    requires from <= 256
    decreases 256 - from
  {
    if from == 256 then {} else Prefixed(from, tapes) + AfterRange(from + 1, tapes)
  }

  lemma {:induction false} AfterRangeExact(from: nat, tapes: set<seq<int>>, t: seq<int>)
    requires from <= 256
    ensures t in AfterRange(from, tapes) <==> t != [] && from <= t[0] < 256 && t[1..] in tapes
    decreases 256 - from
  {
    hide Prefixed;
    if from < 256 {
      PrefixedMember(from, tapes, t);
      AfterRangeExact(from + 1, tapes, t);
    }
  }

  lemma {:induction false} AfterRangeSize(from: nat, tapes: set<seq<int>>)
    requires from <= 256
    ensures |AfterRange(from, tapes)| == (256 - from) * |tapes|
    decreases 256 - from
  {
    hide Prefixed;
    if from < 256 {
      PrefixedSize(from, tapes);
      AfterRangeSize(from + 1, tapes);
      forall t | t in Prefixed(from, tapes) ensures t !in AfterRange(from + 1, tapes) {
        PrefixedMember(from, tapes, t);
        AfterRangeExact(from + 1, tapes, t);
      }
      OneMoreTimes(255 - from, |tapes|);
    }
  }

  lemma OneMoreTimes(k: nat, n: nat)
    ensures (k + 1) * n == k * n + n
  {
  }

  /** One of the first k octets that stand for the symbol d, then one of the tapes. */
  function AfterColumn(m: Sampler, d: nat, k: nat, tapes: set<seq<int>>): set<seq<int>> {
    if k == 0 then {} else AfterColumn(m, d, k - 1, tapes) + Prefixed(d + m.modulus * (k - 1), tapes)
  }

  lemma ColumnNext(m: nat, d: nat, k: nat, x: int)
    requires d < m
    ensures m * k <= d + m * k < m * (k + 1)
    ensures m * k <= x < m * (k + 1) && x % m == d <==> x == d + m * k
  {
    DivModUnique(d + m * k, m, k, d);
    if m * k <= x < m * (k + 1) { DivModUnique(x, m, k, x - m * k); }
  }

  lemma {:induction false} AfterColumnExact(m: Sampler, d: nat, k: nat, tapes: set<seq<int>>, t: seq<int>)
    requires d < m.modulus
    ensures t in AfterColumn(m, d, k, tapes) <==>
              t != [] && 0 <= t[0] < m.modulus * k && t[0] % m.modulus == d && t[1..] in tapes
  {
    hide Prefixed;
    if k > 0 {
      PrefixedMember(d + m.modulus * (k - 1), tapes, t);
      AfterColumnExact(m, d, k - 1, tapes, t);
      ColumnNext(m.modulus, d, k - 1, if t == [] then 0 else t[0]);
      OneMoreTimes(k - 1, m.modulus);
    }
  }

  lemma ColumnDisjoint(m: Sampler, d: nat, k: nat, tapes: set<seq<int>>)
    requires d < m.modulus && k > 0
    ensures Prefixed(d + m.modulus * (k - 1), tapes) !! AfterColumn(m, d, k - 1, tapes)
  {
    hide Prefixed, AfterColumn;
    var x := d + m.modulus * (k - 1);
    forall t | t in Prefixed(x, tapes) ensures t !in AfterColumn(m, d, k - 1, tapes) {
      PrefixedMember(x, tapes, t);
      AfterColumnExact(m, d, k - 1, tapes, t);
    }
  }

  lemma {:induction false} AfterColumnSize(m: Sampler, d: nat, k: nat, tapes: set<seq<int>>)
    requires d < m.modulus
    ensures |AfterColumn(m, d, k, tapes)| == k * |tapes|
  {
    if k > 0 {
      AfterColumnSize(m, d, k - 1, tapes);
      NextColumn(m, d, k, tapes);
    }
  }

  lemma NextColumn(m: Sampler, d: nat, k: nat, tapes: set<seq<int>>)
    requires d < m.modulus && k > 0 && |AfterColumn(m, d, k - 1, tapes)| == (k - 1) * |tapes|
    ensures |AfterColumn(m, d, k, tapes)| == k * |tapes|
  {
    hide Prefixed;
    var x := d + m.modulus * (k - 1);
    assert AfterColumn(m, d, k, tapes) == AfterColumn(m, d, k - 1, tapes) + Prefixed(x, tapes);
    hide AfterColumn;
    ColumnDisjoint(m, d, k, tapes);
    PrefixedSize(x, tapes);
    JoinedSize(AfterColumn(m, d, k - 1, tapes), Prefixed(x, tapes));
    OneMoreTimes(k - 1, |tapes|);
  }

  lemma JoinedSize(a: set<seq<int>>, b: set<seq<int>>)
    requires b !! a
    ensures |a + b| == |a| + |b|
  {
  }

  /** How many tapes of a length yield any given code of n symbols. */
  function Ways(m: Sampler, length: nat, n: nat): nat
    requires m.Valid()
  {
    if length == 0 then if n == 0 then 1 else 0
    else if n == 0 then 256 * Ways(m, length - 1, 0)
    else (256 - m.Limit()) * Ways(m, length - 1, n) + m.copies * Ways(m, length - 1, n - 1)
  }

  predicate IsCode(m: Sampler, code: seq<nat>) { forall i :: 0 <= i < |code| ==> code[i] < m.modulus }

  /** The tapes of this length that yield the code. */
  function Tapes(m: Sampler, length: nat, code: seq<nat>): (s: set<seq<int>>)
    requires m.Valid() && IsCode(m, code)
    decreases length
  {
    if length == 0 then if code == [] then {[]} else {}
    else if code == [] then AfterRange(0, Tapes(m, length - 1, []))
    else
      AfterRange(m.Limit(), Tapes(m, length - 1, code))
      + AfterColumn(m, code[0], m.copies, Tapes(m, length - 1, code[1..]))
  }

  predicate IsTape(t: seq<int>, length: nat) {
    |t| == length && forall i :: 0 <= i < |t| ==> 0 <= t[i] < 256
  }

  lemma YieldsStep(m: Sampler, t: seq<int>, code: seq<nat>)
    requires m.Valid() && t != []
    ensures Yields(m, t, code) <==>
              || code == []
              || (t[0] >= m.Limit() && Yields(m, t[1..], code))
              || (t[0] < m.Limit() && t[0] % m.modulus == code[0] && Yields(m, t[1..], code[1..]))
  {
    var a := Accepted(m, t[1..]);
    if code != [] && t[0] < m.Limit() {
    }
  }

  lemma TapeStep(t: seq<int>, length: nat)
    requires length > 0
    ensures IsTape(t, length) <==> t != [] && 0 <= t[0] < 256 && IsTape(t[1..], length - 1)
  {
    if t != [] && 0 <= t[0] < 256 && IsTape(t[1..], length - 1) {
      forall i | 0 <= i < |t| ensures 0 <= t[i] < 256 { if i > 0 { assert t[i] == t[1..][i - 1]; } }
    }
  }

  /** Tapes holds exactly the tapes that yield the code. */
  lemma {:induction false} TapesExact(m: Sampler, length: nat, code: seq<nat>, t: seq<int>)
    requires m.Valid() && IsCode(m, code)
    ensures t in Tapes(m, length, code) <==> IsTape(t, length) && Yields(m, t, code)
    decreases length
  {
    hide AfterRange, AfterColumn, Yields, IsTape;
    if length == 0 {
      EmptyTape(m, t, code);
    } else {
      TapeStep(t, length);
      if t != [] { YieldsStep(m, t, code); }
      if code == [] {
        AfterRangeExact(0, Tapes(m, length - 1, []), t);
        if t != [] {
          TapesExact(m, length - 1, [], t[1..]);
          NothingYielded(m, t[1..]);
        }
      } else {
        AfterRangeExact(m.Limit(), Tapes(m, length - 1, code), t);
        AfterColumnExact(m, code[0], m.copies, Tapes(m, length - 1, code[1..]), t);
        if t != [] {
          TapesExact(m, length - 1, code, t[1..]);
          TapesExact(m, length - 1, code[1..], t[1..]);
        }
      }
    }
  }

  lemma NothingYielded(m: Sampler, t: seq<int>)
    requires m.Valid()
    ensures Yields(m, t, [])
  {
  }

  lemma EmptyTape(m: Sampler, t: seq<int>, code: seq<nat>)
    requires m.Valid()
    ensures IsTape(t, 0) && Yields(m, t, code) <==> t == [] && code == []
  {
  }

  /** Their number depends on the length of the code only. */
  lemma {:induction false} TapesCounted(m: Sampler, length: nat, code: seq<nat>)
    requires m.Valid() && IsCode(m, code)
    ensures |Tapes(m, length, code)| == Ways(m, length, |code|)
    decreases length
  {
    hide AfterRange, AfterColumn;
    if length > 0 {
      if code == [] {
        TapesCounted(m, length - 1, []);
        AfterRangeSize(0, Tapes(m, length - 1, []));
      } else {
        var a, b := Tapes(m, length - 1, code), Tapes(m, length - 1, code[1..]);
        TapesCounted(m, length - 1, code);
        TapesCounted(m, length - 1, code[1..]);
        AfterRangeSize(m.Limit(), a);
        AfterColumnSize(m, code[0], m.copies, b);
        forall t | t in AfterRange(m.Limit(), a) ensures t !in AfterColumn(m, code[0], m.copies, b) {
          AfterRangeExact(m.Limit(), a, t);
          AfterColumnExact(m, code[0], m.copies, b, t);
        }
      }
    }
  }

  function Power(b: nat, n: nat): nat { if n == 0 then 1 else b * Power(b, n - 1) }

  lemma {:induction false} WaysExact(m: Sampler, length: nat, n: nat)
    requires m.Valid()
    ensures length < n ==> Ways(m, length, n) == 0
    ensures length == n ==> Ways(m, length, n) == Power(m.copies, n)
  {
    if length > 0 && n > 0 {
      WaysExact(m, length - 1, n);
      WaysExact(m, length - 1, n - 1);
    }
  }

  // ---------------------------------------------------------------- exact uniformity

  function DigitSymbols(text: string): (code: seq<nat>)
    requires AllDigits(text)
  {
    seq(|text|, i requires 0 <= i < |text| => assert text[i] in text; DigitValue(text[i]))
  }

  function ReadableSymbols(text: string): (code: seq<nat>)
    requires AllReadable(text)
  {
    seq(|text|, i requires 0 <= i < |text| => ReadableIndex(text[i]))
  }

  predicate AllReadable(text: string) { forall i :: 0 <= i < |text| ==> IsReadable(text[i]) }

  /** Drawing a text and yielding its symbols are the same. */
  lemma DrawnIs(m: Sampler, letter: nat -> char, tape: seq<int>, text: string, code: seq<nat>)
    requires m.Valid() && |code| == |text|
    requires forall i, x :: 0 <= i < |text| && 0 <= x < m.modulus ==> (letter(x) == text[i] <==> x == code[i])
    ensures Drawn(m, letter, tape, |text|) == Some(text) <==> Yields(m, tape, code)
  {
    var symbols := Accepted(m, tape);
    if |symbols| >= |text| {
      var first := symbols[..|text|];
      forall i | 0 <= i < |text| ensures letter(first[i]) == text[i] <==> first[i] == code[i] {
        assert symbols[i] in symbols;
      }
      if first == code { assert Spell(letter, first) == text; }
      if Spell(letter, first) == text {
        forall i | 0 <= i < |text| ensures first[i] == code[i] { assert Spell(letter, first)[i] == text[i]; }
        assert first == code;
      }
    }
  }

  lemma DrawnSet(m: Sampler, letter: nat -> char, length: nat, text: string, code: seq<nat>)
      returns (tapes: set<seq<int>>)
    requires m.Valid() && |code| == |text| && IsCode(m, code)
    requires forall i, x :: 0 <= i < |text| && 0 <= x < m.modulus ==> (letter(x) == text[i] <==> x == code[i])
    ensures |tapes| == Ways(m, length, |text|)
    ensures length == |text| ==> |tapes| == Power(m.copies, |text|)
    ensures forall t :: t in tapes <==> IsTape(t, length) && Drawn(m, letter, t, |text|) == Some(text)
  {
    hide Drawn, Yields, Tapes, IsTape;
    tapes := Tapes(m, length, code);
    TapesCounted(m, length, code);
    WaysExact(m, length, |text|);
    forall t ensures t in tapes <==> IsTape(t, length) && Drawn(m, letter, t, |text|) == Some(text) {
      TapesExact(m, length, code, t);
      DrawnIs(m, letter, t, text, code);
    }
  }

  /** Every access code is drawn from exactly the same number of random tapes of every length;
      from 25^n of those that are just long enough. */
  lemma AccessCodesUniform(length: nat, text: string) returns (tapes: set<seq<int>>)
    requires AllDigits(text)
    ensures |tapes| == Ways(DIGIT_SAMPLER, length, |text|)
    ensures length == |text| ==> |tapes| == Power(25, |text|)
    ensures forall t :: t in tapes <==>
                          IsTape(t, length) && Drawn(DIGIT_SAMPLER, DigitLetter, t, |text|) == Some(text)
  {
    forall i, x | 0 <= i < |text| && 0 <= x < 10 ensures DigitLetter(x) == text[i] <==> x == DigitSymbols(text)[i] {
      assert text[i] in text;
    }
    tapes := DrawnSet(DIGIT_SAMPLER, DigitLetter, length, text, DigitSymbols(text));
  }

  /** Likewise for every password of twenty readable letters, 8^20 of the shortest tapes each. */
  lemma PasswordsUniform(length: nat, text: string) returns (tapes: set<seq<int>>)
    requires |text| == 20 && AllReadable(text)
    ensures |tapes| == Ways(PASSWORD_SAMPLER, length, 20)
    ensures length == 20 ==> |tapes| == Power(8, 20)
    ensures forall t :: t in tapes <==> IsTape(t, length) && TempPassword(t) == Some(Hyphenated(text))
  {
    hide Drawn, Hyphenated, Ways, Power, IsTape;
    forall i, x | 0 <= i < |text| && 0 <= x < 31
      ensures ReadableLetter(x) == text[i] <==> x == ReadableSymbols(text)[i] {
    }
    tapes := DrawnSet(PASSWORD_SAMPLER, ReadableLetter, length, text, ReadableSymbols(text));
    forall t ensures TempPassword(t) == Some(Hyphenated(text)) <==>
                     Drawn(PASSWORD_SAMPLER, ReadableLetter, t, 20) == Some(text) {
      var drawn := Drawn(PASSWORD_SAMPLER, ReadableLetter, t, 20);
      if drawn.Some? { HyphenatedInjective(drawn.value, text, t); }
    }
  }

  lemma HyphenatedInjective(drawn: string, text: string, t: seq<int>)
    requires Drawn(PASSWORD_SAMPLER, ReadableLetter, t, 20) == Some(drawn) && AllReadable(text)
    ensures Hyphenated(drawn) == Hyphenated(text) <==> drawn == text
  {
    hide Hyphenated;
    forall i | 0 <= i < |drawn| ensures IsReadable(drawn[i]) {}
    HyphensRemoved(drawn);
    HyphensRemoved(text);
  }
}
