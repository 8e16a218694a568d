/** The string vocabulary of ECMAScript that the modelled files share. A string is a
    sequence of Unicode scalar values. */
module Text {

  datatype Option<+T> = None | Some(value: T)

  /** A returned value, or the message of the Error that was thrown. */
  datatype Result<+T> = Ok(value: T) | Err(message: string)

  /** WhiteSpace and LineTerminator of ECMAScript: what `\s` matches and `trim` removes. */
  predicate IsSpace(c: char) {
    || '\U{0009}' <= c <= '\U{000D}'
    || c == ' ' || c == '\U{00A0}' || c == '\U{1680}'
    || '\U{2000}' <= c <= '\U{200A}'
    || c == '\U{2028}' || c == '\U{2029}' || c == '\U{202F}' || c == '\U{205F}'
    || c == '\U{3000}' || c == '\U{FEFF}'
  }

  predicate IsDigit(c: char) { '0' <= c <= '9' }

  predicate IsLetter(c: char) { 'a' <= c <= 'z' || 'A' <= c <= 'Z' }

  /** What `\w` matches. */
  predicate IsWord(c: char) { IsDigit(c) || IsLetter(c) || c == '_' }

  predicate IsAscii(c: char) { c < '\U{0080}' }

  function AsciiUpper(c: char): char {
    if 'a' <= c <= 'z' then (c as int - 32) as char else c
  }

  function AsciiLower(c: char): char {
    if 'A' <= c <= 'Z' then (c as int + 32) as char else c
  }

  /** `toUpperCase` and `toLowerCase` work character by character. White space has no case;
      outside ASCII the rest of the tables is left open. */
  function MapCase(f: char -> string, s: string): string {
    if s == [] then [] else f(s[0]) + MapCase(f, s[1..])
  }

  /** The letters of ASCII in lower case. */
  function AsciiLowered(s: string): string {
    if s == [] then [] else [AsciiLower(s[0])] + AsciiLowered(s[1..])
  }

  lemma {:induction false} LowerAt(name: string)
    ensures |AsciiLowered(name)| == |name|
    ensures forall i :: 0 <= i < |name| ==> AsciiLowered(name)[i] == AsciiLower(name[i])
  {
    if name != [] { LowerAt(name[1..]); }
  }

  /** The word with any of its letters in upper case. */
  predicate InAnyCase(name: string, word: string) {
    |name| == |word| && forall i :: 0 <= i < |word| ==>
      name[i] == word[i] || ('A' <= name[i] <= 'Z' && name[i] as int + 32 == word[i] as int)
  }

  lemma AnyCase(name: string, word: string)
    requires forall i :: 0 <= i < |word| ==> 'a' <= word[i] <= 'z' || word[i] == '_'
    ensures AsciiLowered(name) == word <==> InAnyCase(name, word)
  {
    LowerAt(name);
    if InAnyCase(name, word) { assert AsciiLowered(name) == word; }
  }

  ghost predicate UppersAscii(f: char -> string) {
    forall c :: IsAscii(c) || IsSpace(c) ==> f(c) == [AsciiUpper(c)]
  }

  ghost predicate LowersAscii(f: char -> string) {
    forall c :: IsAscii(c) || IsSpace(c) ==> f(c) == [AsciiLower(c)]
  }

  lemma Grouped(a: string, b: string, c: string)
    ensures a + (b + c) == (a + b) + c
  {
  }

  /** `indexOf` of one character: its first position, or -1. */
  function IndexOf(s: string, c: char): (i: int)
    ensures -1 <= i < |s|
    ensures i >= 0 ==> s[i] == c && c !in s[..i]
    ensures i < 0 <==> c !in s
  {
    if s == [] then -1
    else if s[0] == c then 0
    else
      var i := IndexOf(s[1..], c);
      if i < 0 then -1 else assert s[..i + 1] == [s[0]] + s[1..][..i]; i + 1
  }

  lemma {:induction false} FirstIndex(s: string, c: char, t: string)
    requires c !in s
    ensures IndexOf(s + [c] + t, c) == |s| && IndexOf(s, c) == -1
  {
    if s != [] {
      assert s[0] in s;
      assert (s + [c] + t)[1..] == s[1..] + [c] + t;
      FirstIndex(s[1..], c, t);
    }
  }

  /** Earlier in the order of the characters. */
  predicate Below(a: string, b: string) {
    if a == [] || b == [] then a == [] && b != []
    else a[0] < b[0] || (a[0] == b[0] && Below(a[1..], b[1..]))
  }

  function TrimStart(s: string): (r: string)
  {
    if s != [] && IsSpace(s[0]) then TrimStart(s[1..]) else s
  }

  function TrimEnd(s: string): (r: string)
    ensures r <= s
    ensures r == [] || !IsSpace(r[|r| - 1])
  {
    if s != [] && IsSpace(s[|s| - 1]) then TrimEnd(s[..|s| - 1]) else s
  }

  function Trim(s: string): string { TrimEnd(TrimStart(s)) }

  /** `replace` of every character satisfying `p` by nothing. */
  function Without(p: char -> bool, s: string): (r: string)
    ensures forall c :: c in r ==> !p(c) && c in s
    ensures |r| <= |s|
  {
    if s == [] then [] else if p(s[0]) then Without(p, s[1..]) else [s[0]] + Without(p, s[1..])
  }

  lemma {:induction false} WithoutNothing(p: char -> bool, s: string)
    requires forall c :: c in s ==> !p(c)
    ensures Without(p, s) == s
  {
    if s != [] {
      assert s[0] in s;
      WithoutNothing(p, s[1..]);
    }
  }

  lemma {:induction false} AllRemoved(p: char -> bool, s: string)
    requires forall c :: c in s ==> p(c)
    ensures Without(p, s) == ""
  {
    if s != [] { AllRemoved(p, s[1..]); }
  }

  lemma {:induction false} WithoutConcat(p: char -> bool, s: string, t: string)
    ensures Without(p, s + t) == Without(p, s) + Without(p, t)
  {
    if s == [] {
      assert s + t == t;
    } else {
      assert (s + t)[1..] == s[1..] + t;
      WithoutConcat(p, s[1..], t);
    }
  }

  /** t is s with characters satisfying `p` put in anywhere. */
  ghost predicate Interspersed(p: char -> bool, t: string, s: string) {
    if t == [] then s == []
    else if p(t[0]) then Interspersed(p, t[1..], s)
    else s != [] && t[0] == s[0] && Interspersed(p, t[1..], s[1..])
  }

  lemma {:induction false} WithoutInterspersed(p: char -> bool, q: char -> bool, t: string, s: string)
    requires Interspersed(p, t, s) && forall c :: p(c) == q(c)
    ensures Without(q, t) == s
  {
    if t != [] {
      WithoutInterspersed(p, q, t[1..], if p(t[0]) then s else s[1..]);
      assert !p(t[0]) ==> s == [s[0]] + s[1..];
    }
  }

  /** `split` at one character. */
  function Split(s: string, sep: char): (parts: seq<string>)
  {
    if s == [] then [[]]
    else
      var parts := Split(s[1..], sep);
      if s[0] == sep then [[]] + parts
      else
        var first := [s[0]] + parts[0];
        assert parts[0] in parts;
        assert forall p :: p in parts[1..] ==> p in parts;
        [first] + parts[1..]
  }

  lemma {:induction false} SplitConcat(s: string, sep: char, t: string)
    ensures Split(s + [sep] + t, sep) == Split(s, sep) + Split(t, sep)
  {
    var whole := s + [sep] + t;
    if s == [] {
      assert whole[1..] == t;
    } else {
      SplitConcat(s[1..], sep, t);
      assert whole[1..] == s[1..] + [sep] + t;
      SplitPrepend(s[0], Split(s[1..], sep), Split(t, sep), sep);
    }
  }

  lemma SplitPrepend(c: char, parts: seq<string>, more: seq<string>, sep: char)
    requires |parts| > 0
    ensures [[c] + (parts + more)[0]] + (parts + more)[1..] == ([[c] + parts[0]] + parts[1..]) + more
    ensures [[]] + (parts + more) == ([[]] + parts) + more
  {
  }

  lemma {:induction false} SplitSingle(s: string, sep: char)
    requires sep !in s
    ensures Split(s, sep) == [s]
  {
    if s != [] {
      SplitSingle(s[1..], sep);
      assert s[0] in s;
      assert [s[0]] + s[1..] == s;
    }
  }

  /** Trimming removes padding around a text that has none of its own. */
  lemma TrimPadded(left: string, s: string, right: string)
    requires forall c :: c in left + right ==> IsSpace(c)
    requires s != [] ==> !IsSpace(s[0]) && !IsSpace(s[|s| - 1])
    ensures Trim(left + s + right) == s
  {
    TrimStartPadded(left, s + right);
    assert left + s + right == left + (s + right);
    TrimEndPadded(s, right);
    if s == [] {
      assert s + right == right;
      assert right == right + [];
      TrimStartPadded(right, []);
    }
  }

  lemma {:induction false} TrimStartPadded(left: string, s: string)
    requires forall c :: c in left ==> IsSpace(c)
    ensures TrimStart(left + s) == TrimStart(s)
  {
    if left == [] {
      assert left + s == s;
    } else {
      assert left[0] in left;
      assert (left + s)[1..] == left[1..] + s;
      TrimStartPadded(left[1..], s);
    }
  }

  lemma {:induction false} TrimEndPadded(s: string, right: string)
    requires forall c :: c in right ==> IsSpace(c)
    ensures TrimEnd(s + right) == TrimEnd(s)
  {
    hide IsSpace;
    if right == [] {
      assert s + right == s;
    } else {
      var k := |right| - 1;
      var t := s + right;
      assert t[|t| - 1] == right[k] && right[k] in right;
      assert t[..|t| - 1] == s + right[..k];
      TrimEndPadded(s, right[..k]);
    }
  }

  // ---------------------------------------------------------------- decimal numerals

  function DigitChar(d: nat): (c: char)
    requires d < 10
  {
    ('0' as int + d) as char
  }

  function DigitValue(c: char): (d: nat)
    requires IsDigit(c)
    ensures d < 10
  {
    c as int - '0' as int
  }

  predicate AllDigits(s: string) { forall c :: c in s ==> IsDigit(c) }

  /** `String(n)` for an integer n below 10^21. */
  function Decimal(n: nat): (s: string)
    ensures s != [] && AllDigits(s)
  {
    if n < 10 then [DigitChar(n)] else Decimal(n / 10) + [DigitChar(n % 10)]
  }

  /** `Number(s)` for a numeral without a point. */
  function NumberOf(s: string): nat
    requires AllDigits(s)
  {
    if s == [] then 0
    else
      assert s[|s| - 1] in s;
      10 * NumberOf(s[..|s| - 1]) + DigitValue(s[|s| - 1])
  }

  lemma NumberOfOne(c: char)
    requires IsDigit(c)
    ensures AllDigits([c]) && NumberOf([c]) == DigitValue(c) && NumberOf("") == 0
  {
    assert [c][..0] == [];
  }

  lemma {:induction false} NumberOfDecimal(n: nat)
    ensures NumberOf(Decimal(n)) == n
  {
    if n >= 10 {
      NumberOfDecimal(n / 10);
      assert Decimal(n)[..|Decimal(n)| - 1] == Decimal(n / 10);
    }
  }

  lemma {:induction false} NumberOfConcat(s: string, t: string)
    requires AllDigits(s) && AllDigits(t)
    ensures AllDigits(s + t)
    ensures NumberOf(s + t) == NumberOf(s) * Pow10(|t|) + NumberOf(t)
  {
    hide Pow10;
    if t == [] {
      assert s + t == s;
      NoPlaces();
    } else {
      var k := |t| - 1;
      assert t[k] in t;
      assert forall c :: c in t[..k] ==> c in t;
      NumberOfConcat(s, t[..k]);
      assert (s + t)[..|s| + k] == s + t[..k] && (s + t)[|s| + k] == t[k];
      Tenfold(NumberOf(s), k);
    }
  }

  lemma NoPlaces()
    ensures Pow10(0) == 1
  {
  }

  lemma Tenfold(n: nat, k: nat)
    ensures 10 * (n * Pow10(k)) == n * Pow10(k + 1)
  {
  }

  function Pow10(k: nat): (p: nat)
    ensures p > 0
  {
    if k == 0 then 1 else 10 * Pow10(k - 1)
  }
}
