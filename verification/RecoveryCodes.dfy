/** src/totp.ts, recovery codes: ten base32 letters of seven random octets, shown as xxxxx-xxxxx. */
module RecoveryCodes {
  import opened Text
  import opened Bits
  import Base32

  function Shown(raw: string): string
    requires |raw| >= 5
  {
    raw[..5] + "-" + raw[5..]
  }

  /** The ten letters behind a code. */
  function Raw(lower: char -> string, random: seq<byte>): (raw: string)
    requires |random| == 7 && LowersAscii(lower)
    ensures |raw| == 10
  {
    TenLetters(lower, random);
    MapCase(lower, Base32.Encoded(random)[..10])
  }

  lemma ShownIs(lower: char -> string, random: seq<byte>)
    requires LowersAscii(lower) && |random| == 7
    ensures |Base32.Encoded(random)| >= 10
    ensures var raw := MapCase(lower, Base32.Encoded(random)[..10]);
      |raw| == 10 && Shown(Raw(lower, random)) == raw[..5] + "-" + raw[5..]
  {
    hide LowersAscii, MapCase;
    TenLetters(lower, random);
  }

  /** Five letters, a hyphen and five letters: the first ten of the text, in lower case. */
  predicate SpelledOut(code: string, encoded: string) {
    && |encoded| >= 10 && |code| == 11 && code[5] == '-'
    && (forall k :: 0 <= k < 5 ==> code[k] == AsciiLower(encoded[k]))
    && (forall k :: 5 <= k < 10 ==> code[k + 1] == AsciiLower(encoded[k]))
  }

  lemma ShownSpelled(lower: char -> string, random: seq<byte>)
    requires LowersAscii(lower) && |random| == 7
    ensures SpelledOut(Shown(Raw(lower, random)), Base32.Encoded(random))
  {
    TenLetters(lower, random);
    Lowered(lower, Base32.Encoded(random)[..10]);
  }

  method GenerateRecoveryCodes(lower: char -> string, random: seq<seq<byte>>) returns (codes: seq<string>)
    requires LowersAscii(lower)
    requires forall r :: r in random ==> |r| == 7
    ensures |codes| == |random|
    ensures forall i :: 0 <= i < |codes| ==> codes[i] == Shown(Raw(lower, random[i]))
    ensures forall i :: 0 <= i < |codes| ==> SpelledOut(codes[i], Base32.Encoded(random[i]))
  {
    hide LowersAscii, MapCase, Shown, Raw, SpelledOut;
    codes := [];
    for i := 0 to |random|
      invariant |codes| == i
      invariant forall j :: 0 <= j < i ==> codes[j] == Shown(Raw(lower, random[j]))
      invariant forall j :: 0 <= j < i ==> SpelledOut(codes[j], Base32.Encoded(random[j]))
    {
      ShownSpelled(lower, random[i]);
      var encoded := Base32.Encode(random[i]);
      TenLetters(lower, random[i]);
      var raw := MapCase(lower, encoded[..10]);
      ShownIs(lower, random[i]);
      codes := codes + [raw[..5] + "-" + raw[5..]];
    }
  }

  predicate IsCodeChar(c: char) { 'a' <= c <= 'z' || '2' <= c <= '7' }

  function NormalizeRecoveryCode(lower: char -> string, code: string): string {
    Without(c => !IsCodeChar(c), MapCase(lower, code))
  }

  lemma {:induction false} LettersPrefix(b: seq<bool>, k: nat)
    requires 5 * k <= |b|
    ensures |Base32.Letters(b)| >= k && Base32.Letters(b)[..k] == Base32.Letters(b[..5 * k])
    decreases k
  {
    if k > 0 {
      LettersPrefix(b[5..], k - 1);
      assert b[5..][..5 * (k - 1)] == b[..5 * k][5..];
      assert b[..5 * k][..5] == b[..5];
      assert Base32.Letters(b[..5 * k]) == [Base32.Letter(b[..5])] + Base32.Letters(b[5..][..5 * (k - 1)]);
    }
  }

  lemma TenLetters(lower: char -> string, random: seq<byte>)
    requires |random| == 7 && LowersAscii(lower)
    ensures |Base32.Encoded(random)| >= 10 && Base32.AllLetters(Base32.Encoded(random)[..10])
    ensures Base32.Encoded(random)[..10] == Base32.Letters(FiftyBits(random))
    ensures |MapCase(lower, Base32.Encoded(random)[..10])| == 10
  {
    BytesToBitsLength(random);
    LettersPrefix(BytesToBits(random), 10);
    Base32.LettersSpell(FiftyBits(random));
    Lowered(lower, Base32.Encoded(random)[..10]);
  }

  function FiftyBits(random: seq<byte>): (b: seq<bool>)
    requires |random| == 7
    ensures |b| == 50
  {
    BytesToBitsLength(random);
    BytesToBits(random)[..50]
  }

  lemma {:induction false} Lowered(lower: char -> string, s: string)
    requires LowersAscii(lower) && Base32.AllLetters(s)
    ensures |MapCase(lower, s)| == |s|
    ensures forall i :: 0 <= i < |s| ==> MapCase(lower, s)[i] == AsciiLower(s[i])
  {
    if s != [] {
      assert lower(s[0]) == [AsciiLower(s[0])];
      Lowered(lower, s[1..]);
    }
  }

  /** Text that is lower case already stays as it is. */
  lemma CodeCharStays(lower: char -> string, c: char)
    requires LowersAscii(lower) && (IsCodeChar(c) || c == '-')
    ensures lower(c) == [c]
  {
    assert lower(c) == [AsciiLower(c)];
  }

  lemma {:induction false} StaysLowered(lower: char -> string, s: string)
    requires LowersAscii(lower)
    requires forall i :: 0 <= i < |s| ==> IsCodeChar(s[i]) || s[i] == '-'
    ensures MapCase(lower, s) == s
  {
    hide LowersAscii, IsCodeChar;
    if s != [] {
      CodeCharStays(lower, s[0]);
      StaysLowered(lower, s[1..]);
      assert [s[0]] + s[1..] == s;
    }
  }

  lemma HyphenDropped(dropped: char -> bool, raw: string)
    requires |raw| >= 5 && dropped('-') && forall c :: c in raw ==> !dropped(c)
    ensures Without(dropped, Shown(raw)) == raw
  {
    WithoutConcat(dropped, raw[..5] + "-", raw[5..]);
    WithoutConcat(dropped, raw[..5], "-");
    WithoutNothing(dropped, raw[..5]);
    WithoutNothing(dropped, raw[5..]);
    assert Without(dropped, "-") == "";
    assert raw[..5] + [] + raw[5..] == raw;
  }

  lemma RawChars(lower: char -> string, random: seq<byte>)
    requires |random| == 7 && LowersAscii(lower)
    ensures forall i :: 0 <= i < 10 ==> IsCodeChar(Raw(lower, random)[i])
  {
    TenLetters(lower, random);
    Lowered(lower, Base32.Encoded(random)[..10]);
  }

  lemma NormalizeShown(lower: char -> string, random: seq<byte>)
    requires |random| == 7 && LowersAscii(lower)
    ensures NormalizeRecoveryCode(lower, Shown(Raw(lower, random))) == Raw(lower, random)
  {
    var raw := Raw(lower, random);
    RawChars(lower, random);
    StaysLowered(lower, Shown(raw));
    HyphenDropped(c => !IsCodeChar(c), raw);
  }

  /** The code with its letters in either case and anything else put in: characters of ASCII that are no
      letter and none of the digits 2 to 7, or white space. */
  ghost predicate TypedAs(t: string, code: string) {
    if t == "" then code == ""
    else if IsIgnored(t[0]) then TypedAs(t[1..], code)
    else
      && code != "" && TypedAs(t[1..], code[1..])
      && (t[0] == code[0] || ('A' <= t[0] <= 'Z' && t[0] as int + 32 == code[0] as int))
  }

  predicate IsIgnored(c: char) {
    (c < '\U{0080}' || IsSpace(c)) && !('a' <= c <= 'z') && !('A' <= c <= 'Z') && !('2' <= c <= '7')
  }

  lemma OneTyped(lower: char -> string, c: char)
    requires LowersAscii(lower) && (IsAscii(c) || IsSpace(c))
    ensures Without(x => !IsCodeChar(x), lower(c)) == if IsCodeChar(AsciiLower(c)) then [AsciiLower(c)] else []
  {
    assert lower(c) == [AsciiLower(c)];
    assert [AsciiLower(c)][1..] == [];
  }

  /** However a code is typed, in capitals, with other punctuation or none, its letters are found. */
  lemma {:induction false} TypedCodeNormalizes(lower: char -> string, t: string, code: string)
    requires LowersAscii(lower) && TypedAs(t, code)
    requires forall i :: 0 <= i < |code| ==> 'a' <= code[i] <= 'z' || '2' <= code[i] <= '7'
    ensures NormalizeRecoveryCode(lower, t) == code
    decreases |t|
  {
    hide LowersAscii, Without;
    var dropped := (c: char) => !IsCodeChar(c);
    if t == "" {
      NothingTyped(lower);
    } else {
      var skipped := IsIgnored(t[0]);
      TypedCodeNormalizes(lower, t[1..], if skipped then code else code[1..]);
      OneTyped(lower, t[0]);
      WithoutConcat(dropped, lower(t[0]), MapCase(lower, t[1..]));
      assert !skipped ==> code == [code[0]] + code[1..];
    }
  }

  lemma NothingTyped(lower: char -> string)
    ensures NormalizeRecoveryCode(lower, "") == ""
  {
  }

  lemma {:induction false} ExactGroups(b: seq<bool>)
    requires |b| % 5 == 0
    ensures GroupsToBits(BitsToGroups(b, 5), 5) == b
    decreases |b|
  {
    if b != [] {
      ExactGroups(b[5..]);
      LowBitsValue(b[..5]);
      assert BitsToGroups(b, 5)[1..] == BitsToGroups(b[5..], 5);
    }
  }

  /** Two codes normalise to the same text exactly when the first fifty random bits agree: the
      slice to ten letters and the hyphen lose nothing else. */
  lemma SameCodeSameBits(lower: char -> string, a: seq<byte>, b: seq<byte>)
    requires |a| == 7 && |b| == 7 && LowersAscii(lower)
    ensures NormalizeRecoveryCode(lower, Shown(Raw(lower, a))) == NormalizeRecoveryCode(lower, Shown(Raw(lower, b)))
       <==> FiftyBits(a) == FiftyBits(b)
  {
    NormalizeShown(lower, a);
    NormalizeShown(lower, b);
    TenLetters(lower, a);
    TenLetters(lower, b);
    if Raw(lower, a) == Raw(lower, b) {
      LoweredInjective(lower, Base32.Encoded(a)[..10], Base32.Encoded(b)[..10]);
      LettersInjective(FiftyBits(a), FiftyBits(b));
    }
  }

  lemma LoweredInjective(lower: char -> string, s: string, t: string)
    requires LowersAscii(lower) && Base32.AllLetters(s) && Base32.AllLetters(t)
    requires MapCase(lower, s) == MapCase(lower, t)
    ensures s == t
  {
    Lowered(lower, s);
    Lowered(lower, t);
    forall i | 0 <= i < |s| ensures s[i] == t[i] {
      assert MapCase(lower, s)[i] == MapCase(lower, t)[i];
    }
  }

  lemma LettersInjective(a: seq<bool>, b: seq<bool>)
    requires |a| % 5 == 0 && |b| % 5 == 0
    requires Base32.Letters(a) == Base32.Letters(b)
    ensures a == b
  {
    Base32.LettersSpell(a);
    Base32.LettersSpell(b);
    ExactGroups(a);
    ExactGroups(b);
  }
}
