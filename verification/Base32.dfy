/** src/totp.ts, base32: two loops over an accumulator that is never masked and wraps as a
    32-bit integer, against the bit-string definition of RFC 4648, section 6, without padding. */
module Base32 {
  import opened Text
  import opened Bits

  /** The base32 letter of a 5-bit group, by the table of RFC 4648. */
  function LetterAt(i: nat): (c: char)
    requires i < 32
  {
    if i < 26 then ('A' as int + i) as char else ('2' as int + i - 26) as char
  }

  predicate InAlphabet(c: char) { 'A' <= c <= 'Z' || '2' <= c <= '7' }

  function Digit(c: char): (d: nat)
    requires InAlphabet(c)
    ensures d < 32
  {
    if 'A' <= c then c as int - 'A' as int else c as int - '2' as int + 26
  }

  predicate AllLetters(s: string) { forall i :: 0 <= i < |s| ==> InAlphabet(s[i]) }

  /** The source's constant, spelled out by AlphabetSpelled. */
  function Alphabet(): string {
    seq(32, i requires 0 <= i < 32 => LetterAt(i))
  }

  lemma AlphabetSpelled()
    ensures Alphabet() == "ABCDEFGHIJKLMNOPQRSTUVWXYZ234567"
  {
  }

  lemma IndexInAlphabet(c: char)
    ensures IndexOf(Alphabet(), c) == if InAlphabet(c) then Digit(c) else -1
  {
    if InAlphabet(c) { assert Alphabet()[Digit(c)] == c; }
    var k := IndexOf(Alphabet(), c);
    if k >= 0 { assert Alphabet()[k] == LetterAt(k); }
  }

  /** `ALPHABET.indexOf(c)`. */
  function AlphabetIndex(c: char): (i: int)
    ensures i == if InAlphabet(c) then Digit(c) else -1
  {
    IndexInAlphabet(c);
    IndexOf(Alphabet(), c)
  }

  /** The text of a bit string: the letter of each 5-bit group, the last one zero-filled. */
  function Letters(b: seq<bool>): string {
    if b == [] then []
    else if |b| < 5 then [Letter(b + Zeros(5 - |b|))]
    else [Letter(b[..5])] + Letters(b[5..])
  }

  function Letter(group: seq<bool>): (c: char)
    requires |group| == 5
    ensures InAlphabet(c) && Digit(c) == Value(group)
  {
    ValueBound(group);
    Pow2Values();
    LetterAt(Value(group))
  }

  function Encoded(buf: seq<byte>): string { Letters(BytesToBits(buf)) }

  /** The bits a text of base32 letters spells. */
  function Spelled(s: string): seq<bool>
    requires AllLetters(s)
  {
    if s == [] then [] else LowBits(Digit(s[0]), 5) + Spelled(s[1..])
  }

  predicate IsFiller(c: char) { c == '=' || IsSpace(c) || c == '-' }

  function Cleaned(upper: char -> string, str: string): string {
    Without(IsFiller, MapCase(upper, str))
  }

  function Decoded(clean: string): Result<seq<byte>> {
    if AllLetters(clean) then Ok(BitsToBytes(Spelled(clean))) else Err("invalid base32")
  }

  // ---------------------------------------------------------------- encoding

  method Encode(buf: seq<byte>) returns (out: string)
    ensures out == Encoded(buf)
  {
    hide Letters, BytesToBits, LowBits, ToUint32, Letter, Shl, Or, And, UShr;
    var bits: nat, value: int32 := 0, 0;
    out := "";
    ghost var live: seq<bool> := [];
    NothingLive(value);
    assert live + BytesToBits(buf) == BytesToBits(buf) && buf[0..] == buf;
    assert out + Letters(BytesToBits(buf)) == Letters(BytesToBits(buf));
    for i := 0 to |buf|
      invariant bits <= 4 && live == LowBits(ToUint32(value), bits)
      invariant out + Letters(live + BytesToBits(buf[i..])) == Encoded(buf)
    {
      ghost var rest := BytesToBits(buf[i + 1..]);
      NextOctet(buf, i, live);
      OctetIn(value, bits, buf[i]);
      live := live + LowBits(buf[i], 8);
      value := Or(Shl(value, 8), buf[i]);
      bits := bits + 8;
      while bits >= 5
        invariant bits <= 12 && live == LowBits(ToUint32(value), bits)
        invariant out + Letters(live + rest) == Encoded(buf)
      {
        OldestGroup(value, bits);
        LettersStep(live, rest);
        assert out + ([Letter(live[..5])] + Letters(live[5..] + rest)) == out + [Letter(live[..5])] + Letters(live[5..] + rest);
        out := out + [Alphabet()[And(UShr(value, bits - 5), 31)]];
        bits := bits - 5;
        live := live[5..];
      }
    }
    NoMoreOctets(buf, live);
    if bits > 0 {
      LastGroup(value, bits);
      out := out + [Alphabet()[And(Shl(value, 5 - bits), 31)]];
    }
  }

  lemma NothingLive(value: int32)
    ensures LowBits(ToUint32(value), 0) == []
  {
  }

  lemma NextOctet(buf: seq<byte>, i: nat, live: seq<bool>)
    requires i < |buf|
    ensures live + BytesToBits(buf[i..]) == (live + LowBits(buf[i], 8)) + BytesToBits(buf[i + 1..])
  {
    hide LowBits;
    assert buf[i..][1..] == buf[i + 1..];
    assert live + (LowBits(buf[i], 8) + BytesToBits(buf[i + 1..])) == (live + LowBits(buf[i], 8)) + BytesToBits(buf[i + 1..]);
  }

  lemma NoMoreOctets(buf: seq<byte>, live: seq<bool>)
    ensures live + BytesToBits(buf[|buf|..]) == live && Letters([]) == []
  {
  }

  lemma OctetIn(value: int32, bits: nat, x: byte)
    requires bits <= 24
    ensures LowBits(ToUint32(Or(Shl(value, 8), x)), bits + 8) == LowBits(ToUint32(value), bits) + LowBits(x, 8)
  {
    Pow2Values();
    ShiftIn(value, bits, 8, x);
  }

  lemma OldestGroup(value: int32, bits: nat)
    requires 5 <= bits <= 31
    ensures 0 <= And(UShr(value, bits - 5), 31) < 32
    ensures Alphabet()[And(UShr(value, bits - 5), 31)] == Letter(LowBits(ToUint32(value), bits)[..5])
    ensures LowBits(ToUint32(value), bits)[5..] == LowBits(ToUint32(value), bits - 5)
  {
    Pow2Values();
    ShiftOut(value, bits, 5);
    ValueBound(LowBits(ToUint32(value), bits)[..5]);
  }

  lemma LastGroup(value: int32, bits: nat)
    requires 0 < bits < 5
    ensures 0 <= And(Shl(value, 5 - bits), 31) < 32
    ensures [Alphabet()[And(Shl(value, 5 - bits), 31)]] == Letters(LowBits(ToUint32(value), bits))
  {
    Pow2Values();
    ShiftOutPadded(value, bits, 5 - bits);
    ValueBound(LowBits(ToUint32(value), bits) + Zeros(5 - bits));
  }

  lemma LettersStep(live: seq<bool>, rest: seq<bool>)
    requires |live| >= 5
    ensures Letters(live + rest) == [Letter(live[..5])] + Letters(live[5..] + rest)
  {
    assert (live + rest)[..5] == live[..5];
    assert (live + rest)[5..] == live[5..] + rest;
  }

  // ---------------------------------------------------------------- decoding

  method Decode(upper: char -> string, str: string) returns (r: Result<seq<byte>>)
    ensures r == Decoded(Cleaned(upper, str))
  {
    hide Spelled, BitsToBytes, LowBits, ToUint32, Shl, Or, And, UShr, Pending, MapCase, InAlphabet, Digit, OctetValue,
      IsFiller, AlphabetIndex, Without;
    var clean := Without(IsFiller, MapCase(upper, str));
    var bits: nat, value: int32 := 0, 0;
    var out: seq<byte> := [];
    ghost var live: seq<bool> := [];
    NothingLive(value);
    PendingFirst(clean);
    for i := 0 to |clean|
      invariant bits <= 7 && live == LowBits(ToUint32(value), bits)
      invariant forall j :: 0 <= j < i ==> InAlphabet(clean[j])
      invariant Pending(out, live, clean, i)
    {
      var idx := AlphabetIndex(clean[i]);
      if idx < 0 {
        return Err("invalid base32");
      }
      GroupIn(value, bits, idx);
      GroupStep(out, live, clean, i);
      live := live + LowBits(idx, 5);
      value := Or(Shl(value, 5), idx);
      bits := bits + 5;
      if bits >= 8 {
        OldestOctet(value, bits);
        OctetStep(out, live, clean, i + 1);
        out := out + [And(UShr(value, bits - 8), 255)];
        bits := bits - 8;
        live := live[8..];
      }
    }
    PendingLast(out, live, clean);
    r := Ok(out);
  }

  lemma PendingFirst(clean: string)
    ensures Pending([], [], clean, 0)
  {
    assert clean[0..] == clean;
    if AllLetters(clean) { assert [] + Spelled(clean) == Spelled(clean); }
  }

  lemma PendingLast(out: seq<byte>, live: seq<bool>, clean: string)
    requires Pending(out, live, clean, |clean|) && |live| < 8 && AllLetters(clean)
    ensures out == BitsToBytes(Spelled(clean))
  {
    assert live + Spelled(clean[|clean|..]) == live;
    assert out + BitsToBytes(live) == out;
  }

  /** What has been put out, the live bits and the letters still to come make up the whole answer. */
  ghost predicate Pending(out: seq<byte>, live: seq<bool>, clean: string, i: nat)
    requires i <= |clean|
  {
    AllLetters(clean) ==> out + BitsToBytes(live + Spelled(clean[i..])) == BitsToBytes(Spelled(clean))
  }

  lemma GroupStep(out: seq<byte>, live: seq<bool>, clean: string, i: nat)
    requires i < |clean| && InAlphabet(clean[i]) && Pending(out, live, clean, i)
    ensures Pending(out, live + LowBits(Digit(clean[i]), 5), clean, i + 1)
  {
    if AllLetters(clean) {
      assert clean[i..][1..] == clean[i + 1..];
      var d, rest := LowBits(Digit(clean[i]), 5), Spelled(clean[i + 1..]);
      assert Spelled(clean[i..]) == d + rest;
      assert live + (d + rest) == (live + d) + rest;
    }
  }

  lemma OctetStep(out: seq<byte>, live: seq<bool>, clean: string, i: nat)
    requires i <= |clean| && |live| >= 8 && Pending(out, live, clean, i)
    ensures Pending(out + [OctetValue(live[..8])], live[8..], clean, i)
  {
    if AllLetters(clean) {
      var b := live + Spelled(clean[i..]);
      assert b[..8] == live[..8];
      assert b[8..] == live[8..] + Spelled(clean[i..]);
    }
  }

  lemma GroupIn(value: int32, bits: nat, x: nat)
    requires bits <= 24 && x < 32
    ensures LowBits(ToUint32(Or(Shl(value, 5), x)), bits + 5) == LowBits(ToUint32(value), bits) + LowBits(x, 5)
  {
    Pow2Values();
    ShiftIn(value, bits, 5, x);
  }

  lemma OldestOctet(value: int32, bits: nat)
    requires 8 <= bits <= 31
    ensures 0 <= And(UShr(value, bits - 8), 255) < 256
    ensures And(UShr(value, bits - 8), 255) == OctetValue(LowBits(ToUint32(value), bits)[..8])
    ensures LowBits(ToUint32(value), bits)[8..] == LowBits(ToUint32(value), bits - 8)
  {
    Pow2Values();
    ShiftOut(value, bits, 8);
    ValueBound(LowBits(ToUint32(value), bits)[..8]);
  }

  // ---------------------------------------------------------------- the two loops undo each other

  /** `t` is `s` with letters put in either case and fillers put anywhere. */
  ghost predicate Disguises(t: string, s: string) {
    if t == [] then s == []
    else if IsFiller(t[0]) then Disguises(t[1..], s)
    else s != [] && (t[0] == s[0] || t[0] == AsciiLower(s[0])) && Disguises(t[1..], s[1..])
  }

  lemma {:induction false} CleanedDisguise(upper: char -> string, t: string, s: string)
    requires UppersAscii(upper)
    requires Disguises(t, s) && AllLetters(s)
    ensures Cleaned(upper, t) == s
    decreases |t|
  {
    hide UppersAscii, Disguises, AllLetters, Without;
    DisguiseHead(t, s);
    if t == [] {
      NothingCleaned(upper);
    } else {
      var filler := IsFiller(t[0]);
      CleanedDisguise(upper, t[1..], if filler then s else s[1..]);
      UpperLetter(upper, t[0], if filler then t[0] else s[0]);
      WithoutConcat(IsFiller, upper(t[0]), MapCase(upper, t[1..]));
    }
  }

  lemma NothingCleaned(upper: char -> string)
    ensures Cleaned(upper, "") == ""
  {
  }

  lemma DisguiseHead(t: string, s: string)
    requires Disguises(t, s) && AllLetters(s)
    ensures t == [] ==> s == []
    ensures t != [] && IsFiller(t[0]) ==> Disguises(t[1..], s)
    ensures t != [] && !IsFiller(t[0]) ==>
      && s != [] && s == [s[0]] + s[1..] && InAlphabet(s[0]) && (t[0] == s[0] || t[0] == AsciiLower(s[0]))
      && Disguises(t[1..], s[1..]) && AllLetters(s[1..])
  {
  }

  lemma UpperLetter(upper: char -> string, typed: char, c: char)
    requires UppersAscii(upper)
    requires (IsFiller(c) && typed == c) || (InAlphabet(c) && (typed == c || typed == AsciiLower(c)))
    ensures upper(typed) == [c]
    ensures Without(IsFiller, upper(typed)) == if IsFiller(c) then [] else [c]
  {
    assert AsciiUpper(typed) == c;
    assert Without(IsFiller, [c]) == if IsFiller(c) then [] else [c];
  }

  lemma {:induction false} LettersSpell(b: seq<bool>)
    ensures AllLetters(Letters(b))
    ensures Spelled(Letters(b)) == GroupsToBits(BitsToGroups(b, 5), 5)
    decreases |b|
  {
    if |b| >= 5 {
      LettersSpell(b[5..]);
      assert Letters(b)[1..] == Letters(b[5..]);
    }
  }

  /** Decoding gives back the bytes whatever case the letters are in and wherever `=`, white
      space and `-` were added. */
  lemma DecodeInvertsEncode(upper: char -> string, buf: seq<byte>, typed: string)
    requires UppersAscii(upper)
    requires Disguises(typed, Encoded(buf))
    ensures Decoded(Cleaned(upper, typed)) == Ok(buf)
  {
    LettersSpell(BytesToBits(buf));
    CleanedDisguise(upper, typed, Encoded(buf));
    RegroupingInverts(buf, 5);
  }

  // ---------------------------------------------------------------- base32 as a change of base

  lemma {:induction false} LettersAre(b: seq<bool>)
    ensures var g := BitsToGroups(b, 5);
      |Letters(b)| == |g| && forall k :: 0 <= k < |g| ==> g[k] < 32 && Letters(b)[k] == LetterAt(g[k])
    decreases |b|
  {
    hide Value;
    Pow2Values();
    if |b| >= 5 {
      LettersAre(b[5..]);
      ValueBound(b[..5]);
    } else if b != [] {
      ValueBound(b + Zeros(5 - |b|));
    }
  }

  /** The encoded text writes the octets, as one number filled up to whole letters with zeros on the
      right, in base 32 with these letters for digits. */
  lemma EncodedIsNumber(buf: seq<byte>) returns (digits: seq<nat>)
    ensures |Encoded(buf)| == |digits| && 0 <= 5 * |digits| - 8 * |buf| < 5
    ensures forall k :: 0 <= k < |digits| ==>
      digits[k] < 32 && Encoded(buf)[k] == "ABCDEFGHIJKLMNOPQRSTUVWXYZ234567"[digits[k]]
    ensures Number(32, digits) == Number(256, buf) * Pow2(5 * |digits| - 8 * |buf|)
  {
    hide Number, Letters, BytesToBits, Pow2;
    Pow2Values();
    AlphabetSpelled();
    digits := EncodeGroups(buf, 5);
    LettersAre(BytesToBits(buf));
    ChangeOfBase(buf, 5);
    forall k | 0 <= k < |digits| ensures Encoded(buf)[k] == "ABCDEFGHIJKLMNOPQRSTUVWXYZ234567"[digits[k]] {
      assert Alphabet()[digits[k]] == LetterAt(digits[k]);
    }
  }

  lemma {:induction false} SpelledGroups(s: string, digits: seq<nat>)
    requires |digits| == |s| && forall k :: 0 <= k < |s| ==> digits[k] < 32 && s[k] == LetterAt(digits[k])
    ensures AllLetters(s) && Spelled(s) == GroupsToBits(digits, 5)
  {
    hide LowBits;
    forall k | 0 <= k < |s| ensures InAlphabet(s[k]) && Digit(s[k]) == digits[k] {}
    if s != "" { SpelledGroups(s[1..], digits[1..]); }
  }

  /** Any text of these letters decodes to the whole octets of that number; the bits left over go. */
  lemma DecodedIsNumber(clean: string, digits: seq<nat>)
    requires |digits| == |clean|
    requires forall k :: 0 <= k < |clean| ==> digits[k] < 32 && clean[k] == "ABCDEFGHIJKLMNOPQRSTUVWXYZ234567"[digits[k]]
    ensures Decoded(clean).Ok?
    ensures var out := Decoded(clean).value;
      |out| == 5 * |clean| / 8 && Number(256, out) == Number(32, digits) / Pow2(5 * |clean| % 8)
  {
    hide Number, Pow2, Spelled;
    Pow2Values();
    AlphabetSpelled();
    forall k | 0 <= k < |clean| ensures clean[k] == LetterAt(digits[k]) { assert Alphabet()[digits[k]] == LetterAt(digits[k]); }
    SpelledGroups(clean, digits);
    BaseChanged(digits, 5);
  }

  /** It throws exactly when there is any other character. */
  lemma DecodedThrows(clean: string)
    ensures Decoded(clean).Err? <==> exists c :: c in clean && c !in "ABCDEFGHIJKLMNOPQRSTUVWXYZ234567"
  {
    AlphabetSpelled();
    forall c ensures InAlphabet(c) <==> c in "ABCDEFGHIJKLMNOPQRSTUVWXYZ234567" { IndexInAlphabet(c); }
  }
}
