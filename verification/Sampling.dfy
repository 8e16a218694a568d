/** src/crypto.ts: access codes and temporary passwords drawn by rejection sampling over batches of
    random octets. The random source is the list of batches it hands out; None stands for a loop
    that has used them up and would ask for another. */
module Sampling {
  import opened Text
  import opened Bits

  /** Octets below modulus * copies are accepted and stand for their residue. */
  datatype Sampler = Sampler(modulus: nat, copies: nat) {
    predicate Valid() { modulus > 0 && modulus * copies <= 256 }

    function Limit(): nat { modulus * copies }
  }

  const DIGIT_SAMPLER := Sampler(10, 25)
  const PASSWORD_SAMPLER := Sampler(31, 8)

  /** The accepted octets of a stream, as symbols. */
  function Accepted(m: Sampler, tape: seq<int>): (symbols: seq<nat>)
    requires m.Valid()
    ensures forall x :: x in symbols ==> x < m.modulus
  {
    if tape == [] then []
    else (if tape[0] < m.Limit() then [tape[0] % m.modulus] else []) + Accepted(m, tape[1..])
  }

  function Flatten(batches: seq<seq<byte>>): seq<byte> {
    if batches == [] then [] else batches[0] + Flatten(batches[1..])
  }

  function Take<T>(s: seq<T>, n: nat): (r: seq<T>)
  {
    if |s| < n then s else s[..n]
  }

  function Spell(letter: nat -> char, symbols: seq<nat>): (s: string)
    ensures |s| == |symbols|
    ensures forall i :: 0 <= i < |s| ==> s[i] == letter(symbols[i])
  {
    seq(|symbols|, i requires 0 <= i < |symbols| => letter(symbols[i]))
  }

  /** The letters of the first n accepted octets, when there are that many. */
  function Drawn(m: Sampler, letter: nat -> char, tape: seq<int>, n: nat): Option<string>
    requires m.Valid()
  {
    if |Accepted(m, tape)| < n then None else Some(Spell(letter, Accepted(m, tape)[..n]))
  }

  /** What a loop has put out after reading `seen`. */
  ghost predicate Progress(m: Sampler, letter: nat -> char, seen: seq<int>, n: nat, out: string)
    requires m.Valid()
  {
    out == Spell(letter, Take(Accepted(m, seen), n))
  }

  lemma ProgressStep(m: Sampler, letter: nat -> char, seen: seq<int>, n: nat, out: string, b: int)
    requires m.Valid() && Progress(m, letter, seen, n, out)
    ensures Progress(m, letter, seen + [b], n,
                     if b < m.Limit() && |out| < n then out + [letter(b % m.modulus)] else out)
  {
    AcceptedNext(m, seen, b);
    var symbols := Accepted(m, seen);
    assert symbols + [] == symbols;
    if b < m.Limit() {
    }
  }

  lemma ProgressStart(m: Sampler, letter: nat -> char, n: nat)
    requires m.Valid()
    ensures Progress(m, letter, [], n, "")
  {
  }

  lemma ProgressDone(m: Sampler, letter: nat -> char, seen: seq<int>, n: nat, out: string, tape: seq<int>)
    requires m.Valid() && Progress(m, letter, seen, n, out) && seen <= tape
    requires |out| == n || (|out| < n && seen == tape)
    ensures Drawn(m, letter, tape, n) == if |out| == n then Some(out) else None
  {
    var rest := tape[|seen|..];
    assert seen + rest == tape;
    AcceptedConcat(m, seen, rest);
    if |out| == n { assert Accepted(m, tape)[..n] == Accepted(m, seen)[..n]; }
  }

  lemma {:induction false} AcceptedConcat(m: Sampler, s: seq<int>, t: seq<int>)
    requires m.Valid()
    ensures Accepted(m, s + t) == Accepted(m, s) + Accepted(m, t)
  {
    if s == [] {
      assert s + t == t;
    } else {
      assert (s + t)[1..] == s[1..] + t;
      AcceptedConcat(m, s[1..], t);
    }
  }

  lemma AcceptedNext(m: Sampler, s: seq<int>, b: int)
    requires m.Valid()
    ensures Accepted(m, s + [b]) == Accepted(m, s) + (if b < m.Limit() then [b % m.modulus] else [])
  {
    AcceptedConcat(m, s, [b]);
  }

  lemma {:induction false} FlattenNext(batches: seq<seq<byte>>, k: nat)
    requires k < |batches|
    ensures Flatten(batches[..k + 1]) == Flatten(batches[..k]) + batches[k]
  {
    if k == 0 {
      assert batches[..1][1..] == [];
    } else {
      FlattenNext(batches[1..], k - 1);
      assert batches[..k + 1][1..] == batches[1..][..k] && batches[..k][1..] == batches[1..][..k - 1];
    }
  }

  lemma {:induction false} FlattenPrefix(batches: seq<seq<byte>>, k: nat)
    requires k <= |batches|
    ensures Flatten(batches) == Flatten(batches[..k]) + Flatten(batches[k..])
    decreases |batches| - k
  {
    if k == |batches| {
      assert batches[..k] == batches && batches[k..] == [];
    } else {
      FlattenPrefix(batches, k + 1);
      FlattenNext(batches, k);
      assert batches[k..][1..] == batches[k + 1..];
    }
  }

  lemma BatchRead(batches: seq<seq<byte>>, k: nat)
    requires k < |batches|
    ensures Flatten(batches[..k + 1]) == Flatten(batches[..k]) + batches[k] <= Flatten(batches)
  {
    FlattenNext(batches, k);
    FlattenPrefix(batches, k + 1);
  }

  lemma NothingRead(batches: seq<seq<byte>>)
    ensures Flatten(batches[..0]) == []
  {
  }

  lemma SliceNext(before: seq<int>, batch: seq<int>, j: nat)
    requires j < |batch|
    ensures before + batch[..j + 1] == (before + batch[..j]) + [batch[j]]
  {
  }

  // ---------------------------------------------------------------- access codes

  /** `String(x)` of a symbol. */
  function DigitLetter(x: nat): char { DigitChar(x % 10) }

  method NewAccessCode(digits: nat, batches: seq<seq<byte>>) returns (code: Option<string>)
    requires forall b :: b in batches ==> |b| == digits
    ensures code == Drawn(DIGIT_SAMPLER, DigitLetter, Flatten(batches), digits)
  {
    hide Progress, Accepted, Flatten, Drawn, DigitLetter;
    var out := "";
    var k := 0;
    ghost var seen: seq<byte> := [];
    NothingRead(batches);
    ProgressStart(DIGIT_SAMPLER, DigitLetter, digits);
    while |out| < digits && k < |batches|
      invariant k <= |batches| && |out| <= digits
      invariant |out| < digits ==> seen == Flatten(batches[..k])
      invariant seen <= Flatten(batches)
      invariant Progress(DIGIT_SAMPLER, DigitLetter, seen, digits, out)
      decreases |batches| - k
    {
      var batch := batches[k];
      ghost var before := seen;
      BatchRead(batches, k);
      var j := 0;
      while j < |batch|
        invariant j <= |batch| && |out| < digits
        invariant seen == before + batch[..j]
        invariant Progress(DIGIT_SAMPLER, DigitLetter, seen, digits, out)
      {
        var b := batch[j];
        ProgressStep(DIGIT_SAMPLER, DigitLetter, seen, digits, out, b);
        seen := seen + [b];
        SliceNext(before, batch, j);
        j := j + 1;
        if b >= 250 { continue; }
        out := out + [DigitLetter(b % 10)];
        if |out| == digits { break; }
      }
      k := k + 1;
    }
    assert batches[..|batches|] == batches;
    ProgressDone(DIGIT_SAMPLER, DigitLetter, seen, digits, out, Flatten(batches));
    code := if |out| == digits then Some(out) else None;
  }

  /** The symbols a stream has given so far: nothing at first, then the residue of each accepted octet. */
  lemma AcceptedSpelled(tape: seq<int>, b: int)
    ensures Accepted(DIGIT_SAMPLER, []) == [] && Accepted(PASSWORD_SAMPLER, []) == []
    ensures Accepted(DIGIT_SAMPLER, tape + [b]) == Accepted(DIGIT_SAMPLER, tape) + if b < 250 then [b % 10] else []
    ensures Accepted(PASSWORD_SAMPLER, tape + [b]) == Accepted(PASSWORD_SAMPLER, tape) + if b < 248 then [b % 31] else []
  {
    AcceptedNext(DIGIT_SAMPLER, tape, b);
    AcceptedNext(PASSWORD_SAMPLER, tape, b);
  }

  /** An access code shows the first n of them as digits; there is none as long as there are fewer. */
  lemma AccessCodeSpelled(tape: seq<int>, n: nat)
    ensures var symbols := Accepted(DIGIT_SAMPLER, tape);
      match Drawn(DIGIT_SAMPLER, DigitLetter, tape, n)
      case None => |symbols| < n
      case Some(code) =>
        |code| == n <= |symbols| && forall i :: 0 <= i < n ==> symbols[i] < 10 && code[i] == "0123456789"[symbols[i]]
  {
    hide Accepted;
    var symbols := Accepted(DIGIT_SAMPLER, tape);
    forall i | 0 <= i < |symbols| ensures symbols[i] < 10 && DigitLetter(symbols[i]) == "0123456789"[symbols[i]] {
      assert symbols[i] in symbols;
    }
  }

  // ---------------------------------------------------------------- temporary passwords

  /** The source's constant, spelled out by ReadableAlphabet: no 0, o, 1, i or l. */
  function ReadableLetter(x: nat): (c: char)
  {
    var i := x % 31;
    if i < 8 then ('a' as int + i) as char
    else if i < 10 then ('j' as int + i - 8) as char
    else if i < 12 then ('m' as int + i - 10) as char
    else if i < 23 then ('p' as int + i - 12) as char
    else ('2' as int + i - 23) as char
  }

  predicate IsReadable(c: char) {
    'a' <= c <= 'h' || c == 'j' || c == 'k' || c == 'm' || c == 'n' || 'p' <= c <= 'z' || '2' <= c <= '9'
  }

  function ReadableIndex(c: char): (i: nat)
    requires IsReadable(c)
  {
    if 'a' <= c <= 'h' then c as int - 'a' as int
    else if c == 'j' || c == 'k' then c as int - 'j' as int + 8
    else if c == 'm' || c == 'n' then c as int - 'm' as int + 10
    else if 'p' <= c <= 'z' then c as int - 'p' as int + 12
    else c as int - '2' as int + 23
  }

  function Readable(): string { seq(31, i requires 0 <= i < 31 => ReadableLetter(i)) }

  lemma ReadableAlphabet()
    ensures Readable() == "abcdefghjkmnpqrstuvwxyz23456789"
  {
    hide Readable, ReadableLetter;
    ReadableParts();
    assert Readable() == "abcdefgh" + ("jk" + ("mn" + ("pqrstuvwxyz" + "23456789")));
  }

  lemma ReadableParts()
    ensures |Readable()| == 31
    ensures forall i :: 0 <= i < 8 ==> Readable()[i] == "abcdefgh"[i]
    ensures Readable()[8] == 'j' && Readable()[9] == 'k' && Readable()[10] == 'm' && Readable()[11] == 'n'
    ensures forall i :: 0 <= i < 11 ==> Readable()[12 + i] == "pqrstuvwxyz"[i]
    ensures forall i :: 0 <= i < 8 ==> Readable()[23 + i] == "23456789"[i]
  {
  }

  /** `replace(/(.{5})(?!$)/g, '$1-')` on a text without line terminators: a hyphen after every
      five characters that are not the last ones. */
  function Hyphenated(s: string): string {
    if |s| <= 5 then s else s[..5] + "-" + Hyphenated(s[5..])
  }

  function TempPassword(tape: seq<int>): Option<string> {
    var drawn := Drawn(PASSWORD_SAMPLER, ReadableLetter, tape, 20);
    if drawn.None? then None else Some(Hyphenated(drawn.value))
  }

  method NewTempPassword(batches: seq<seq<byte>>) returns (password: Option<string>)
    requires forall b :: b in batches ==> |b| == 32
    ensures password == TempPassword(Flatten(batches))
  {
    hide Progress, Accepted, Flatten, Drawn, ReadableLetter;
    var chars := "";
    var k := 0;
    ghost var seen: seq<byte> := [];
    NothingRead(batches);
    ProgressStart(PASSWORD_SAMPLER, ReadableLetter, 20);
    while |chars| < 20 && k < |batches|
      invariant k <= |batches| && |chars| <= 20
      invariant seen == Flatten(batches[..k]) <= Flatten(batches)
      invariant Progress(PASSWORD_SAMPLER, ReadableLetter, seen, 20, chars)
      decreases |batches| - k
    {
      var batch := batches[k];
      ghost var before := seen;
      BatchRead(batches, k);
      for j := 0 to |batch|
        invariant |chars| <= 20 && seen == before + batch[..j]
        invariant Progress(PASSWORD_SAMPLER, ReadableLetter, seen, 20, chars)
      {
        var b := batch[j];
        ProgressStep(PASSWORD_SAMPLER, ReadableLetter, seen, 20, chars, b);
        seen := seen + [b];
        SliceNext(before, batch, j);
        if b < 248 && |chars| < 20 { chars := chars + [ReadableLetter(b % 31)]; }
      }
      assert batch[..|batch|] == batch;
      k := k + 1;
    }
    assert batches[..|batches|] == batches;
    ProgressDone(PASSWORD_SAMPLER, ReadableLetter, seen, 20, chars, Flatten(batches));
    password := if |chars| < 20 then None else Some(Hyphenated(chars));
  }

  /** A password shows the first twenty of its symbols in the source's alphabet, in four groups. */
  lemma TempPasswordSpelled(tape: seq<int>)
    ensures var symbols := Accepted(PASSWORD_SAMPLER, tape);
      match TempPassword(tape)
      case None => |symbols| < 20
      case Some(password) =>
        && |symbols| >= 20 && |password| == 23 && password[5] == password[11] == password[17] == '-'
        && forall i :: 0 <= i < 20 ==>
             symbols[i] < 31 && password[i + i / 5] == "abcdefghjkmnpqrstuvwxyz23456789"[symbols[i]]
  {
    hide Accepted, ReadableLetter, Hyphenated;
    var symbols := Accepted(PASSWORD_SAMPLER, tape);
    if |symbols| >= 20 {
      var drawn := Drawn(PASSWORD_SAMPLER, ReadableLetter, tape, 20).value;
      PasswordShape(drawn);
      ReadableAlphabet();
      forall i | 0 <= i < 20
        ensures symbols[i] < 31 && drawn[i] == "abcdefghjkmnpqrstuvwxyz23456789"[symbols[i]]
      {
        assert symbols[i] in symbols;
        assert Readable()[symbols[i]] == ReadableLetter(symbols[i]);
      }
      Grouped(drawn, Hyphenated(drawn));
    }
  }

  lemma Grouped(s: string, t: string)
    requires |s| == 20 && t == s[..5] + "-" + s[5..10] + "-" + s[10..15] + "-" + s[15..]
    ensures |t| == 23 && t[5] == t[11] == t[17] == '-' && forall i :: 0 <= i < 20 ==> t[i + i / 5] == s[i]
  {
    forall i | 0 <= i < 20 ensures t[i + i / 5] == s[i] {
      if i < 5 {} else if i < 10 {} else if i < 15 {} else {}
    }
  }

  /** The hyphens lose nothing. */
  lemma {:induction false} HyphensRemoved(s: string)
    requires '-' !in s
    ensures Without(c => c == '-', Hyphenated(s)) == s
    decreases |s|
  {
    var dropped := (c: char) => c == '-';
    if |s| <= 5 {
      WithoutNothing(dropped, s);
    } else {
      HyphensRemoved(s[5..]);
      WithoutConcat(dropped, s[..5] + "-", Hyphenated(s[5..]));
      WithoutConcat(dropped, s[..5], "-");
      WithoutNothing(dropped, s[..5]);
      assert Without(dropped, "-") == "";
      assert s[..5] + s[5..] == s;
    }
  }

  lemma PasswordShape(s: string)
    requires |s| == 20
    ensures Hyphenated(s) == s[..5] + "-" + s[5..10] + "-" + s[10..15] + "-" + s[15..]
  {
    var a, b, c := s[5..], s[10..], s[15..];
    assert a[5..] == b && a[..5] == s[5..10];
    assert b[5..] == c && b[..5] == s[10..15];
    assert Hyphenated(c) == c;
    assert Hyphenated(b) == b[..5] + "-" + c;
    assert Hyphenated(a) == a[..5] + "-" + Hyphenated(b);
    assert s[..5] + "-" + (s[5..10] + "-" + (s[10..15] + "-" + c)) == s[..5] + "-" + s[5..10] + "-" + s[10..15] + "-" + c;
  }
}
