/** public/passkey.js and src/webauthn.ts: the browser's base64url built from `btoa` and `atob`,
    and the server's strict decoder (RFC 4648, sections 4 and 5). */
module Base64Url {
  import opened Text
  import opened Bits

  // ---------------------------------------------------------------- the two alphabets

  predicate IsAlphanumeric(c: char) { IsLetter(c) || IsDigit(c) }

  predicate InStandard(c: char) { IsAlphanumeric(c) || c == '+' || c == '/' }

  predicate InUrl(c: char) { IsAlphanumeric(c) || c == '-' || c == '_' }

  function StandardChar(i: nat): (c: char)
    requires i < 64
  {
    if i < 26 then ('A' as int + i) as char
    else if i < 52 then ('a' as int + i - 26) as char
    else if i < 62 then ('0' as int + i - 52) as char
    else if i == 62 then '+' else '/'
  }

  /** The value of a character of either alphabet. */
  function Sextet(c: char): (i: nat)
    requires InStandard(c) || InUrl(c)
  {
    if 'A' <= c <= 'Z' then c as int - 'A' as int
    else if 'a' <= c <= 'z' then c as int - 'a' as int + 26
    else if IsDigit(c) then c as int - '0' as int + 52
    else if c == '+' || c == '-' then 62 else 63
  }

  function ReplaceAll(s: string, from: char, to: char): (r: string)
    ensures |r| == |s| && forall i :: 0 <= i < |s| ==> r[i] == if s[i] == from then to else s[i]
  {
    if s == [] then [] else [if s[0] == from then to else s[0]] + ReplaceAll(s[1..], from, to)
  }

  function ToUrl(s: string): string { ReplaceAll(ReplaceAll(s, '+', '-'), '/', '_') }

  function ToStandard(s: string): string { ReplaceAll(ReplaceAll(s, '-', '+'), '_', '/') }

  predicate AllUrl(s: string) { forall i :: 0 <= i < |s| ==> InUrl(s[i]) }

  predicate AllStandard(s: string) { forall i :: 0 <= i < |s| ==> InStandard(s[i]) }

  /** The bits a text spells in its alphabet. */
  function Spelled(s: string): seq<bool>
    requires forall i :: 0 <= i < |s| ==> InStandard(s[i]) || InUrl(s[i])
  {
    if s == [] then [] else LowBits(Sextet(s[0]), 6) + Spelled(s[1..])
  }

  // ---------------------------------------------------------------- the platform's btoa and atob

  function Sextets(b: seq<bool>): (s: string)
    ensures AllStandard(s) && |s| == GroupCount(|b|, 6)
  {
    if b == [] then []
    else if |b| < 6 then [SextetChar(b + Zeros(6 - |b|))]
    else [SextetChar(b[..6])] + Sextets(b[6..])
  }

  function SextetChar(group: seq<bool>): (c: char)
    requires |group| == 6
    ensures InStandard(c) && Sextet(c) == Value(group)
  {
    ValueBound(group);
    Pow2Values();
    StandardChar(Value(group))
  }

  function Padding(length: nat): string { seq((4 - length % 4) % 4, _ => '=') }

  /** `btoa`: fails on a character above U+00FF, else base64 with padding. */
  function Btoa(s: string): Option<string> {
    if exists i :: 0 <= i < |s| && s[i] as int > 255 then None
    else
      var text := Sextets(BytesToBits(Octets(s)));
      Some(text + Padding(|text|))
  }

  function Octets(s: string): (b: seq<byte>)
    requires forall i :: 0 <= i < |s| ==> s[i] as int < 256
  {
    if s == [] then [] else [s[0] as int] + Octets(s[1..])
  }

  /** The string of characters with these codes. */
  function Latin(b: seq<byte>): (s: string)
    ensures |s| == |b| && forall i :: 0 <= i < |b| ==> s[i] as int == b[i]
  {
    if b == [] then [] else [b[0] as char] + Latin(b[1..])
  }

  predicate IsAsciiWhitespace(c: char) {
    c == '\t' || c == '\n' || c == '\U{000C}' || c == '\r' || c == ' '
  }

  function StripPadding(t: string): string {
    if |t| % 4 != 0 || t == [] || t[|t| - 1] != '=' then t
    else if t[|t| - 2] == '=' then t[..|t| - 2]
    else t[..|t| - 1]
  }

  /** `atob`: the forgiving-base64 decode of the WHATWG Infra Standard. */
  function Atob(s: string): Option<string> {
    var t := StripPadding(Without(IsAsciiWhitespace, s));
    if |t| % 4 == 1 || !AllStandard(t) then None
    else Some(Latin(BitsToBytes(Spelled(t))))
  }

  // ---------------------------------------------------------------- the browser

  function StripTrailing(s: string, c: char): string {
    if s != [] && s[|s| - 1] == c then StripTrailing(s[..|s| - 1], c) else s
  }

  /** Unpadded base64url of the octets. */
  function Encoded(bytes: seq<byte>): string { ToUrl(Sextets(BytesToBits(bytes))) }

  method ToB64url(bytes: seq<byte>) returns (text: string)
    ensures text == Encoded(bytes)
  {
    var s := "";
    for i := 0 to |bytes|
      invariant |s| == i && forall j :: 0 <= j < i ==> s[j] as int == bytes[j]
    {
      s := s + [bytes[i] as char];
    }
    OctetsOf(s, bytes);
    var base64 := Btoa(s).value;
    text := StripTrailing(ToUrl(base64), '=');
    PaddingStripped(Sextets(BytesToBits(bytes)));
  }

  lemma {:induction false} OctetsOf(s: string, bytes: seq<byte>)
    requires |s| == |bytes| && forall j :: 0 <= j < |s| ==> s[j] as int == bytes[j]
    ensures Octets(s) == bytes
  {
    if s != [] { OctetsOf(s[1..], bytes[1..]); }
  }

  lemma PaddingStripped(text: string)
    requires AllStandard(text)
    ensures StripTrailing(ToUrl(text + Padding(|text|)), '=') == ToUrl(text)
  {
    assert ToUrl(text + Padding(|text|)) == ToUrl(text) + Padding(|text|);
    StripPadded(ToUrl(text), Padding(|text|));
  }

  lemma {:induction false} StripPadded(s: string, pad: string)
    requires forall i :: 0 <= i < |pad| ==> pad[i] == '='
    requires forall i :: 0 <= i < |s| ==> s[i] != '='
    ensures StripTrailing(s + pad, '=') == s
  {
    if pad == [] {
      assert s + pad == s;
    } else {
      var k := |pad| - 1;
      assert (s + pad)[..|s| + k] == s + pad[..k];
      StripPadded(s, pad[..k]);
    }
  }

  function PaddingSlice(n: nat): string { "==="[(n + 3) % 4..] }

  /** What `fromB64url` passes to `atob`. */
  function Repadded(s: string): string {
    ToStandard(s) + PaddingSlice(|s|)
  }

  function BrowserDecoded(s: string): Option<seq<byte>> {
    var b := Atob(Repadded(s));
    if b.None? then None else if forall i :: 0 <= i < |b.value| ==> b.value[i] as int < 256 then Some(Octets(b.value)) else None
  }

  /** `atob` throws (ok is false) or the octets are copied into a fresh array by index. */
  method FromB64url(s: string) returns (ok: bool, out: array<byte>)
    ensures ok <==> BrowserDecoded(s).Some?
    ensures ok ==> BrowserDecoded(s) == Some(out[..])
  {
    var b := Atob(Repadded(s));
    if b.None? {
      out := new byte[0];
      return false, out;
    }
    out := new byte[|b.value|];
    for i := 0 to |b.value|
      invariant forall j :: 0 <= j < i ==> out[j] == b.value[j] as int
    {
      out[i] := b.value[i] as int;
    }
    OctetsOf(b.value, out[..]);
    ok := true;
  }

  // ---------------------------------------------------------------- the server

  function ServerDecoded(s: string): Result<seq<byte>> {
    if !AllUrl(s) || |s| == 0 || |s| > 16384 then Err("malformed")
    else Ok(BitsToBytes(Spelled(s)))
  }

  // ---------------------------------------------------------------- agreement

  lemma {:induction false} SpelledStandard(s: string)
    requires AllUrl(s)
    ensures AllStandard(ToStandard(s)) && Spelled(ToStandard(s)) == Spelled(s)
  {
    if s != [] {
      SpelledStandard(s[1..]);
      assert ToStandard(s)[1..] == ToStandard(s[1..]);
    }
  }

  lemma SliceLength(n: nat)
    ensures |PaddingSlice(n)| == if n % 4 == 0 then 0 else if n % 4 == 1 then 3 else if n % 4 == 2 then 2 else 1
    ensures forall i :: 0 <= i < |PaddingSlice(n)| ==> PaddingSlice(n)[i] == '='
  {
    if n % 4 == 0 { assert (n + 3) % 4 == 3; } else { assert (n + 3) % 4 == n % 4 - 1; }
  }

  /** The padding slice adds what `atob` strips again, except for the residue 1, where one `=` is left. */
  lemma RepaddedStripped(t: string, pad: string)
    requires AllStandard(t)
    requires |pad| == if |t| % 4 == 0 then 0 else if |t| % 4 == 1 then 3 else if |t| % 4 == 2 then 2 else 1
    requires forall i :: 0 <= i < |pad| ==> pad[i] == '='
    ensures |t| % 4 != 1 ==> StripPadding(t + pad) == t
    ensures |t| % 4 == 1 ==> !AllStandard(StripPadding(t + pad))
  {
    var u := t + pad;
    if pad == [] {
      assert u == t;
    } else {
      assert |u| % 4 == 0;
      assert u[|u| - 1] == '=';
      if |pad| == 3 { assert StripPadding(u)[|t|] == '='; }
    }
  }

  lemma RepaddedPlain(s: string)
    requires AllUrl(s)
    ensures Without(IsAsciiWhitespace, Repadded(s)) == Repadded(s)
    ensures |s| % 4 != 1 ==> StripPadding(Repadded(s)) == ToStandard(s)
    ensures |s| % 4 == 1 ==> !AllStandard(StripPadding(Repadded(s)))
  {
    SliceLength(|s|);
    NoWhitespace(ToStandard(s), PaddingSlice(|s|));
    RepaddedStripped(ToStandard(s), PaddingSlice(|s|));
  }

  lemma NoWhitespace(t: string, pad: string)
    requires AllStandard(t) && forall i :: 0 <= i < |pad| ==> pad[i] == '='
    ensures Without(IsAsciiWhitespace, t + pad) == t + pad
  {
    forall c | c in t + pad ensures !IsAsciiWhitespace(c) {
      var i :| 0 <= i < |t + pad| && (t + pad)[i] == c;
    }
    WithoutNothing(IsAsciiWhitespace, t + pad);
  }

  lemma BrowserReads(s: string)
    requires AllUrl(s)
    ensures BrowserDecoded(s) == if |s| % 4 == 1 then None else Some(BitsToBytes(Spelled(s)))
  {
    var u := Repadded(s);
    RepaddedPlain(s);
    if |s| % 4 == 1 {
      assert Atob(u) == None;
    } else {
      var b := BitsToBytes(Spelled(s));
      assert Atob(u) == Some(Latin(b)) by { SpelledStandard(s); }
      BrowserCopies(s, b);
    }
  }

  lemma BrowserCopies(s: string, b: seq<byte>)
    requires Atob(Repadded(s)) == Some(Latin(b))
    ensures BrowserDecoded(s) == Some(b)
  {
    forall i | 0 <= i < |b| ensures Latin(b)[i] as int < 256 { assert Latin(b)[i] as int == b[i]; }
    OctetsOf(Latin(b), b);
  }

  /** On every text the server accepts, the browser decodes the same octets, unless the length is
      1 modulo 4: then `atob` throws where the server drops the six stray bits. */
  lemma BrowserAgreesWithServer(s: string)
    requires ServerDecoded(s).Ok?
    ensures BrowserDecoded(s) == if |s| % 4 == 1 then None else Some(ServerDecoded(s).value)
  {
    BrowserReads(s);
  }

  lemma {:induction false} SextetsSpell(b: seq<bool>)
    ensures AllUrl(ToUrl(Sextets(b)))
    ensures Spelled(ToUrl(Sextets(b))) == GroupsToBits(BitsToGroups(b, 6), 6)
    decreases |b|
  {
    if |b| >= 6 {
      SextetsSpell(b[6..]);
      assert ToUrl(Sextets(b))[1..] == ToUrl(Sextets(b[6..]));
    }
  }

  lemma {:induction false} EncodedLength(n: nat)
    ensures GroupCount(8 * n, 6) == 4 * (n / 3) + (if n % 3 == 0 then 0 else n % 3 + 1)
  {
    if n >= 3 {
      EncodedLength(n - 3);
      var m := 8 * n;
      assert GroupCount(m, 6) == 1 + GroupCount(m - 6, 6) == 2 + GroupCount(m - 12, 6);
      assert GroupCount(m - 12, 6) == 1 + GroupCount(m - 18, 6) == 2 + GroupCount(m - 24, 6);
    } else if n == 2 {
      assert GroupCount(16, 6) == 3;
    }
  }

  lemma EncodedSpells(bytes: seq<byte>)
    ensures AllUrl(Encoded(bytes)) && BitsToBytes(Spelled(Encoded(bytes))) == bytes
  {
    SextetsSpell(BytesToBits(bytes));
    RegroupingInverts(bytes, 6);
  }

  lemma EncodedSize(bytes: seq<byte>)
    ensures |Encoded(bytes)| == 4 * (|bytes| / 3) + (if |bytes| % 3 == 0 then 0 else |bytes| % 3 + 1)
    ensures |Encoded(bytes)| % 4 != 1
  {
    BytesToBitsLength(bytes);
    var n := |bytes|;
    EncodedLength(n);
    var k := if n % 3 == 0 then 0 else n % 3 + 1;
    DivModUnique(4 * (n / 3) + k, 4, n / 3, k);
  }

  /** The browser reads back every buffer it wrote: the residue 1 the padding slice cannot repair never occurs. */
  lemma BrowserRoundTrip(bytes: seq<byte>)
    ensures |Encoded(bytes)| % 4 != 1
    ensures BrowserDecoded(Encoded(bytes)) == Some(bytes)
  {
    var s := Encoded(bytes);
    assert AllUrl(s) && BitsToBytes(Spelled(s)) == bytes && |s| % 4 != 1 by {
      EncodedSpells(bytes);
      EncodedSize(bytes);
    }
    BrowserReads(s);
  }

  /** The server accepts what the browser wrote exactly when there are 1 to 12288 octets, and reads the same ones. */
  lemma ServerReadsBrowser(bytes: seq<byte>)
    ensures ServerDecoded(Encoded(bytes)).Ok? <==> 1 <= |bytes| <= 12288
    ensures ServerDecoded(Encoded(bytes)).Ok? ==> ServerDecoded(Encoded(bytes)) == Ok(bytes)
  {
    EncodedSpells(bytes);
    EncodedSize(bytes);
  }

  // ---------------------------------------------------------------- base64url as a change of base

  const URL_ALPHABET := "ABCDEFGHIJKLMNOPQRSTUVWXYZ" + ("abcdefghijklmnopqrstuvwxyz" + ("0123456789" + "-_"))

  lemma Upper(i: nat)
    requires i < 26
    ensures "ABCDEFGHIJKLMNOPQRSTUVWXYZ"[i] as int == 'A' as int + i
  {
  }

  lemma Lower(i: nat)
    requires i < 26
    ensures "abcdefghijklmnopqrstuvwxyz"[i] as int == 'a' as int + i
  {
  }

  lemma UrlChar(i: nat)
    requires i < 64
    ensures |URL_ALPHABET| == 64 && InUrl(URL_ALPHABET[i]) && Sextet(URL_ALPHABET[i]) == i
    ensures ToUrl([StandardChar(i)]) == [URL_ALPHABET[i]]
  {
    if i < 26 {
      Upper(i);
    } else if i < 52 {
      Lower(i - 26);
    } else if i < 62 {
      assert URL_ALPHABET[i] == "0123456789"[i - 52];
    } else {
      assert URL_ALPHABET[i] == "-_"[i - 62];
    }
    assert [StandardChar(i)][1..] == [];
  }

  lemma SextetInUrl(c: char)
    requires InUrl(c)
    ensures |URL_ALPHABET| == 64 && Sextet(c) < 64 && URL_ALPHABET[Sextet(c)] == c
  {
    UrlChar(Sextet(c));
  }

  lemma {:induction false} SextetsAre(b: seq<bool>)
    ensures var g := BitsToGroups(b, 6);
      && |ToUrl(Sextets(b))| == |g| && |URL_ALPHABET| == 64
      && forall k :: 0 <= k < |g| ==> g[k] < 64 && ToUrl(Sextets(b))[k] == URL_ALPHABET[g[k]]
    decreases |b|
  {
    hide Value, StandardChar;
    Pow2Values();
    UrlChar(0);
    if |b| >= 6 {
      SextetsAre(b[6..]);
      ValueBound(b[..6]);
      UrlChar(Value(b[..6]));
      assert Sextets(b)[1..] == Sextets(b[6..]);
    } else if b != [] {
      ValueBound(b + Zeros(6 - |b|));
      UrlChar(Value(b + Zeros(6 - |b|)));
    }
  }

  /** The browser writes the octets, as one number filled up to whole characters with zeros on the
      right, in base 64 with these characters for digits. */
  lemma EncodedIsNumber(bytes: seq<byte>) returns (digits: seq<nat>)
    ensures |Encoded(bytes)| == |digits| && 0 <= 6 * |digits| - 8 * |bytes| < 6
    ensures forall k :: 0 <= k < |digits| ==>
      digits[k] < 64 == |URL_ALPHABET| && Encoded(bytes)[k] == URL_ALPHABET[digits[k]]
    ensures Number(64, digits) == Number(256, bytes) * Pow2(6 * |digits| - 8 * |bytes|)
  {
    hide Number, Sextets, BytesToBits, Pow2, ToUrl;
    Pow2Values();
    digits := EncodeGroups(bytes, 6);
    SextetsAre(BytesToBits(bytes));
    ChangeOfBase(bytes, 6);
  }

  lemma {:induction false} SpelledGroups(s: string, digits: seq<nat>)
    requires |URL_ALPHABET| == 64 && |digits| == |s|
    requires forall k :: 0 <= k < |s| ==> digits[k] < 64 && s[k] == URL_ALPHABET[digits[k]]
    ensures AllUrl(s) && Spelled(s) == GroupsToBits(digits, 6)
  {
    hide LowBits;
    forall k | 0 <= k < |s| ensures InUrl(s[k]) && Sextet(s[k]) == digits[k] { UrlChar(digits[k]); }
    if s != "" { SpelledGroups(s[1..], digits[1..]); }
  }

  /** The server accepts 1 to 16384 of these characters and reads the whole octets of the number they
      write; it refuses everything else. */
  lemma ServerReadsNumber(s: string)
    ensures |URL_ALPHABET| == 64
    ensures ServerDecoded(s).Ok? <==> 1 <= |s| <= 16384 && forall c :: c in s ==> c in URL_ALPHABET
    ensures ServerDecoded(s).Ok? ==>
      exists digits: seq<nat> ::
        && |digits| == |s| && (forall k :: 0 <= k < |s| ==> digits[k] < 64 && s[k] == URL_ALPHABET[digits[k]])
        && |ServerDecoded(s).value| == 6 * |s| / 8
        && Number(256, ServerDecoded(s).value) == Number(64, digits) / Pow2(6 * |s| % 8)
  {
    hide Number, Pow2, Spelled, Sextet, InUrl, StandardChar;
    UrlChar(0);
    forall c ensures InUrl(c) <==> c in URL_ALPHABET {
      if InUrl(c) { SextetInUrl(c); }
      if c in URL_ALPHABET {
        var i :| 0 <= i < 64 && URL_ALPHABET[i] == c;
        UrlChar(i);
      }
    }
    if AllUrl(s) {
      assert forall c :: c in s ==> InUrl(c);
      forall k | 0 <= k < |s| ensures Sextet(s[k]) < 64 && URL_ALPHABET[Sextet(s[k])] == s[k] { SextetInUrl(s[k]); }
      var digits: seq<nat> := seq(|s|, k requires 0 <= k < |s| => Sextet(s[k]));
      SpelledGroups(s, digits);
      Pow2Values();
      BaseChanged(digits, 6);
    } else {
      var k :| 0 <= k < |s| && !InUrl(s[k]);
      assert s[k] in s;
    }
  }
}
