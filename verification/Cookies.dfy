/** src/http/middleware.ts: the `cookie` writer, the `parseCookies` reader, and the percent-encoding
    of UTF-8 (`encodeURIComponent`, section 2.1 of RFC 3986) between them. */
module Cookies {
  import opened Text

  // ---------------------------------------------------------------- percent-encoding

  predicate IsUnreserved(c: char) { IsDigit(c) || IsLetter(c) || c in "-_.!~*'()" }

  function HexDigit(d: nat): (c: char)
    requires d < 16
  {
    if d < 10 then DigitChar(d) else ('A' as int + (d - 10)) as char
  }

  function HexValue(c: char): Option<nat> {
    if IsDigit(c) then Some(DigitValue(c))
    else if 'A' <= c <= 'F' then Some(c as int - 'A' as int + 10)
    else if 'a' <= c <= 'f' then Some(c as int - 'a' as int + 10)
    else None
  }

  function EncodeOctet(b: nat): string
    requires b < 256
  {
    ['%', HexDigit(b / 16), HexDigit(b % 16)]
  }

  /** The UTF-8 octets of a code point. */
  function Utf8(v: nat): (octets: seq<nat>)
    requires v < 0x11_0000
    ensures forall b :: b in octets ==> b < 256
  {
    if v < 0x80 then [v]
    else if v < 0x800 then [0xC0 + v / 64, 0x80 + v % 64]
    else if v < 0x1_0000 then [0xE0 + v / 4096, 0x80 + v / 64 % 64, 0x80 + v % 64]
    else [0xF0 + v / 262144, 0x80 + v / 4096 % 64, 0x80 + v / 64 % 64, 0x80 + v % 64]
  }

  function EncodeOctets(octets: seq<nat>): string
    requires forall b :: b in octets ==> b < 256
  {
    if octets == [] then []
    else
      assert octets[0] in octets && forall b :: b in octets[1..] ==> b in octets;
      EncodeOctet(octets[0]) + EncodeOctets(octets[1..])
  }

  function EncodeUriComponent(s: string): string {
    if s == [] then []
    else (if IsUnreserved(s[0]) then [s[0]] else EncodeOctets(Utf8(s[0] as int))) + EncodeUriComponent(s[1..])
  }

  /** The octet a `%XX` at the start of s stands for. */
  function Octet(s: string): (b: Option<nat>)
  {
    if |s| >= 3 && s[0] == '%' && HexValue(s[1]).Some? && HexValue(s[2]).Some?
    then Some(16 * HexValue(s[1]).value + HexValue(s[2]).value) else None
  }

  /** n continuation octets, six bits each. */
  function Continued(s: string, n: nat, high: nat): (v: Option<nat>)
    ensures v.Some? ==> |s| >= 3 * n
  {
    if n == 0 then Some(high)
    else
      match Octet(s)
      case None => None
      case Some(b) => if 0x80 <= b < 0xC0 then Continued(s[3..], n - 1, 64 * high + (b - 0x80)) else None
  }

  /** How many continuation octets a leading octet announces, and the bits it holds. */
  function Leading(b: nat): Option<(nat, nat)> {
    if 0xC0 <= b < 0xE0 then Some((1, b - 0xC0))
    else if 0xE0 <= b < 0xF0 then Some((2, b - 0xE0))
    else if 0xF0 <= b < 0xF8 then Some((3, b - 0xF0))
    else None
  }

  /** Neither overlong nor a surrogate nor beyond Unicode. */
  predicate IsShortest(n: nat, v: nat) {
    if n == 1 then 0x80 <= v < 0x800
    else if n == 2 then 0x800 <= v < 0x1_0000 && !(0xD800 <= v < 0xE000)
    else 0x1_0000 <= v < 0x11_0000
  }

  /** One escaped character at the start of s, and how long it is there. */
  function Escaped(s: string): (r: Option<(char, nat)>)
  {
    match Octet(s)
    case None => None
    case Some(b) =>
      if b < 0x80 then Some((b as char, 3))
      else if Leading(b).None? then None
      else
        var (n, high) := Leading(b).value;
        match Continued(s[3..], n, high)
        case None => None
        case Some(v) => if IsShortest(n, v) then Some((v as char, 3 + 3 * n)) else None
  }

  /** None where `decodeURIComponent` throws. */
  function DecodeUriComponent(s: string): Option<string> {
    if s == [] then Some([])
    else if s[0] != '%' then Prepended(s[0], DecodeUriComponent(s[1..]))
    else
      match Escaped(s)
      case None => None
      case Some(r) => Prepended(r.0, DecodeUriComponent(s[r.1..]))
  }

  function Prepended(c: char, s: Option<string>): Option<string> {
    match s
    case None => None
    case Some(t) => Some([c] + t)
  }

  lemma OctetReads(b: nat, rest: string)
    requires b < 256
    ensures Octet(EncodeOctet(b) + rest) == Some(b) && (EncodeOctet(b) + rest)[3..] == rest
  {
    var s := EncodeOctet(b) + rest;
    assert HexValue(HexDigit(b / 16)) == Some(b / 16) && HexValue(HexDigit(b % 16)) == Some(b % 16);
    assert s[1] == HexDigit(b / 16) && s[2] == HexDigit(b % 16);
  }

  lemma ContinuedReads(b: nat, rest: string, n: nat, high: nat)
    requires 0x80 <= b < 0xC0 && n > 0
    ensures Continued(EncodeOctet(b) + rest, n, high) == Continued(rest, n - 1, 64 * high + (b - 0x80))
    ensures Continued(rest, 0, 64 * high + (b - 0x80)) == Some(64 * high + (b - 0x80))
  {
    OctetReads(b, rest);
  }

  /** The octets of an encoding that has two or more, one escape after the other. */
  lemma EncodedTwo(a: nat, b: nat, rest: string)
    requires a < 256 && b < 256
    ensures EncodeOctets([a, b]) + rest == EncodeOctet(a) + (EncodeOctet(b) + rest)
    ensures |EncodeOctets([a, b])| == 6
  {
    assert [a, b][1..] == [b] && [b][1..] == [];
    assert EncodeOctets([b]) == EncodeOctet(b) + EncodeOctets([]);
  }

  lemma EncodedMore(a: nat, more: seq<nat>, rest: string)
    requires a < 256 && forall b :: b in more ==> b < 256
    ensures EncodeOctets([a] + more) + rest == EncodeOctet(a) + (EncodeOctets(more) + rest)
    ensures |EncodeOctets([a] + more)| == 3 + |EncodeOctets(more)|
  {
    assert ([a] + more)[1..] == more;
  }

  lemma EscapedTwo(v: nat, rest: string)
    requires 0x80 <= v < 0x800
    ensures Escaped(EncodeOctets(Utf8(v)) + rest) == Some((v as char, |EncodeOctets(Utf8(v))|))
  {
    hide EncodeOctet, EncodeOctets, Octet;
    var a, b := 0xC0 + v / 64, 0x80 + v % 64;
    EncodedTwo(a, b, rest);
    OctetReads(a, EncodeOctet(b) + rest);
    ContinuedReads(b, rest, 1, v / 64);
  }

  lemma SixBits(v: nat)
    ensures 64 * (v / 64) + v % 64 == v
    ensures 64 * (v / 4096) + v / 64 % 64 == v / 64
    ensures 64 * (v / 262144) + v / 4096 % 64 == v / 4096
  {
  }

  /** Reading back octets that carry v, the leading one announcing n more. */
  lemma EscapedFrom(v: nat, lead: nat, n: nat, tail: string)
    requires lead < 256 && lead >= 0x80 && Leading(lead).Some? && Leading(lead).value.0 == n
    requires Continued(tail, n, Leading(lead).value.1) == Some(v) && IsShortest(n, v)
    ensures Escaped(EncodeOctet(lead) + tail) == Some((v as char, 3 + 3 * n))
  {
    hide EncodeOctet, Octet, Continued;
    OctetReads(lead, tail);
  }

  lemma EscapedThree(v: nat, rest: string)
    requires 0x800 <= v < 0x1_0000 && !(0xD800 <= v < 0xE000)
    ensures Escaped(EncodeOctets(Utf8(v)) + rest) == Some((v as char, |EncodeOctets(Utf8(v))|))
  {
    hide EncodeOctet, EncodeOctets, Octet, Escaped, Continued;
    var a, b, c := 0xE0 + v / 4096, 0x80 + v / 64 % 64, 0x80 + v % 64;
    assert [a, b, c] == [a] + [b, c];
    EncodedMore(a, [b, c], rest);
    EncodedTwo(b, c, rest);
    SixBits(v);
    ContinuedReads(b, EncodeOctet(c) + rest, 2, v / 4096);
    ContinuedReads(c, rest, 1, v / 64);
    EscapedFrom(v, a, 2, EncodeOctet(b) + (EncodeOctet(c) + rest));
  }

  lemma EscapedFour(v: nat, rest: string)
    requires 0x1_0000 <= v < 0x11_0000
    ensures Escaped(EncodeOctets(Utf8(v)) + rest) == Some((v as char, |EncodeOctets(Utf8(v))|))
  {
    hide EncodeOctet, EncodeOctets, Octet, Escaped, Continued;
    var a, b, c, d := 0xF0 + v / 262144, 0x80 + v / 4096 % 64, 0x80 + v / 64 % 64, 0x80 + v % 64;
    assert [a, b, c, d] == [a] + [b, c, d] && [b, c, d] == [b] + [c, d];
    EncodedMore(a, [b, c, d], rest);
    EncodedMore(b, [c, d], rest);
    EncodedTwo(c, d, rest);
    SixBits(v);
    ContinuedReads(b, EncodeOctet(c) + (EncodeOctet(d) + rest), 3, v / 262144);
    ContinuedReads(c, EncodeOctet(d) + rest, 2, v / 4096);
    ContinuedReads(d, rest, 1, v / 64);
    EscapedFrom(v, a, 3, EncodeOctet(b) + (EncodeOctet(c) + (EncodeOctet(d) + rest)));
  }

  lemma EscapedOne(v: nat, rest: string)
    requires v < 0x80
    ensures Escaped(EncodeOctets(Utf8(v)) + rest) == Some((v as char, |EncodeOctets(Utf8(v))|))
  {
    hide Octet;
    assert [v][1..] == [];
    OctetReads(v, rest);
    assert EncodeOctets([v]) == EncodeOctet(v);
  }

  lemma EscapedReads(c: char, rest: string)
    ensures Escaped(EncodeOctets(Utf8(c as int)) + rest) == Some((c, |EncodeOctets(Utf8(c as int))|))
    ensures EncodeOctets(Utf8(c as int)) != [] && EncodeOctets(Utf8(c as int))[0] == '%'
  {
    var v := c as int;
    assert EncodeOctets(Utf8(v)) != [] && EncodeOctets(Utf8(v))[0] == '%';
    hide Escaped, EncodeOctets, Utf8;
    if v < 0x80 { EscapedOne(v, rest); }
    else if v < 0x800 { EscapedTwo(v, rest); }
    else if v < 0x1_0000 { EscapedThree(v, rest); }
    else { EscapedFour(v, rest); }
  }

  lemma {:induction false} DecodeInvertsEncode(s: string)
    ensures DecodeUriComponent(EncodeUriComponent(s)) == Some(s)
  {
    hide EncodeOctets, Utf8, Escaped;
    if s != [] {
      DecodeInvertsEncode(s[1..]);
      var rest := EncodeUriComponent(s[1..]);
      assert s == [s[0]] + s[1..];
      if IsUnreserved(s[0]) {
        assert ([s[0]] + rest)[1..] == rest;
      } else {
        EscapedReads(s[0], rest);
        var head := EncodeOctets(Utf8(s[0] as int));
        assert (head + rest)[|head|..] == rest;
      }
    }
  }

  lemma {:induction false} EncodedOctets(octets: seq<nat>)
    requires forall b :: b in octets ==> b < 256
    ensures forall c :: c in EncodeOctets(octets) ==> IsUnreserved(c) || c == '%'
  {
    if octets != [] {
      assert octets[0] in octets && forall b :: b in octets[1..] ==> b in octets;
      EncodedOctets(octets[1..]);
    }
  }

  function Percent(b: nat): string
    requires b < 256
  {
    "%" + ["0123456789ABCDEF"[b / 16]] + ["0123456789ABCDEF"[b % 16]]
  }

  lemma OctetSpelled(b: nat)
    requires b < 256
    ensures EncodeOctet(b) == Percent(b) == EncodeOctets([b])
  {
    forall d | 0 <= d < 16 ensures HexDigit(d) == "0123456789ABCDEF"[d] {}
    assert [b][1..] == [];
  }

  /** How each character is written (section 2 of RFC 3986, section 3 of RFC 3629). */
  lemma EncodedSpelled(c: char, rest: string)
    ensures var v := c as int;
      EncodeUriComponent([c] + rest) == (
        if 'a' <= c <= 'z' || 'A' <= c <= 'Z' || '0' <= c <= '9'
           || c in ['-', '_', '.', '!', '~', '*', '\'', '(', ')'] then [c]
        else if v < 0x80 then Percent(v)
        else if v < 0x800 then Percent(0xC0 + v / 0x40) + Percent(0x80 + v % 0x40)
        else if v < 0x1_0000 then Percent(0xE0 + v / 0x1000) + Percent(0x80 + v / 0x40 % 0x40) + Percent(0x80 + v % 0x40)
        else Percent(0xF0 + v / 0x4_0000) + Percent(0x80 + v / 0x1000 % 0x40) + Percent(0x80 + v / 0x40 % 0x40)
             + Percent(0x80 + v % 0x40))
        + EncodeUriComponent(rest)
  {
    hide EncodeOctet, EncodeOctets, Percent;
    var v := c as int;
    assert ([c] + rest)[1..] == rest;
    assert IsUnreserved(c) <==> 'a' <= c <= 'z' || 'A' <= c <= 'Z' || '0' <= c <= '9'
                                || c in ['-', '_', '.', '!', '~', '*', '\'', '(', ')'];
    if v < 0x80 {
      OctetSpelled(v);
    } else if v < 0x800 {
      var a, b := 0xC0 + v / 64, 0x80 + v % 64;
      assert [a, b] == [a] + [b];
      OctetsSpelled(a, [b]);
      OctetSpelled(b);
    } else if v < 0x1_0000 {
      var a, b, d := 0xE0 + v / 4096, 0x80 + v / 64 % 64, 0x80 + v % 64;
      ThreeSpelled(a, b, d);
    } else {
      var a, b, d, e := 0xF0 + v / 262144, 0x80 + v / 4096 % 64, 0x80 + v / 64 % 64, 0x80 + v % 64;
      assert [a, b, d, e] == [a] + [b, d, e];
      OctetsSpelled(a, [b, d, e]);
      ThreeSpelled(b, d, e);
      assert Percent(a) + (Percent(b) + Percent(d) + Percent(e)) == Percent(a) + Percent(b) + Percent(d) + Percent(e);
    }
  }

  lemma ThreeSpelled(a: nat, b: nat, d: nat)
    requires a < 256 && b < 256 && d < 256
    ensures EncodeOctets([a, b, d]) == Percent(a) + Percent(b) + Percent(d)
  {
    hide EncodeOctet, EncodeOctets, Percent;
    assert [a, b, d] == [a] + [b, d] && [b, d] == [b] + [d];
    OctetsSpelled(a, [b, d]);
    OctetsSpelled(b, [d]);
    OctetSpelled(d);
    assert Percent(a) + (Percent(b) + Percent(d)) == Percent(a) + Percent(b) + Percent(d);
  }

  lemma OctetsSpelled(a: nat, more: seq<nat>)
    requires a < 256 && forall x :: x in more ==> x < 256
    ensures EncodeOctets([a] + more) == Percent(a) + EncodeOctets(more)
  {
    hide EncodeOctet, EncodeOctets, Percent;
    OctetSpelled(a);
    FirstOctet(a, more);
  }

  lemma FirstOctet(a: nat, more: seq<nat>)
    requires a < 256 && forall b :: b in more ==> b < 256
    ensures EncodeOctets([a] + more) == EncodeOctet(a) + EncodeOctets(more)
  {
    assert ([a] + more)[1..] == more;
  }

  /** What is written has no character that separates cookies. */
  lemma {:induction false} EncodedCharacters(s: string)
    ensures forall c :: c in EncodeUriComponent(s) ==> IsUnreserved(c) || c == '%'
  {
    hide EncodeOctets, Utf8;
    if s != [] {
      EncodedCharacters(s[1..]);
      EncodedOctets(Utf8(s[0] as int));
    }
  }

  // ---------------------------------------------------------------- reading a Cookie header

  /** `{}` has a `__proto__` accessor, and assigning it a string does nothing. */
  const INHERITED_SETTER := "__proto__"

  /** The entry one `;`-separated part adds. */
  function Entry(part: string): Option<(string, string)> {
    var i := IndexOf(part, '=');
    if i < 0 then None
    else
      var k, v := Trim(part[..i]), DecodeUriComponent(Trim(part[i + 1..]));
      if k == "" || v.None? || k == INHERITED_SETTER then None else Some((k, v.value))
  }

  function Added(out: map<string, string>, entry: Option<(string, string)>): map<string, string> {
    match entry
    case None => out
    case Some((k, v)) => out[k := v]
  }

  function Entries(parts: seq<string>): map<string, string>
    decreases |parts|
  {
    if parts == [] then map[] else Added(Entries(parts[..|parts| - 1]), Entry(parts[|parts| - 1]))
  }

  function Read(header: string): map<string, string> { Entries(Split(header, ';')) }

  lemma NothingRead()
    ensures Read("") == map[]
  {
    assert Split("", ';') == [""] && [""][..0] == [] && Entry("") == None;
  }

  lemma NoEntries(parts: seq<string>)
    ensures Entries(parts[..0]) == map[]
  {
  }

  lemma NextEntry(parts: seq<string>, n: nat)
    requires n < |parts|
    ensures Entries(parts[..n + 1]) == Added(Entries(parts[..n]), Entry(parts[n]))
  {
    hide Entry;
    assert parts[..n + 1][..n] == parts[..n];
  }

  method ParseCookies(header: Option<string>) returns (out: map<string, string>)
    ensures out == if header.None? then map[] else Read(header.value)
  {
    out := map[];
    if header.None? || header.value == "" {
      NothingRead();
      return;
    }
    hide DecodeUriComponent, Trim, Entries, Split, IndexOf;
    var parts := Split(header.value, ';');
    NoEntries(parts);
    for n := 0 to |parts|
      invariant out == Entries(parts[..n])
    {
      NextEntry(parts, n);
      var part := parts[n];
      var idx := IndexOf(part, '=');
      if idx < 0 { continue; }
      var k, v := Trim(part[..idx]), Trim(part[idx + 1..]);
      if k == "" { continue; }
      var value := DecodeUriComponent(v);
      if value.Some? && k != INHERITED_SETTER { out := out[k := value.value]; }
    }
    assert parts[..|parts|] == parts;
  }

  lemma {:induction false} EntriesConcat(a: seq<string>, b: seq<string>)
    ensures Entries(a + b) == Entries(a) + Entries(b)
    decreases |b|
  {
    hide Entry;
    if b == [] {
      assert a + b == a;
    } else {
      var k := |b| - 1;
      assert (a + b)[..|a| + k] == a + b[..k];
      EntriesConcat(a, b[..k]);
    }
  }

  /** Joined headers overlay: the later one wins. */
  lemma ReadConcat(a: string, b: string)
    ensures Read(a + [';'] + b) == Read(a) + Read(b)
  {
    SplitConcat(a, ';', b);
    EntriesConcat(Split(a, ';'), Split(b, ';'));
  }

  /** Nothing to read in it: no `=`, no name, malformed escapes, or the inherited setter. */
  predicate Ignorable(part: string) { Entry(part).None? }

  lemma {:induction false} IgnorableParts(parts: seq<string>)
    requires forall p :: p in parts ==> Ignorable(p)
    ensures Entries(parts) == map[]
    decreases |parts|
  {
    if parts != [] {
      assert parts[|parts| - 1] in parts;
      IgnorableParts(parts[..|parts| - 1]);
    }
  }

  /** Such parts change nothing wherever they stand. */
  lemma IgnorableAnywhere(a: string, junk: string, b: string)
    requires forall p :: p in Split(junk, ';') ==> Ignorable(p)
    ensures Read(a + [';'] + (junk + [';'] + b)) == Read(a + [';'] + b)
    ensures Read(junk + [';'] + b) == Read(b) && Read(a + [';'] + junk) == Read(a)
  {
    hide Entry, Entries, Split;
    IgnorableParts(Split(junk, ';'));
    ReadConcat(junk, b);
    ReadConcat(a, junk + [';'] + b);
    ReadConcat(a, b);
    ReadConcat(a, junk);
  }

  /** Which parts those are. */
  lemma IgnorableExactly(name: string, value: string)
    requires '=' !in name
    ensures Ignorable(name)
    ensures Ignorable(name + ['='] + value)
       <==> Trim(name) == "" || Trim(name) == INHERITED_SETTER || DecodeUriComponent(Trim(value)).None?
  {
    hide DecodeUriComponent, Trim;
    FirstIndex(name, '=', value);
    var part := name + ['='] + value;
    assert part[..|name|] == name && part[|name| + 1..] == value;
  }

  // ---------------------------------------------------------------- writing

  function Joined(parts: seq<string>, sep: string): string {
    if parts == [] then ""
    else if |parts| == 1 then parts[0]
    else parts[0] + sep + Joined(parts[1..], sep)
  }

  function Pair(name: string, value: string): string { name + ['='] + EncodeUriComponent(value) }

  function Attributes(maxAgeSec: nat, secure: bool): seq<string> {
    ["Path=/", "HttpOnly", "SameSite=Lax", "Max-Age=" + Decimal(maxAgeSec)] + (if secure then ["Secure"] else [])
  }

  /** Each attribute behind a separator of its own. */
  function Attached(attributes: seq<string>): string {
    if attributes == [] then "" else "; " + attributes[0] + Attached(attributes[1..])
  }

  method Cookie(name: string, value: string, maxAgeSec: nat, secure: bool) returns (header: string)
    ensures header == name + "=" + EncodeUriComponent(value) + "; Path=/; HttpOnly; SameSite=Lax; Max-Age="
                      + Decimal(maxAgeSec) + (if secure then "; Secure" else "")
    ensures ';' !in name ==> NameValuePair(header) == Pair(name, value)
  {
    hide Pair, Joined, Attached, NameValuePair, Decimal;
    var parts := [Pair(name, value), "Path=/", "HttpOnly", "SameSite=Lax", "Max-Age=" + Decimal(maxAgeSec)];
    if secure { parts := parts + ["Secure"]; }
    header := Joined(parts, "; ");
    assert parts == [Pair(name, value)] + Attributes(maxAgeSec, secure);
    JoinedAttached(Pair(name, value), Attributes(maxAgeSec, secure));
    AttributesSpelled(Pair(name, value), maxAgeSec, secure);
    PairSpelled(name, value);
    if ';' !in name { PairKept(name, value, Attributes(maxAgeSec, secure)); }
  }

  lemma PairSpelled(name: string, value: string)
    ensures Pair(name, value) == name + "=" + EncodeUriComponent(value)
  {
  }

  lemma AttributesSpelled(pair: string, maxAgeSec: nat, secure: bool)
    ensures pair + Attached(Attributes(maxAgeSec, secure))
         == pair + "; Path=/; HttpOnly; SameSite=Lax; Max-Age=" + Decimal(maxAgeSec) + (if secure then "; Secure" else "")
  {
    hide Attached, Decimal;
    var age, last := Decimal(maxAgeSec), if secure then ["Secure"] else [];
    var front := "; Path=/; HttpOnly; SameSite=Lax";
    AttachedConcat(["Path=/", "HttpOnly", "SameSite=Lax"], ["Max-Age=" + age] + last);
    AttachedConcat(["Max-Age=" + age], last);
    AttachedOne("Max-Age=" + age);
    LastAttached(last, secure);
    FrontAttached();
    assert Attributes(maxAgeSec, secure) == ["Path=/", "HttpOnly", "SameSite=Lax"] + (["Max-Age=" + age] + last);
    assert front + ("; " + ("Max-Age=" + age) + Attached(last)) == (front + "; Max-Age=") + age + Attached(last);
    assert front + "; Max-Age=" == "; Path=/; HttpOnly; SameSite=Lax; Max-Age=";
  }

  lemma {:induction false} AttachedConcat(a: seq<string>, b: seq<string>)
    ensures Attached(a + b) == Attached(a) + Attached(b)
  {
    if a == [] {
      assert a + b == b;
    } else {
      assert (a + b)[1..] == a[1..] + b;
      AttachedConcat(a[1..], b);
    }
  }

  lemma AttachedOne(attribute: string)
    ensures Attached([attribute]) == "; " + attribute
  {
    assert [attribute][1..] == [];
  }

  lemma LastAttached(last: seq<string>, secure: bool)
    requires last == if secure then ["Secure"] else []
    ensures Attached(last) == if secure then "; Secure" else ""
  {
    if secure { AttachedOne("Secure"); }
  }

  lemma FrontAttached()
    ensures Attached(["Path=/", "HttpOnly", "SameSite=Lax"]) == "; Path=/; HttpOnly; SameSite=Lax"
  {
    hide Attached;
    AttachedConcat(["Path=/"], ["HttpOnly"] + ["SameSite=Lax"]);
    AttachedConcat(["HttpOnly"], ["SameSite=Lax"]);
    AttachedOne("Path=/");
    AttachedOne("HttpOnly");
    AttachedOne("SameSite=Lax");
    assert ["Path=/"] + (["HttpOnly"] + ["SameSite=Lax"]) == ["Path=/", "HttpOnly", "SameSite=Lax"];
    assert "; " + "Path=/" + ("; " + "HttpOnly" + ("; " + "SameSite=Lax")) == "; Path=/; HttpOnly; SameSite=Lax";
  }

  lemma {:induction false} JoinedAttached(first: string, attributes: seq<string>)
    ensures Joined([first] + attributes, "; ") == first + Attached(attributes)
    decreases |attributes|
  {
    if attributes != [] {
      assert ([first] + attributes)[1..] == attributes == [attributes[0]] + attributes[1..];
      JoinedAttached(attributes[0], attributes[1..]);
    }
  }

  /** What a user agent keeps of a Set-Cookie header and sends back (section 5.2 of RFC 6265). */
  function NameValuePair(header: string): string {
    var i := IndexOf(header, ';');
    if i < 0 then header else header[..i]
  }

  predicate IsName(name: string) {
    && name != [] && !IsSpace(name[0]) && !IsSpace(name[|name| - 1])
    && ';' !in name && '=' !in name
  }

  lemma PairHasNoSemicolon(name: string, value: string)
    requires ';' !in name
    ensures ';' !in Pair(name, value)
  {
    EncodedCharacters(value);
  }

  /** A user agent sends the pair back without the attributes. */
  lemma PairKept(name: string, value: string, attributes: seq<string>)
    requires ';' !in name
    ensures NameValuePair(Pair(name, value) + Attached(attributes)) == Pair(name, value)
  {
    hide Pair, Attached, IndexOf;
    PairHasNoSemicolon(name, value);
    BeforeSemicolon(Pair(name, value), attributes);
  }

  lemma BeforeSemicolon(pair: string, attributes: seq<string>)
    requires ';' !in pair
    ensures NameValuePair(pair + Attached(attributes)) == pair
  {
    hide IndexOf;
    if attributes == [] {
      assert pair + Attached(attributes) == pair;
      FirstIndex(pair, ';', "");
    } else {
      var rest := [' '] + attributes[0] + Attached(attributes[1..]);
      AttachedFirst(attributes);
      FirstIndex(pair, ';', rest);
      assert pair + ([';'] + rest) == pair + [';'] + rest;
    }
  }

  lemma AttachedFirst(attributes: seq<string>)
    requires attributes != []
    ensures Attached(attributes) == [';'] + ([' '] + attributes[0] + Attached(attributes[1..]))
  {
    assert "; " == [';', ' '];
  }

  // ---------------------------------------------------------------- the round trip

  datatype Item = Item(name: string, value: string)

  /** The cookies set, the last of a name winning. */
  function Jar(items: seq<Item>): map<string, string> {
    if items == [] then map[] else map[items[0].name := items[0].value] + Jar(items[1..])
  }

  /** The header a user agent builds (section 4.2.1 of RFC 6265). */
  function Sent(items: seq<Item>): string {
    if items == [] then ""
    else if |items| == 1 then Pair(items[0].name, items[0].value)
    else Pair(items[0].name, items[0].value) + "; " + Sent(items[1..])
  }

  lemma NoSpaceEncoded(value: string)
    ensures forall c :: c in EncodeUriComponent(value) ==> !IsSpace(c)
  {
    EncodedCharacters(value);
  }

  /** One pair is read back, with or without a space before it. */
  lemma PairRead(name: string, value: string, space: string)
    requires IsName(name) && (space == "" || space == " ")
    ensures Entry(space + Pair(name, value))
         == if name == INHERITED_SETTER then None else Some((name, value))
  {
    hide DecodeUriComponent, EncodeUriComponent, Trim, IndexOf;
    var v := EncodeUriComponent(value);
    var k := space + name;
    assert space + Pair(name, value) == k + ['='] + v;
    FirstIndex(k, '=', v);
    var part := k + ['='] + v;
    assert part[..|k|] == k && part[|k| + 1..] == v;
    TrimPadded(space, name, "");
    assert space + name + "" == k;
    NoSpaceEncoded(value);
    TrimPadded("", v, "");
    assert "" + v + "" == v;
    DecodeInvertsEncode(value);
  }

  /** A part of a header reads as name and value whatever white space stands around either. */
  lemma PaddedPairReads(a: string, name: string, b: string, c: string, value: string, d: string)
    requires IsName(name) && forall x :: x in a + b + c + d ==> IsSpace(x)
    ensures Read(a + name + b + "=" + c + EncodeUriComponent(value) + d)
         == if name == "__proto__" then map[] else map[name := value]
  {
    hide DecodeUriComponent, EncodeUriComponent, Trim, IndexOf, Split, IsSpace;
    var v := EncodeUriComponent(value);
    var part := (a + name + b) + ['='] + (c + v + d);
    assert a + name + b + "=" + c + v + d == part;
    assert '=' !in a + name + b by { NotSpaces(); }
    FirstIndex(a + name + b, '=', c + v + d);
    assert part[..|a + name + b|] == a + name + b && part[|a + name + b| + 1..] == c + v + d;
    TrimPadded(a, name, b);
    NoSpaceEncoded(value);
    TrimPadded(c, v, d);
    DecodeInvertsEncode(value);
    EncodedCharacters(value);
    assert ';' !in part by { NotSpaces(); }
    SplitSingle(part, ';');
    assert Entry(part) == if name == INHERITED_SETTER then None else Some((name, value));
    OneEntry(part);
  }

  lemma OneEntry(part: string)
    ensures Entries([part]) == Added(map[], Entry(part))
  {
    hide Entry;
    assert [part][..0] == [];
  }

  lemma NotSpaces()
    ensures !IsSpace('=') && !IsSpace(';') && !IsUnreserved(';')
  {
  }

  lemma {:induction false} SentReads(items: seq<Item>, space: string)
    requires items != [] && forall i :: i in items ==> IsName(i.name)
    requires space == "" || space == " "
    ensures Read(space + Sent(items)) == Jar(items) - {INHERITED_SETTER}
    decreases |items|
  {
    hide Entry, Split, Entries, Pair, IsName, Read, Sent, Jar;
    assert items[0] in items;
    FirstReads(items[0], space);
    JarFirst(items);
    if |items| == 1 {
      SentOne(items);
    } else {
      assert forall i :: i in items[1..] ==> i in items;
      SentReads(items[1..], " ");
      SentFirst(items, space);
      ReadConcat(space + Pair(items[0].name, items[0].value), " " + Sent(items[1..]));
      Sifted(map[items[0].name := items[0].value], Jar(items[1..]), {INHERITED_SETTER});
    }
  }

  lemma JarFirst(items: seq<Item>)
    requires items != []
    ensures Jar(items) == map[items[0].name := items[0].value] + Jar(items[1..])
    ensures |items| == 1 ==> Jar(items) == map[items[0].name := items[0].value]
  {
  }

  lemma SentOne(items: seq<Item>)
    requires |items| == 1
    ensures Sent(items) == Pair(items[0].name, items[0].value)
  {
  }

  lemma SentFirst(items: seq<Item>, space: string)
    requires |items| > 1
    ensures space + Sent(items) == space + Pair(items[0].name, items[0].value) + [';'] + (" " + Sent(items[1..]))
  {
    hide Pair;
    Separated(space, Pair(items[0].name, items[0].value), Sent(items[1..]));
  }

  lemma Separated(a: string, b: string, c: string)
    ensures a + (b + "; " + c) == a + b + [';'] + (" " + c)
  {
    assert "; " == [';'] + " ";
  }

  lemma Sifted(a: map<string, string>, b: map<string, string>, k: set<string>)
    ensures (a - k) + (b - k) == (a + b) - k
  {
  }

  lemma FirstReads(item: Item, space: string)
    requires IsName(item.name) && (space == "" || space == " ")
    ensures Read(space + Pair(item.name, item.value))
         == map[item.name := item.value] - {INHERITED_SETTER}
  {
    hide Entry, Pair;
    var part := space + Pair(item.name, item.value);
    PairRead(item.name, item.value, space);
    PairHasNoSemicolon(item.name, item.value);
    SplitSingle(part, ';');
    assert [part][..0] == [];
  }

  /** Whatever cookies were set come back as they were, unless one is called `__proto__`. */
  lemma CookiesComeBack(items: seq<Item>)
    requires forall i :: i in items ==> IsName(i.name)
    ensures Read(Sent(items)) == Jar(items) - {INHERITED_SETTER}
    ensures Read(Sent(items)) == Jar(items) <==> forall i :: i in items ==> i.name != INHERITED_SETTER
  {
    hide Pair, IsName;
    if items == [] {
      NothingRead();
    } else {
      SentReads(items, "");
      assert "" + Sent(items) == Sent(items);
    }
    JarNames(items, INHERITED_SETTER);
  }

  lemma {:induction false} JarNames(items: seq<Item>, name: string)
    ensures name in Jar(items) <==> exists i :: i in items && i.name == name
  {
    if items != [] {
      JarNames(items[1..], name);
      assert items == [items[0]] + items[1..];
    }
  }
}
