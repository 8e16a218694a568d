/** src/http/html.ts `jsonScript`: JSON text whose `<`, U+2028 and U+2029 are rewritten, and a
    parser for RFC 8259 that reads it. Text is a sequence of UTF-16 code units, as in ECMAScript. */
module JsonScript {

  type Unit = x: int | 0 <= x < 0x1_0000

  type CodeUnits = seq<Unit>

  const QUOTE: Unit := 0x22
  const BACKSLASH: Unit := 0x5C
  const COMMA: Unit := 0x2C
  const COLON: Unit := 0x3A
  const LBRACKET: Unit := 0x5B
  const RBRACKET: Unit := 0x5D
  const LBRACE: Unit := 0x7B
  const RBRACE: Unit := 0x7D
  const LESS: Unit := 0x3C
  const TRUE: CodeUnits := [0x74, 0x72, 0x75, 0x65]
  const FALSE: CodeUnits := [0x66, 0x61, 0x6C, 0x73, 0x65]
  const NULL: CodeUnits := [0x6E, 0x75, 0x6C, 0x6C]

  /** A JSON value; a number is kept as its numeral, an object as its members in order. */
  datatype Json =
    | Null | Bool(b: bool) | Num(numeral: CodeUnits) | Str(s: CodeUnits)
    | Arr(items: seq<Json>) | Obj(members: seq<Member>)

  datatype Member = Member(key: CodeUnits, value: Json)

  predicate IsDigit(u: Unit) { 0x30 <= u <= 0x39 }

  // ---------------------------------------------------------------- numerals (section 6)

  predicate IsNumberUnit(u: Unit) {
    IsDigit(u) || u == 0x2B || u == 0x2D || u == 0x2E || u == 0x45 || u == 0x65
  }

  function Digits(s: CodeUnits): (n: nat)
    ensures n <= |s|
  {
    if s != [] && IsDigit(s[0]) then 1 + Digits(s[1..]) else 0
  }

  predicate IsExponent(s: CodeUnits) {
    s == [] ||
    ((s[0] == 0x45 || s[0] == 0x65) &&
     var t := if |s| > 1 && (s[1] == 0x2B || s[1] == 0x2D) then s[2..] else s[1..];
     t != [] && Digits(t) == |t|)
  }

  predicate IsFraction(s: CodeUnits) {
    if s != [] && s[0] == 0x2E then Digits(s[1..]) > 0 && IsExponent(s[1 + Digits(s[1..])..]) else IsExponent(s)
  }

  /** `-`? (0 | [1-9][0-9]*) (`.` [0-9]+)? ([eE] [+-]? [0-9]+)? */
  predicate IsNumeral(s: CodeUnits) {
    var t := if s != [] && s[0] == 0x2D then s[1..] else s;
    && Digits(t) > 0
    && (t[0] == 0x30 ==> Digits(t) == 1)
    && IsFraction(t[Digits(t)..])
  }

  function NumberRun(s: CodeUnits): (n: nat)
    ensures n <= |s| && forall i :: 0 <= i < n ==> IsNumberUnit(s[i])
    ensures n < |s| ==> !IsNumberUnit(s[n])
  {
    if s != [] && IsNumberUnit(s[0]) then 1 + NumberRun(s[1..]) else 0
  }

  // ---------------------------------------------------------------- parsing

  datatype Parsed<+T> = Fail | Done(value: T, rest: CodeUnits)

  predicate IsWs(u: Unit) { u == 0x20 || u == 0x09 || u == 0x0A || u == 0x0D }

  function SkipWs(s: CodeUnits): (r: CodeUnits)
    ensures |r| <= |s| && (r != [] ==> !IsWs(r[0]))
  {
    if s != [] && IsWs(s[0]) then SkipWs(s[1..]) else s
  }

  function HexValue(u: Unit): (h: int)
  {
    if IsDigit(u) then u - 0x30
    else if 0x61 <= u <= 0x66 then u - 0x61 + 10
    else if 0x41 <= u <= 0x46 then u - 0x41 + 10
    else -1
  }

  /** The unit a backslash escape denotes and its length, at the start of s; the length is 0 when there is none. */
  function Escape(s: CodeUnits): (e: (Unit, nat))
    ensures e.1 <= |s|
  {
    if |s| < 2 || s[0] != BACKSLASH then (0, 0)
    else if s[1] == QUOTE || s[1] == BACKSLASH || s[1] == 0x2F then (s[1], 2)
    else if s[1] == 0x62 then (0x08, 2)
    else if s[1] == 0x66 then (0x0C, 2)
    else if s[1] == 0x6E then (0x0A, 2)
    else if s[1] == 0x72 then (0x0D, 2)
    else if s[1] == 0x74 then (0x09, 2)
    else if s[1] == 0x75 && |s| >= 6 && HexValue(s[2]) >= 0 && HexValue(s[3]) >= 0 && HexValue(s[4]) >= 0 && HexValue(s[5]) >= 0 then
      (HexValue(s[2]) * 4096 + HexValue(s[3]) * 256 + HexValue(s[4]) * 16 + HexValue(s[5]), 6)
    else (0, 0)
  }

  /** The characters of a string literal after its opening quote (section 7). */
  function ParseChars(s: CodeUnits): (r: Parsed<CodeUnits>)
    ensures r.Done? ==> |r.rest| < |s|
  {
    if s == [] then Fail
    else if s[0] == QUOTE then Done([], s[1..])
    else
      var (unit, n) := if s[0] == BACKSLASH then Escape(s) else if s[0] < 0x20 then (0, 0) else (s[0], 1);
      if n == 0 then Fail
      else
        match ParseChars(s[n..])
        case Fail => Fail
        case Done(chars, rest) => Done([unit] + chars, rest)
  }

  function ParseString(s: CodeUnits): (r: Parsed<CodeUnits>)
    ensures r.Done? ==> |r.rest| < |s|
  {
    if s == [] || s[0] != QUOTE then Fail else ParseChars(s[1..])
  }

  function ParseScalar(s: CodeUnits): (r: Parsed<Json>)
  {
    if s == [] then Fail
    else if s[0] == QUOTE then
      match ParseString(s)
      case Fail => Fail
      case Done(t, rest) => Done(Str(t), rest)
    else if TRUE <= s then Done(Bool(true), s[4..])
    else if FALSE <= s then Done(Bool(false), s[5..])
    else if NULL <= s then Done(Null, s[4..])
    else
      var n := NumberRun(s);
      if n > 0 && IsNumeral(s[..n]) then Done(Num(s[..n]), s[n..]) else Fail
  }

  function ParseValue(text: CodeUnits): (r: Parsed<Json>)
    ensures r.Done? ==> |r.rest| < |text|
    decreases |text|, 0
  {
    var s := SkipWs(text);
    if s == [] then Fail
    else if s[0] == LBRACKET then
      var t := SkipWs(s[1..]);
      if t != [] && t[0] == RBRACKET then Done(Arr([]), t[1..])
      else
        match ParseElements(t)
        case Fail => Fail
        case Done(items, rest) => Done(Arr(items), rest)
    else if s[0] == LBRACE then
      var t := SkipWs(s[1..]);
      if t != [] && t[0] == RBRACE then Done(Obj([]), t[1..])
      else
        match ParseMembers(t)
        case Fail => Fail
        case Done(members, rest) => Done(Obj(members), rest)
    else ParseScalar(s)
  }

  /** One or more elements up to the closing bracket. */
  function ParseElements(text: CodeUnits): (r: Parsed<seq<Json>>)
    ensures r.Done? ==> |r.rest| < |text|
    decreases |text|, 1
  {
    match ParseValue(text)
    case Fail => Fail
    case Done(v, after) =>
      var t := SkipWs(after);
      if t == [] then Fail
      else if t[0] == RBRACKET then Done([v], t[1..])
      else if t[0] != COMMA then Fail
      else
        match ParseElements(t[1..])
        case Fail => Fail
        case Done(items, rest) => Done([v] + items, rest)
  }

  /** One or more members up to the closing brace. */
  function ParseMembers(text: CodeUnits): (r: Parsed<seq<Member>>)
    ensures r.Done? ==> |r.rest| < |text|
    decreases |text|, 1
  {
    match ParseMember(text)
    case Fail => Fail
    case Done(m, after) =>
      var t := SkipWs(after);
      if t == [] then Fail
      else if t[0] == RBRACE then Done([m], t[1..])
      else if t[0] != COMMA then Fail
      else
        match ParseMembers(t[1..])
        case Fail => Fail
        case Done(members, rest) => Done([m] + members, rest)
  }

  function ParseMember(text: CodeUnits): (r: Parsed<Member>)
    ensures r.Done? ==> |r.rest| < |text|
    decreases |text|, 0
  {
    match ParseString(SkipWs(text))
    case Fail => Fail
    case Done(key, after) =>
      var t := SkipWs(after);
      if t == [] || t[0] != COLON then Fail
      else
        match ParseValue(t[1..])
        case Fail => Fail
        case Done(v, rest) => Done(Member(key, v), rest)
  }

  /** `JSON.parse`: a value and nothing but white space after it. */
  function Parse(text: CodeUnits): Parsed<Json> {
    match ParseValue(text)
    case Fail => Fail
    case Done(v, rest) => if SkipWs(rest) == [] then Done(v, []) else Fail
  }

  // ---------------------------------------------------------------- JSON.stringify

  function HexUnit(h: nat): Unit
    requires h < 16
  {
    if h < 10 then 0x30 + h else 0x61 + h - 10
  }

  function UnicodeEscape(u: Unit): CodeUnits {
    [BACKSLASH, 0x75, HexUnit(u / 4096), HexUnit(u / 256 % 16), HexUnit(u / 16 % 16), HexUnit(u % 16)]
  }

  predicate IsLead(u: Unit) { 0xD800 <= u < 0xDC00 }

  predicate IsTrail(u: Unit) { 0xDC00 <= u < 0xE000 }

  function QuoteUnit(u: Unit): CodeUnits {
    if u == QUOTE || u == BACKSLASH then [BACKSLASH, u]
    else if u == 0x08 then [BACKSLASH, 0x62]
    else if u == 0x0C then [BACKSLASH, 0x66]
    else if u == 0x0A then [BACKSLASH, 0x6E]
    else if u == 0x0D then [BACKSLASH, 0x72]
    else if u == 0x09 then [BACKSLASH, 0x74]
    else if u < 0x20 || IsLead(u) || IsTrail(u) then UnicodeEscape(u)
    else [u]
  }

  /** QuoteJSONString without its quotes: surrogate pairs stand as they are, lone surrogates are escaped. */
  function Quoted(s: CodeUnits): CodeUnits {
    if s == [] then []
    else if |s| > 1 && IsLead(s[0]) && IsTrail(s[1]) then s[..2] + Quoted(s[2..])
    else QuoteUnit(s[0]) + Quoted(s[1..])
  }

  function StringText(s: CodeUnits): CodeUnits { [QUOTE] + Quoted(s) + [QUOTE] }

  function Stringify(v: Json): CodeUnits
    decreases v, 0
  {
    match v
    case Null => NULL
    case Bool(b) => if b then TRUE else FALSE
    case Num(numeral) => numeral
    case Str(s) => StringText(s)
    case Arr(items) => [LBRACKET] + Elements(items) + [RBRACKET]
    case Obj(members) => [LBRACE] + Members(members) + [RBRACE]
  }

  function Elements(items: seq<Json>): CodeUnits
    decreases items, 1
  {
    if items == [] then []
    else Stringify(items[0]) + (if |items| == 1 then [] else [COMMA] + Elements(items[1..]))
  }

  function Members(members: seq<Member>): CodeUnits
    decreases members, 1
  {
    if members == [] then []
    else StringText(members[0].key) + [COLON] + Stringify(members[0].value)
         + (if |members| == 1 then [] else [COMMA] + Members(members[1..]))
  }

  /** Every number is printed as a JSON numeral, which String(n) is for a finite n. */
  predicate Printable(v: Json) {
    match v
    case Num(numeral) => IsNumeral(numeral)
    case Arr(items) => (forall v :: v in items ==> Printable(v))
    case Obj(members) => (forall m :: m in members ==> Printable(m.value))
    case _ => true
  }

  // ---------------------------------------------------------------- the three replacements

  function ReplaceUnit(s: CodeUnits, u: Unit, w: CodeUnits): CodeUnits {
    if s == [] then [] else (if s[0] == u then w else [s[0]]) + ReplaceUnit(s[1..], u, w)
  }

  /** The three `replace` calls in order. */
  function Hardened(json: CodeUnits): CodeUnits {
    ReplaceUnit(ReplaceUnit(ReplaceUnit(json, LESS, UnicodeEscape(LESS)),
                            0x2028, UnicodeEscape(0x2028)), 0x2029, UnicodeEscape(0x2029))
  }

  predicate IsUnsafe(u: Unit) { u == LESS || u == 0x2028 || u == 0x2029 }

  function Safe(u: Unit): CodeUnits { if IsUnsafe(u) then UnicodeEscape(u) else [u] }

  /** The same in one pass. */
  function Harden(s: CodeUnits): CodeUnits {
    if s == [] then [] else Safe(s[0]) + Harden(s[1..])
  }

  lemma {:induction false} ReplaceConcat(s: CodeUnits, t: CodeUnits, u: Unit, w: CodeUnits)
    ensures ReplaceUnit(s + t, u, w) == ReplaceUnit(s, u, w) + ReplaceUnit(t, u, w)
  {
    if s == [] {
      assert s + t == t;
    } else {
      assert (s + t)[1..] == s[1..] + t;
      ReplaceConcat(s[1..], t, u, w);
    }
  }

  lemma {:induction false} ReplaceAbsent(s: CodeUnits, u: Unit, w: CodeUnits)
    requires u !in s
    ensures ReplaceUnit(s, u, w) == s
  {
    if s != [] { ReplaceAbsent(s[1..], u, w); }
  }

  /** None of the replacement texts is touched by a later call. */
  lemma {:induction false} HardenedIsHarden(s: CodeUnits)
    ensures Hardened(s) == Harden(s)
  {
    if s != [] {
      HardenedIsHarden(s[1..]);
      var w1, w2, w3 := UnicodeEscape(LESS), UnicodeEscape(0x2028), UnicodeEscape(0x2029);
      var a, r := if s[0] == LESS then w1 else [s[0]], ReplaceUnit(s[1..], LESS, w1);
      ReplaceConcat(a, r, 0x2028, w2);
      var a', r' := ReplaceUnit(a, 0x2028, w2), ReplaceUnit(r, 0x2028, w2);
      ReplaceConcat(a', r', 0x2029, w3);
      OneUnit(s[0]);
    }
  }

  lemma OneUnit(u: Unit)
    ensures var a := if u == LESS then UnicodeEscape(LESS) else [u];
            ReplaceUnit(ReplaceUnit(a, 0x2028, UnicodeEscape(0x2028)), 0x2029, UnicodeEscape(0x2029)) == Safe(u)
  {
    hide UnicodeEscape;
    var w2, w3 := UnicodeEscape(0x2028), UnicodeEscape(0x2029);
    var a := if u == LESS then UnicodeEscape(LESS) else [u];
    EscapeAscii(LESS);
    EscapeAscii(0x2028);
    if u == 0x2028 {
      SingleReplaced(u, w2);
      ReplaceAbsent(w2, 0x2029, w3);
    } else {
      ReplaceAbsent(a, 0x2028, w2);
      if u == 0x2029 { SingleReplaced(u, w3); } else { ReplaceAbsent(a, 0x2029, w3); }
    }
  }

  lemma SingleReplaced(u: Unit, w: CodeUnits)
    ensures ReplaceUnit([u], u, w) == w
  {
    assert ReplaceUnit([u], u, w) == w + [];
  }

  lemma EscapeAscii(u: Unit)
    ensures forall x :: x in UnicodeEscape(u) ==> x < 0x80
  {
  }

  lemma {:induction false} HardenConcat(s: CodeUnits, t: CodeUnits)
    ensures Harden(s + t) == Harden(s) + Harden(t)
  {
    if s == [] {
      assert s + t == t;
    } else {
      assert (s + t)[1..] == s[1..] + t;
      HardenConcat(s[1..], t);
    }
  }

  /** Each `<` becomes `\u003c`, the two separators `\u2028` and `\u2029`, and every other unit stays. */
  lemma HardenedAt(s: CodeUnits, u: Unit, t: CodeUnits)
    ensures Hardened([]) == []
    ensures Hardened(s + [u] + t) == Hardened(s) + (
      if u == 0x3C then [0x5C, 0x75, 0x30, 0x30, 0x33, 0x63]
      else if u == 0x2028 then [0x5C, 0x75, 0x32, 0x30, 0x32, 0x38]
      else if u == 0x2029 then [0x5C, 0x75, 0x32, 0x30, 0x32, 0x39]
      else [u]) + Hardened(t)
  {
    hide Harden, Hardened;
    HardenedIsHarden([]);
    HardenedIsHarden(s);
    HardenedIsHarden(t);
    HardenedIsHarden(s + [u] + t);
    HardenConcat(s + [u], t);
    HardenConcat(s, [u]);
    HardenOne(u);
  }

  lemma HardenOne(u: Unit)
    ensures Harden([]) == [] && Harden([u]) == Safe(u)
  {
    assert [u][1..] == [];
    assert Safe(u) + [] == Safe(u);
  }

  lemma {:induction false} HardenIsSafe(s: CodeUnits)
    ensures forall i :: 0 <= i < |Harden(s)| ==> !IsUnsafe(Harden(s)[i])
  {
    if s != [] { HardenIsSafe(s[1..]); }
  }

  // ---------------------------------------------------------------- hardening keeps every parse

  lemma {:induction false} HardenPrefix(s: CodeUnits, n: nat)
    requires n <= |s| && forall i :: 0 <= i < n ==> !IsUnsafe(s[i])
    ensures Harden(s) == s[..n] + Harden(s[n..])
  {
    hide IsUnsafe, Harden;
    if n == 0 {
      assert s[0..] == s;
    } else {
      HardenFirst(s);
      HardenPrefix(s[1..], n - 1);
      assert s[1..][n - 1..] == s[n..];
      assert s[..n] == [s[0]] + s[1..][..n - 1];
    }
  }

  lemma HardenFirst(s: CodeUnits)
    requires s != []
    ensures Harden(s) != []
    ensures Harden(s)[0] == if IsUnsafe(s[0]) then BACKSLASH else s[0]
    ensures !IsUnsafe(s[0]) ==> Harden(s) == [s[0]] + Harden(s[1..]) && Harden(s)[1..] == Harden(s[1..])
  {
  }

  lemma {:induction false} SkipWsHarden(s: CodeUnits)
    ensures SkipWs(Harden(s)) == Harden(SkipWs(s))
  {
    if s != [] {
      HardenFirst(s);
      if IsWs(s[0]) { SkipWsHarden(s[1..]); }
    }
  }

  lemma HexRead(h: nat)
    requires h < 16
    ensures HexValue(HexUnit(h)) == h
  {
  }

  lemma HexDigits(u: Unit)
    ensures (u / 4096) * 4096 + (u / 256 % 16) * 256 + (u / 16 % 16) * 16 + u % 16 == u
  {
    var a := u / 16;
    var b := a / 16;
    assert u / 256 == b && u / 4096 == b / 16;
  }

  lemma EscapeRead(u: Unit, x: CodeUnits)
    ensures Escape(UnicodeEscape(u) + x) == (u, 6)
  {
    hide HexValue, HexUnit;
    HexRead(u / 4096);
    HexRead(u / 256 % 16);
    HexRead(u / 16 % 16);
    HexRead(u % 16);
    HexDigits(u);
    FourHex(UnicodeEscape(u) + x, u / 4096, u / 256 % 16, u / 16 % 16, u % 16);
  }

  lemma FourHex(s: CodeUnits, a: nat, b: nat, c: nat, d: nat)
    requires a < 16 && b < 16 && c < 16 && d < 16
    requires |s| >= 6 && s[0] == BACKSLASH && s[1] == 0x75
    requires HexValue(s[2]) == a && HexValue(s[3]) == b && HexValue(s[4]) == c && HexValue(s[5]) == d
    ensures Escape(s) == (a * 4096 + b * 256 + c * 16 + d, 6)
  {
    hide HexValue;
  }

  lemma EscapeUnits(s: CodeUnits, i: nat)
    requires i < Escape(s).1
    ensures !IsUnsafe(s[i])
  {
    if i >= 2 { assert HexValue(s[i]) >= 0; }
  }

  lemma EscapePrefix(s: CodeUnits, t: CodeUnits)
    requires Escape(s).1 > 0 && Escape(s).1 <= |t| && forall i :: 0 <= i < Escape(s).1 ==> t[i] == s[i]
    ensures Escape(t) == Escape(s)
  {
    hide HexValue;
  }

  lemma EscapeHarden(s: CodeUnits)
    requires s != [] && s[0] == BACKSLASH && Escape(s).1 > 0
    ensures Escape(Harden(s)) == Escape(s)
    ensures Harden(s) == s[..Escape(s).1] + Harden(s[Escape(s).1..])
  {
    hide Escape, Harden, IsUnsafe;
    var n := Escape(s).1;
    forall i | 0 <= i < n ensures !IsUnsafe(s[i]) { EscapeUnits(s, i); }
    HardenPrefix(s, n);
    EscapePrefix(s, Harden(s));
  }

  function Prepend(u: Unit, r: Parsed<CodeUnits>): Parsed<CodeUnits> {
    if r.Fail? then Fail else Done([u] + r.value, r.rest)
  }

  lemma CharsStep(s: CodeUnits)
    requires s != [] && s[0] != QUOTE
    requires if s[0] == BACKSLASH then Escape(s).1 > 0 else s[0] >= 0x20
    ensures var (u, n) := if s[0] == BACKSLASH then Escape(s) else (s[0], 1);
            ParseChars(s) == Prepend(u, ParseChars(s[n..]))
  {
  }

  lemma {:induction false} CharsHarden(s: CodeUnits)
    requires ParseChars(s).Done?
    ensures ParseChars(Harden(s)) == Done(ParseChars(s).value, Harden(ParseChars(s).rest))
    decreases |s|
  {
    hide Escape, UnicodeEscape;
    HardenFirst(s);
    var h := Harden(s);
    if s[0] == QUOTE {
    } else if s[0] == BACKSLASH {
      var n := Escape(s).1;
      CharsStep(s);
      CharsHarden(s[n..]);
      EscapeHarden(s);
      CharsStep(h);
      assert h[n..] == Harden(s[n..]);
    } else {
      CharsStep(s);
      CharsHarden(s[1..]);
      if IsUnsafe(s[0]) {
        UnsafeChars(s);
      } else {
        CharsStep(h);
      }
    }
  }

  lemma UnsafeChars(s: CodeUnits)
    requires s != [] && IsUnsafe(s[0])
    ensures ParseChars(Harden(s)) == Prepend(s[0], ParseChars(Harden(s[1..])))
  {
    hide Escape, Harden;
    var h := UnicodeEscape(s[0]) + Harden(s[1..]);
    assert Harden(s) == h by { HardenUnsafe(s); }
    EscapeRead(s[0], Harden(s[1..]));
    CharsStep(h);
    assert h[6..] == Harden(s[1..]);
  }

  lemma HardenUnsafe(s: CodeUnits)
    requires s != [] && IsUnsafe(s[0])
    ensures Harden(s) == UnicodeEscape(s[0]) + Harden(s[1..])
  {
  }

  lemma StringHarden(s: CodeUnits)
    requires ParseString(s).Done?
    ensures ParseString(Harden(s)) == Done(ParseString(s).value, Harden(ParseString(s).rest))
  {
    HardenFirst(s);
    CharsHarden(s[1..]);
  }

  lemma RunHarden(s: CodeUnits)
    ensures NumberRun(Harden(s)) == NumberRun(s)
    ensures Harden(s) == s[..NumberRun(s)] + Harden(s[NumberRun(s)..])
  {
    var n := NumberRun(s);
    HardenPrefix(s, n);
    if n < |s| { HardenFirst(s[n..]); }
    RunIs(Harden(s), n);
  }

  lemma RunIs(s: CodeUnits, n: nat)
    requires n <= |s| && (forall i :: 0 <= i < n ==> IsNumberUnit(s[i])) && (n < |s| ==> !IsNumberUnit(s[n]))
    ensures NumberRun(s) == n
  {
  }

  lemma LiteralHarden(s: CodeUnits, w: CodeUnits)
    requires w <= s && forall i :: 0 <= i < |w| ==> !IsUnsafe(w[i])
    ensures Harden(s) == w + Harden(s[|w|..])
  {
    hide Harden, IsUnsafe;
    assert s[..|w|] == w;
    forall i | 0 <= i < |w| ensures !IsUnsafe(s[i]) { assert s[i] == w[i]; }
    HardenPrefix(s, |w|);
  }

  lemma ScalarHarden(s: CodeUnits)
    requires ParseScalar(s).Done?
    ensures ParseScalar(Harden(s)) == Done(ParseScalar(s).value, Harden(ParseScalar(s).rest))
  {
    hide ParseString, NumberRun, IsNumeral, Harden;
    HardenFirst(s);
    var h := Harden(s);
    if s[0] == QUOTE {
      StringHarden(s);
    } else if TRUE <= s {
      LiteralHarden(s, TRUE);
      assert h[4..] == Harden(s[4..]);
    } else if FALSE <= s {
      LiteralHarden(s, FALSE);
      assert h[0] == 0x66 && h[5..] == Harden(s[5..]);
    } else if NULL <= s {
      LiteralHarden(s, NULL);
      assert h[0] == 0x6E && h[4..] == Harden(s[4..]);
    } else {
      var n := NumberRun(s);
      RunHarden(s);
      assert IsNumberUnit(s[0]) && h[0] == s[0];
      assert h[..n] == s[..n] && h[n..] == Harden(s[n..]);
    }
  }

  lemma {:induction false} ValueHarden(text: CodeUnits)
    requires ParseValue(text).Done?
    ensures ParseValue(Harden(text)) == Done(ParseValue(text).value, Harden(ParseValue(text).rest))
    decreases |text|, 0
  {
    hide ParseScalar, ParseElements, ParseMembers, Harden, SkipWs;
    var s := SkipWs(text);
    SkipWsHarden(text);
    HardenFirst(s);
    if s[0] == LBRACKET || s[0] == LBRACE {
      var t := SkipWs(s[1..]);
      SkipWsHarden(s[1..]);
      if t == [] {
        HardenEmpty();
      } else {
        HardenFirst(t);
      }
      if s[0] == LBRACKET {
        if t == [] || t[0] != RBRACKET { ElementsHarden(t); }
      } else {
        if t == [] || t[0] != RBRACE { MembersHarden(t); }
      }
    } else {
      ScalarHarden(s);
    }
  }

  lemma HardenEmpty()
    ensures Harden([]) == []
  {
  }

  lemma {:induction false} ElementsHarden(text: CodeUnits)
    requires ParseElements(text).Done?
    ensures ParseElements(Harden(text)) == Done(ParseElements(text).value, Harden(ParseElements(text).rest))
    decreases |text|, 1
  {
    hide ParseValue, Harden, SkipWs;
    ValueHarden(text);
    var t := SkipWs(ParseValue(text).rest);
    SkipWsHarden(ParseValue(text).rest);
    HardenFirst(t);
    if t[0] == COMMA { ElementsHarden(t[1..]); }
  }

  lemma {:induction false} MembersHarden(text: CodeUnits)
    requires ParseMembers(text).Done?
    ensures ParseMembers(Harden(text)) == Done(ParseMembers(text).value, Harden(ParseMembers(text).rest))
    decreases |text|, 1
  {
    hide ParseMember, Harden, SkipWs;
    MemberHarden(text);
    var t := SkipWs(ParseMember(text).rest);
    SkipWsHarden(ParseMember(text).rest);
    HardenFirst(t);
    if t[0] == COMMA { MembersHarden(t[1..]); }
  }

  lemma {:induction false} MemberHarden(text: CodeUnits)
    requires ParseMember(text).Done?
    ensures ParseMember(Harden(text)) == Done(ParseMember(text).value, Harden(ParseMember(text).rest))
    decreases |text|, 0
  {
    hide ParseString, ParseValue, Harden, SkipWs;
    SkipWsHarden(text);
    StringHarden(SkipWs(text));
    var after := ParseString(SkipWs(text)).rest;
    SkipWsHarden(after);
    HardenFirst(SkipWs(after));
    ValueHarden(SkipWs(after)[1..]);
  }

  /** Whatever JSON text it is given, however it was spaced or escaped, the rewriting leaves a text
      that parses to the same value and holds none of the three characters. */
  lemma HardeningPreservesParse(text: CodeUnits)
    requires Parse(text).Done?
    ensures Parse(Hardened(text)) == Parse(text)
    ensures 0x3C !in Hardened(text) && 0x2028 !in Hardened(text) && 0x2029 !in Hardened(text)
  {
    hide ParseValue, Harden, Hardened, SkipWs;
    HardenedIsHarden(text);
    HardenIsSafe(text);
    ValueHarden(text);
    SkipWsHarden(ParseValue(text).rest);
    HardenEmpty();
  }

  // ---------------------------------------------------------------- parsing undoes printing

  lemma DigitUnits(s: CodeUnits)
    ensures forall i :: 0 <= i < Digits(s) ==> IsNumberUnit(s[i])
  {
    if s != [] && IsDigit(s[0]) { DigitUnits(s[1..]); }
  }

  lemma ExponentUnits(s: CodeUnits)
    requires IsExponent(s)
    ensures forall i :: 0 <= i < |s| ==> IsNumberUnit(s[i])
  {
    if s != [] {
      var signed := |s| > 1 && (s[1] == 0x2B || s[1] == 0x2D);
      var k := if signed then 2 else 1;
      var t := s[k..];
      DigitUnits(t);
      forall i | 0 <= i < |s| ensures IsNumberUnit(s[i]) {
        if i >= k { assert s[i] == t[i - k]; }
      }
    }
  }

  lemma Units(s: CodeUnits, k: nat)
    requires k <= |s|
    requires forall i :: 0 <= i < k ==> IsNumberUnit(s[i])
    requires forall i :: 0 <= i < |s[k..]| ==> IsNumberUnit(s[k..][i])
    ensures forall i :: 0 <= i < |s| ==> IsNumberUnit(s[i])
  {
    forall i | 0 <= i < |s| ensures IsNumberUnit(s[i]) {
      if i >= k { assert s[i] == s[k..][i - k]; }
    }
  }

  lemma FractionUnits(s: CodeUnits)
    requires IsFraction(s)
    ensures forall i :: 0 <= i < |s| ==> IsNumberUnit(s[i])
  {
    if s != [] && s[0] == 0x2E {
      var t := s[1..];
      DigitUnits(t);
      assert s[1 + Digits(t)..] == t[Digits(t)..];
      ExponentUnits(t[Digits(t)..]);
      Units(t, Digits(t));
      Units(s, 1);
    } else {
      ExponentUnits(s);
    }
  }

  lemma NumeralUnits(s: CodeUnits)
    requires IsNumeral(s)
    ensures s != [] && forall i :: 0 <= i < |s| ==> IsNumberUnit(s[i])
  {
    hide IsFraction;
    var k := if s != [] && s[0] == 0x2D then 1 else 0;
    var t := s[k..];
    DigitUnits(t);
    FractionUnits(t[Digits(t)..]);
    Units(t, Digits(t));
    Units(s, k);
  }

  lemma QuoteUnitRead(u: Unit, x: CodeUnits)
    ensures ParseChars(QuoteUnit(u) + x) == Prepend(u, ParseChars(x))
  {
    hide UnicodeEscape, ParseChars, Escape;
    var q := QuoteUnit(u);
    EscapeShape(u);
    if |q| == 1 {
      PlainRead(u, x);
    } else if q == UnicodeEscape(u) {
      EscapeRead(u, x);
      EscapedRead(q, u, x);
    } else {
      ShortEscape(u, x);
      EscapedRead(q, u, x);
    }
  }

  lemma PlainRead(u: Unit, x: CodeUnits)
    requires QuoteUnit(u) == [u]
    ensures ParseChars([u] + x) == Prepend(u, ParseChars(x))
  {
    hide UnicodeEscape;
    EscapeShape(u);
    var s := [u] + x;
    assert s[1..] == x;
    CharsStep(s);
  }

  lemma EscapedRead(q: CodeUnits, u: Unit, x: CodeUnits)
    requires q != [] && q[0] == BACKSLASH && Escape(q + x) == (u, |q|)
    ensures ParseChars(q + x) == Prepend(u, ParseChars(x))
  {
    hide Escape, ParseChars;
    assert (q + x)[|q|..] == x;
    CharsStep(q + x);
  }

  lemma ShortEscape(u: Unit, x: CodeUnits)
    requires |QuoteUnit(u)| > 1 && QuoteUnit(u) != UnicodeEscape(u)
    ensures |QuoteUnit(u)| == 2 && QuoteUnit(u)[0] == BACKSLASH && Escape(QuoteUnit(u) + x) == (u, 2)
  {
    hide UnicodeEscape;
  }

  lemma EscapeShape(u: Unit)
    ensures |UnicodeEscape(u)| == 6 && UnicodeEscape(u)[0] == BACKSLASH
  {
  }

  lemma PairRead(a: Unit, b: Unit, x: CodeUnits)
    requires IsLead(a) && IsTrail(b)
    ensures ParseChars([a, b] + x) == Prepend(a, Prepend(b, ParseChars(x)))
  {
    var s := [a, b] + x;
    assert s[1..] == [b] + x && ([b] + x)[1..] == x;
    CharsStep(s);
    CharsStep([b] + x);
  }

  lemma {:induction false} CharsRead(s: CodeUnits, rest: CodeUnits)
    ensures ParseChars(Quoted(s) + ([QUOTE] + rest)) == Done(s, rest)
    decreases |s|
  {
    hide QuoteUnit, ParseChars;
    var tail := [QUOTE] + rest;
    if s == [] {
      assert Quoted(s) + tail == tail;
      ClosingQuote(rest);
    } else if |s| > 1 && IsLead(s[0]) && IsTrail(s[1]) {
      CharsRead(s[2..], rest);
      PairRead(s[0], s[1], Quoted(s[2..]) + tail);
      TextSplit(s[..2], Quoted(s[2..]), tail);
      assert s[..2] == [s[0], s[1]];
      assert [s[0]] + ([s[1]] + s[2..]) == s;
    } else {
      CharsRead(s[1..], rest);
      QuoteUnitRead(s[0], Quoted(s[1..]) + tail);
      TextSplit(QuoteUnit(s[0]), Quoted(s[1..]), tail);
      assert [s[0]] + s[1..] == s;
    }
  }

  lemma TextSplit(a: CodeUnits, b: CodeUnits, c: CodeUnits)
    ensures (a + b) + c == a + (b + c)
  {
  }

  lemma ClosingQuote(rest: CodeUnits)
    ensures ParseChars([QUOTE] + rest) == Done([], rest)
  {
    assert ([QUOTE] + rest)[1..] == rest;
  }

  lemma StringRead(s: CodeUnits, rest: CodeUnits)
    ensures ParseString(StringText(s) + rest) == Done(s, rest)
  {
    hide ParseChars, Quoted;
    CharsRead(s, rest);
    var t := StringText(s) + rest;
    assert t[1..] == Quoted(s) + ([QUOTE] + rest);
  }

  lemma NoWs(s: CodeUnits)
    requires s != [] && !IsWs(s[0])
    ensures SkipWs(s) == s
  {
  }

  /** A printed value opens with a character that is neither white space nor a closing bracket. */
  lemma PrintedStart(v: Json)
    requires Printable(v)
    ensures var t := Stringify(v);
            t != [] && !IsWs(t[0]) && t[0] != RBRACKET
            && (t[0] == LBRACKET <==> v.Arr?) && (t[0] == LBRACE <==> v.Obj?)
  {
    if v.Num? { NumeralUnits(v.numeral); }
  }

  lemma ScalarRead(v: Json, rest: CodeUnits)
    requires Printable(v) && !v.Arr? && !v.Obj? && (rest != [] ==> !IsNumberUnit(rest[0]))
    ensures ParseScalar(Stringify(v) + rest) == Done(v, rest)
  {
    hide ParseString, StringText, NumberRun, IsNumeral;
    var s := Stringify(v) + rest;
    match v
    case Str(t) => StringRead(t, rest); QuoteFirst(t);
    case Num(numeral) =>
      NumeralUnits(numeral);
      RunIs(s, |numeral|);
      assert s[..|numeral|] == numeral && s[|numeral|..] == rest;
      assert IsNumberUnit(s[0]);
    case Bool(b) => if b { assert s[4..] == rest; } else { assert s[0] == 0x66 && s[5..] == rest; }
    case Null => assert s[0] == 0x6E && s[4..] == rest;
  }

  lemma QuoteFirst(t: CodeUnits)
    ensures StringText(t) != [] && StringText(t)[0] == QUOTE
  {
  }

  lemma {:induction false} ValueRead(v: Json, rest: CodeUnits)
    requires Printable(v) && (rest != [] ==> !IsNumberUnit(rest[0]))
    ensures ParseValue(Stringify(v) + rest) == Done(v, rest)
    decreases v, 0
  {
    hide ParseScalar, ParseElements, ParseMembers, Elements, Members, SkipWs;
    var text := Stringify(v) + rest;
    PrintedStart(v);
    NoWs(text);
    match v
    case Arr(items) =>
      var t := Elements(items) + ([RBRACKET] + rest);
      assert text[1..] == t;
      if items == [] {
        NothingPrinted();
        assert t == [RBRACKET] + rest;
        NoWs(t);
        assert t[1..] == rest;
      } else {
        ElementsRead(items, rest);
        ElementsStart(items);
        NoWs(t);
      }
    case Obj(members) =>
      var t := Members(members) + ([RBRACE] + rest);
      assert text[1..] == t;
      if members == [] {
        NothingPrinted();
        assert t == [RBRACE] + rest;
        NoWs(t);
        assert t[1..] == rest;
      } else {
        MembersRead(members, rest);
        MembersStart(members);
        NoWs(t);
      }
    case _ => ScalarRead(v, rest);
  }

  lemma NothingPrinted()
    ensures Elements([]) == [] && Members([]) == []
  {
  }

  lemma ElementsStart(items: seq<Json>)
    requires items != [] && Printable(items[0])
    ensures Elements(items) != [] && !IsWs(Elements(items)[0]) && Elements(items)[0] != RBRACKET
  {
    hide Stringify;
    PrintedStart(items[0]);
  }

  lemma MembersStart(members: seq<Member>)
    requires members != []
    ensures Members(members) != [] && Members(members)[0] == QUOTE
  {
    hide Stringify;
  }

  lemma LastElement(text: CodeUnits, v: Json, rest: CodeUnits)
    requires ParseValue(text) == Done(v, [RBRACKET] + rest)
    ensures ParseElements(text) == Done([v], rest)
  {
    hide ParseValue, SkipWs;
    NoWs([RBRACKET] + rest);
    assert ([RBRACKET] + rest)[1..] == rest;
  }

  lemma NextElement(text: CodeUnits, v: Json, more: CodeUnits, items: seq<Json>, rest: CodeUnits)
    requires ParseValue(text) == Done(v, [COMMA] + more) && ParseElements(more) == Done(items, rest)
    ensures ParseElements(text) == Done([v] + items, rest)
  {
    hide ParseValue, SkipWs;
    NoWs([COMMA] + more);
    assert ([COMMA] + more)[1..] == more;
  }

  lemma ElementsText(items: seq<Json>, tail: CodeUnits)
    requires items != []
    ensures Elements(items) + tail
         == Stringify(items[0]) + (if |items| == 1 then tail else [COMMA] + (Elements(items[1..]) + tail))
  {
    hide Stringify;
    if |items| > 1 {
      var more := Elements(items[1..]);
      TextSplit(Stringify(items[0]), [COMMA] + more, tail);
      TextSplit([COMMA], more, tail);
    }
  }

  lemma {:induction false} ElementsRead(items: seq<Json>, rest: CodeUnits)
    requires items != [] && forall v :: v in items ==> Printable(v)
    ensures ParseElements(Elements(items) + ([RBRACKET] + rest)) == Done(items, rest)
    decreases items, 1
  {
    hide ParseValue, ParseElements, Stringify, Printable, Elements;
    var v, tail := items[0], [RBRACKET] + rest;
    var text := Elements(items) + tail;
    ElementsText(items, tail);
    if |items| == 1 {
      ValueRead(v, tail);
      LastElement(text, v, rest);
      assert items == [v];
    } else {
      var more := Elements(items[1..]) + tail;
      assert forall x :: x in items[1..] ==> x in items;
      ElementsRead(items[1..], rest);
      ValueRead(v, [COMMA] + more);
      NextElement(text, v, more, items[1..], rest);
      assert items == [v] + items[1..];
    }
  }

  lemma {:induction false} MemberRead(m: Member, rest: CodeUnits)
    requires Printable(m.value) && (rest != [] ==> !IsNumberUnit(rest[0]))
    ensures ParseMember(MemberText(m) + rest) == Done(m, rest)
    decreases m, 0
  {
    hide ParseValue, ParseString, Stringify, StringText, SkipWs, Printable;
    var after := [COLON] + (Stringify(m.value) + rest);
    var text := MemberText(m) + rest;
    assert text == StringText(m.key) + after;
    QuoteFirst(m.key);
    NoWs(text);
    StringRead(m.key, after);
    NoWs(after);
    assert after[1..] == Stringify(m.value) + rest;
    ValueRead(m.value, rest);
  }

  function MemberText(m: Member): CodeUnits { StringText(m.key) + [COLON] + Stringify(m.value) }

  lemma MembersText(members: seq<Member>, tail: CodeUnits)
    requires members != []
    ensures Members(members) + tail
         == MemberText(members[0]) + (if |members| == 1 then tail else [COMMA] + (Members(members[1..]) + tail))
  {
    hide Stringify, StringText;
    if |members| > 1 {
      var more := Members(members[1..]);
      TextSplit(MemberText(members[0]), [COMMA] + more, tail);
      TextSplit([COMMA], more, tail);
    }
  }

  lemma LastMember(text: CodeUnits, m: Member, rest: CodeUnits)
    requires ParseMember(text) == Done(m, [RBRACE] + rest)
    ensures ParseMembers(text) == Done([m], rest)
  {
    hide ParseMember, SkipWs;
    NoWs([RBRACE] + rest);
    assert ([RBRACE] + rest)[1..] == rest;
  }

  lemma NextMember(text: CodeUnits, m: Member, more: CodeUnits, members: seq<Member>, rest: CodeUnits)
    requires ParseMember(text) == Done(m, [COMMA] + more) && ParseMembers(more) == Done(members, rest)
    ensures ParseMembers(text) == Done([m] + members, rest)
  {
    hide ParseMember, SkipWs;
    NoWs([COMMA] + more);
    assert ([COMMA] + more)[1..] == more;
  }

  lemma {:induction false} MembersRead(members: seq<Member>, rest: CodeUnits)
    requires members != [] && forall m :: m in members ==> Printable(m.value)
    ensures ParseMembers(Members(members) + ([RBRACE] + rest)) == Done(members, rest)
    decreases members, 1
  {
    hide ParseMember, ParseMembers, Stringify, StringText, Printable, Members, MemberText;
    var m, tail := members[0], [RBRACE] + rest;
    var text := Members(members) + tail;
    MembersText(members, tail);
    if |members| == 1 {
      MemberRead(m, tail);
      LastMember(text, m, rest);
      assert members == [m];
    } else {
      var more := Members(members[1..]) + tail;
      assert forall x :: x in members[1..] ==> x in members;
      MembersRead(members[1..], rest);
      MemberRead(m, [COMMA] + more);
      NextMember(text, m, more, members[1..], rest);
      assert members == [m] + members[1..];
    }
  }

  lemma ParseInvertsStringify(v: Json)
    requires Printable(v)
    ensures Parse(Stringify(v)) == Done(v, [])
  {
    hide ParseValue, Stringify;
    ValueRead(v, []);
    assert Stringify(v) + [] == Stringify(v);
  }

  /** What the page embeds reads back as the value it was given, and cannot close the script element. */
  lemma JsonScriptPreservesData(v: Json)
    requires Printable(v)
    ensures Parse(Hardened(Stringify(v))) == Done(v, [])
    ensures var text := Hardened(Stringify(v)); 0x3C !in text && 0x2028 !in text && 0x2029 !in text
  {
    hide Parse, Stringify, Hardened;
    ParseInvertsStringify(v);
    HardeningPreservesParse(Stringify(v));
  }
}