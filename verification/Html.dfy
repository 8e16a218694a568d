/** src/http/html.ts: escaping and nested interpolation. */
module Html {

  /** The five replacements; every other character stands for itself. */
  function Entity(c: char): string {
    match c
    case '&' => "&amp;"
    case '<' => "&lt;"
    case '>' => "&gt;"
    case '"' => "&quot;"
    case '\'' => "&#39;"
    case _ => [c]
  }

  function EscapeHtml(s: string): string {
    if s == [] then [] else Entity(s[0]) + EscapeHtml(s[1..])
  }

  /** The inverse reading: entities are replaced in one pass from the left. */
  function Unescape(s: string): string {
    if s == [] then []
    else if "&amp;" <= s then "&" + Unescape(s[5..])
    else if "&lt;" <= s then "<" + Unescape(s[4..])
    else if "&gt;" <= s then ">" + Unescape(s[4..])
    else if "&quot;" <= s then "\"" + Unescape(s[6..])
    else if "&#39;" <= s then "'" + Unescape(s[5..])
    else [s[0]] + Unescape(s[1..])
  }

  lemma {:induction false} UnescapeInvertsEscape(s: string)
    ensures Unescape(EscapeHtml(s)) == s
  {
    if s != [] {
      var e, rest := Entity(s[0]), EscapeHtml(s[1..]);
      UnescapeInvertsEscape(s[1..]);
      assert (e + rest)[..|e|] == e && (e + rest)[|e|..] == rest;
      UnescapeEntity(s[0], rest);
    }
  }

  /** The entity at the start of a text is known by its second character. */
  lemma EntityStarts(s: string)
    ensures "&amp;" <= s || "&lt;" <= s || "&gt;" <= s || "&quot;" <= s || "&#39;" <= s ==> |s| > 1 && s[0] == '&'
    ensures "&amp;" <= s ==> s[1] == 'a'
    ensures "&lt;" <= s ==> s[1] == 'l'
    ensures "&gt;" <= s ==> s[1] == 'g'
    ensures "&quot;" <= s ==> s[1] == 'q'
    ensures "&#39;" <= s ==> s[1] == '#'
  {
  }

  lemma UnescapeEntity(c: char, rest: string)
    ensures Unescape(Entity(c) + rest) == [c] + Unescape(rest)
  {
    var e := Entity(c);
    var s := e + rest;
    EntityStarts(s);
    assert e <= s && s[0] == e[0];
    if s[0] == '&' { assert s[1] == e[1]; }
    if c == '&' {
      assert s[5..] == rest;
    } else if c == '<' || c == '>' {
      assert s[4..] == rest;
    } else if c == '"' {
      assert s[6..] == rest;
    } else if c == '\'' {
      assert s[5..] == rest;
    } else {
      assert s[1..] == rest;
    }
  }

  lemma {:induction false} EscapeConcat(s: string, t: string)
    ensures EscapeHtml(s + t) == EscapeHtml(s) + EscapeHtml(t)
  {
    if s == [] {
      assert s + t == t;
    } else {
      assert (s + t)[1..] == s[1..] + t;
      EscapeConcat(s[1..], t);
    }
  }

  // ---------------------------------------------------------------- interpolation

  datatype Interp =
    | Null | Undefined | Bool(b: bool)
    | Str(s: string) | Num(text: string)
    | Safe(value: string)
    | List(items: seq<Interp>)

  function Render(v: Interp): string
    decreases v, 0
  {
    match v
    case Null => ""
    case Undefined => ""
    case Bool(b) => if b then "true" else ""
    case Safe(value) => value
    case List(items) => RenderAll(items)
    case Str(s) => EscapeHtml(s)
    case Num(text) => EscapeHtml(text)
  }

  function RenderAll(items: seq<Interp>): string
    decreases items, 1
  {
    if items == [] then [] else Render(items[0]) + RenderAll(items[1..])
  }

  /** What the template puts out from piece i on: each literal, then the value after it if there is one. */
  function Assembled(strings: seq<string>, values: seq<Interp>, i: nat): string
    requires i <= |strings|
    decreases |strings| - i
  {
    if i == |strings| then []
    else strings[i] + (if i < |values| then Render(values[i]) else "") + Assembled(strings, values, i + 1)
  }

  method Html(strings: seq<string>, values: seq<Interp>) returns (out: string)
    ensures out == Assembled(strings, values, 0)
  {
    out := "";
    for i := 0 to |strings|
      invariant out + Assembled(strings, values, i) == Assembled(strings, values, 0)
    {
      out := out + strings[i];
      if i < |values| { out := out + Render(values[i]); }
    }
  }

  // ---------------------------------------------------------------- markup

  predicate IsMarkup(c: char) { c == '<' || c == '>' || c == '"' || c == '\'' }

  /** The characters of s that open or close a tag or an attribute value, in order. */
  function Markup(s: string): string {
    if s == [] then [] else (if IsMarkup(s[0]) then [s[0]] else []) + Markup(s[1..])
  }

  /** The markup a value may contribute: that of its SafeHtml parts, in order. */
  function Trusted(v: Interp): string
    decreases v, 0
  {
    match v
    case Safe(value) => Markup(value)
    case List(items) => TrustedAll(items)
    case _ => ""
  }

  function TrustedAll(items: seq<Interp>): string
    decreases items, 1
  {
    if items == [] then [] else Trusted(items[0]) + TrustedAll(items[1..])
  }

  function TrustedMarkup(strings: seq<string>, values: seq<Interp>, i: nat): string
    requires i <= |strings|
    decreases |strings| - i
  {
    if i == |strings| then []
    else Markup(strings[i]) + (if i < |values| then Trusted(values[i]) else "") + TrustedMarkup(strings, values, i + 1)
  }

  lemma {:induction false} MarkupConcat(s: string, t: string)
    ensures Markup(s + t) == Markup(s) + Markup(t)
  {
    if s == [] {
      assert s + t == t;
    } else {
      assert (s + t)[1..] == s[1..] + t;
      MarkupConcat(s[1..], t);
      var a, b := Markup(s[1..]), Markup(t);
      assert [s[0]] + (a + b) == ([s[0]] + a) + b && [] + (a + b) == a + b;
    }
  }

  lemma {:induction false} EscapedHasNoMarkup(s: string)
    ensures Markup(EscapeHtml(s)) == []
  {
    if s != [] {
      MarkupConcat(Entity(s[0]), EscapeHtml(s[1..]));
      EscapedHasNoMarkup(s[1..]);
      EntityHasNoMarkup(s[0]);
    }
  }

  lemma EntityHasNoMarkup(c: char)
    ensures Markup(Entity(c)) == []
  {
    NoMarkup(Entity(c));
  }

  lemma {:induction false} NoMarkup(s: string)
    requires forall i :: 0 <= i < |s| ==> !IsMarkup(s[i])
    ensures Markup(s) == []
  {
    if s != [] { NoMarkup(s[1..]); }
  }

  lemma {:induction false} RenderMarkup(v: Interp)
    ensures Markup(Render(v)) == Trusted(v)
    decreases v, 0
  {
    match v
    case List(items) => RenderAllMarkup(items);
    case Str(s) => EscapedHasNoMarkup(s);
    case Num(text) => EscapedHasNoMarkup(text);
    case Bool(b) => NoMarkup(Render(v));
    case _ =>
  }

  lemma {:induction false} RenderAllMarkup(items: seq<Interp>)
    ensures Markup(RenderAll(items)) == TrustedAll(items)
    decreases items, 1
  {
    if items != [] {
      RenderMarkup(items[0]);
      RenderAllMarkup(items[1..]);
      MarkupConcat(Render(items[0]), RenderAll(items[1..]));
    }
  }

  /** Interpolation adds no markup: whatever the values, the markup of the output is that of the
      literals and the SafeHtml parts, in order. */
  lemma {:induction false} InterpolationAddsNoMarkup(strings: seq<string>, values: seq<Interp>, i: nat)
    requires i <= |strings|
    ensures Markup(Assembled(strings, values, i)) == TrustedMarkup(strings, values, i)
    decreases |strings| - i
  {
    if i < |strings| {
      var value := if i < |values| then Render(values[i]) else "";
      var rest := Assembled(strings, values, i + 1);
      MarkupConcat(strings[i] + value, rest);
      MarkupConcat(strings[i], value);
      if i < |values| { RenderMarkup(values[i]); }
      InterpolationAddsNoMarkup(strings, values, i + 1);
    }
  }

  // ---------------------------------------------------------------- escaped texts

  /** One of the five entities starts here. */
  predicate StartsEntity(s: string) {
    "&amp;" <= s || "&lt;" <= s || "&gt;" <= s || "&quot;" <= s || "&#39;" <= s
  }

  /** No markup, and every `&` starts an entity. */
  predicate IsEscaped(text: string) {
    forall i :: 0 <= i < |text| ==> !IsMarkup(text[i]) && (text[i] == '&' ==> StartsEntity(text[i..]))
  }

  lemma EscapedTail(text: string, k: nat)
    requires IsEscaped(text) && k <= |text|
    ensures IsEscaped(text[k..])
  {
    forall i | 0 <= i < |text[k..]|
      ensures !IsMarkup(text[k..][i]) && (text[k..][i] == '&' ==> StartsEntity(text[k..][i..]))
    {
      assert text[k..][i] == text[k + i] && text[k..][i..] == text[k + i..];
    }
  }

  lemma EntityFirst(c: char, rest: string)
    ensures var e := Entity(c);
      && (forall i :: 0 <= i < |e| ==> !IsMarkup(e[i]) && (e[i] == '&' <==> i == 0 && |e| > 1))
      && (|e| > 1 ==> StartsEntity(e + rest))
  {
    assert Entity(c) <= Entity(c) + rest;
  }

  lemma {:induction false} EscapedIsEscaped(s: string)
    ensures IsEscaped(EscapeHtml(s))
  {
    if s != [] {
      var e, rest := Entity(s[0]), EscapeHtml(s[1..]);
      EscapedIsEscaped(s[1..]);
      EntityFirst(s[0], rest);
      forall i | 0 <= i < |e + rest|
        ensures !IsMarkup((e + rest)[i]) && ((e + rest)[i] == '&' ==> StartsEntity((e + rest)[i..]))
      {
        if i >= |e| {
          assert (e + rest)[i] == rest[i - |e|] && (e + rest)[i..] == rest[i - |e|..];
        } else if i == 0 {
          assert (e + rest)[0..] == e + rest;
        }
      }
    }
  }

  /** The entity an escaped text starts with, or its first character. */
  lemma EscapedHead(text: string) returns (c: char)
    requires IsEscaped(text) && text != []
    ensures Entity(c) <= text && Unescape(text) == [c] + Unescape(text[|Entity(c)|..])
  {
    assert text[0..] == text;
    if text[0] != '&' {
      EntityStarts(text);
      return text[0];
    }
    if "&amp;" <= text { c := '&'; }
    else if "&lt;" <= text { c := '<'; }
    else if "&gt;" <= text { c := '>'; }
    else if "&quot;" <= text { c := '"'; }
    else { c := '\''; }
    assert text == Entity(c) + text[|Entity(c)|..];
    UnescapeEntity(c, text[|Entity(c)|..]);
  }

  lemma {:induction false} EscapedAgain(text: string)
    requires IsEscaped(text)
    ensures EscapeHtml(Unescape(text)) == text
    decreases |text|
  {
    if text != [] {
      var c := EscapedHead(text);
      var k := |Entity(c)|;
      EscapedTail(text, k);
      EscapedAgain(text[k..]);
      assert ([c] + Unescape(text[k..]))[1..] == Unescape(text[k..]);
      assert text == Entity(c) + text[k..];
    }
  }

  /** The escaped text is the only one without markup or stray `&` that unescapes to the text given. */
  lemma EscapedExactly(s: string, text: string)
    ensures text == EscapeHtml(s) <==> IsEscaped(text) && Unescape(text) == s
  {
    EscapedIsEscaped(s);
    UnescapeInvertsEscape(s);
    if IsEscaped(text) { EscapedAgain(text); }
  }

  // ---------------------------------------------------------------- what is put out

  /** What a value without its lists comes to, in order. */
  function Leaves(v: Interp): seq<Interp>
    decreases v, 0
  {
    match v
    case List(items) => AllLeaves(items)
    case _ => [v]
  }

  function AllLeaves(items: seq<Interp>): seq<Interp>
    decreases items, 1
  {
    if items == [] then [] else Leaves(items[0]) + AllLeaves(items[1..])
  }

  /** What the reader of a page gets to see of a leaf: trusted markup as it is, a text or number that
      unescapes to itself, `true`, or nothing. */
  predicate Shows(leaf: Interp, text: string) {
    match leaf
    case Safe(value) => text == value
    case Str(s) => IsEscaped(text) && Unescape(text) == s
    case Num(numeral) => IsEscaped(text) && Unescape(text) == numeral
    case Bool(b) => text == if b then "true" else ""
    case Null => text == ""
    case Undefined => text == ""
    case List(_) => false
  }

  function Joined(texts: seq<string>): string { if texts == [] then "" else texts[0] + Joined(texts[1..]) }

  ghost predicate ShowsEach(leaves: seq<Interp>, texts: seq<string>) {
    |texts| == |leaves| && forall k :: 0 <= k < |leaves| ==> Shows(leaves[k], texts[k])
  }

  /** The text shows the leaves one right behind the other, with nothing between, before or after. */
  ghost predicate Displays(leaves: seq<Interp>, text: string) {
    exists texts: seq<string> :: ShowsEach(leaves, texts) && text == Joined(texts)
  }

  lemma {:induction false} JoinedConcat(a: seq<string>, b: seq<string>)
    ensures Joined(a + b) == Joined(a) + Joined(b)
  {
    if a == [] {
      assert a + b == b;
    } else {
      assert (a + b)[1..] == a[1..] + b;
      JoinedConcat(a[1..], b);
    }
  }

  /** Rendered text by text. */
  function Rendered(leaves: seq<Interp>): (texts: seq<string>)
    ensures |texts| == |leaves|
  {
    seq(|leaves|, k requires 0 <= k < |leaves| => Render(leaves[k]))
  }

  lemma RenderedConcat(a: seq<Interp>, b: seq<Interp>)
    ensures Rendered(a + b) == Rendered(a) + Rendered(b)
  {
  }

  lemma {:induction false} RenderLeaves(v: Interp)
    ensures Render(v) == Joined(Rendered(Leaves(v)))
    ensures forall leaf :: leaf in Leaves(v) ==> !leaf.List?
    decreases v, 0
  {
    if v.List? {
      RenderAllLeaves(v.items);
    } else {
      assert Rendered([v])[1..] == [];
      assert Joined(Rendered([v])) == Render(v) + Joined([]);
    }
  }

  lemma {:induction false} RenderAllLeaves(items: seq<Interp>)
    ensures RenderAll(items) == Joined(Rendered(AllLeaves(items)))
    ensures forall leaf :: leaf in AllLeaves(items) ==> !leaf.List?
    decreases items, 1
  {
    if items != [] {
      RenderLeaves(items[0]);
      RenderAllLeaves(items[1..]);
      RenderedConcat(Leaves(items[0]), AllLeaves(items[1..]));
      JoinedConcat(Rendered(Leaves(items[0])), Rendered(AllLeaves(items[1..])));
    }
  }

  lemma ShowsExactly(leaf: Interp, text: string)
    requires !leaf.List?
    ensures Shows(leaf, text) <==> text == Render(leaf)
  {
    hide IsEscaped, Unescape, EscapeHtml;
    match leaf
    case Str(s) => EscapedExactly(s, text);
    case Num(numeral) => EscapedExactly(numeral, text);
    case _ =>
  }

  lemma ShowsEachExactly(leaves: seq<Interp>, texts: seq<string>)
    requires forall leaf :: leaf in leaves ==> !leaf.List?
    ensures ShowsEach(leaves, texts) <==> texts == Rendered(leaves)
  {
    hide Shows, Render;
    forall k | 0 <= k < |leaves| && |texts| == |leaves|
      ensures Shows(leaves[k], texts[k]) <==> texts[k] == Rendered(leaves)[k]
    {
      assert leaves[k] in leaves;
      ShowsExactly(leaves[k], texts[k]);
    }
  }

  /** What rendering any nested value puts out, and nothing else would do. */
  lemma RenderExactly(v: Interp, text: string)
    ensures text == Render(v) <==> Displays(Leaves(v), text)
  {
    hide Shows, Render, Leaves, ShowsEach;
    RenderLeaves(v);
    forall texts ensures ShowsEach(Leaves(v), texts) <==> texts == Rendered(Leaves(v)) {
      ShowsEachExactly(Leaves(v), texts);
    }
  }

  lemma {:induction false} RenderAllConcat(a: seq<Interp>, b: seq<Interp>)
    ensures RenderAll(a + b) == RenderAll(a) + RenderAll(b)
  {
    hide Render;
    if a == [] {
      assert a + b == b;
    } else {
      assert (a + b)[1..] == a[1..] + b;
      RenderAllConcat(a[1..], b);
    }
  }

  /** A list is its parts one right behind the other, however they are grouped. */
  lemma RenderConcat(a: seq<Interp>, b: seq<Interp>)
    ensures Render(List(a + b)) == Render(List(a)) + Render(List(b))
    ensures Render(List([List(a)] + b)) == Render(List(a + b))
  {
    RenderAllConcat(a, b);
    assert ([List(a)] + b)[1..] == b;
  }

  /** What a template puts out: the first literal, and then for every value what it displays and the
      literal behind it. */
  lemma TemplateExactly(strings: seq<string>, values: seq<Interp>, first: string, v: Interp, shown: string, last: string)
    requires |strings| == |values| + 1 && Displays(Leaves(v), shown)
    ensures Assembled([first], [], 0) == first
    ensures Assembled(strings + [last], values + [v], 0) == Assembled(strings, values, 0) + shown + last
  {
    RenderExactly(v, shown);
    AssembledOnly(first);
    AssembledMore(strings, values, v, last, 0);
  }

  lemma AssembledOnly(first: string)
    ensures Assembled([first], [], 0) == first
  {
    assert Assembled([first], [], 1) == "";
  }

  lemma AssembledStep(strings: seq<string>, values: seq<Interp>, i: nat)
    requires i < |strings|
    ensures Assembled(strings, values, i)
         == strings[i] + (if i < |values| then Render(values[i]) else "") + Assembled(strings, values, i + 1)
    ensures Assembled(strings, values, |strings|) == ""
  {
    hide Render;
  }

  lemma {:induction false} AssembledMore(strings: seq<string>, values: seq<Interp>, v: Interp, last: string, i: nat)
    requires |strings| == |values| + 1 && i < |strings|
    ensures Assembled(strings + [last], values + [v], i) == Assembled(strings, values, i) + Render(v) + last
    decreases |strings| - i
  {
    hide Render, Assembled;
    var more, moreValues := strings + [last], values + [v];
    AssembledStep(strings, values, i);
    AssembledStep(more, moreValues, i);
    assert more[i] == strings[i];
    if i < |values| {
      AssembledMore(strings, values, v, last, i + 1);
      assert moreValues[i] == values[i];
      Regrouped(strings[i] + Render(values[i]), Assembled(strings, values, i + 1), Render(v), last);
    } else {
      AssembledStep(more, moreValues, i + 1);
      assert moreValues[i] == v && more[i + 1] == last;
      assert last + "" + "" == last && strings[i] + "" + "" == strings[i];
    }
  }

  lemma Regrouped(a: string, b: string, c: string, d: string)
    ensures a + (b + c + d) == a + b + c + d
  {
  }
}
