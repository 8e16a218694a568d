/** src/i18n.ts `t` and src/http/html.ts `tHtml`: one pass over a message replaces each
    `{name}`, and escaping commutes with it. */
module Messages {
  import opened Text
  import opened Html

  /** The longest prefix of word characters. */
  function WordRun(s: string): (n: nat)
    ensures n <= |s|
    ensures forall i :: 0 <= i < n ==> IsWord(s[i])
    ensures n < |s| ==> !IsWord(s[n])
  {
    if s != [] && IsWord(s[0]) then 1 + WordRun(s[1..]) else 0
  }

  /** The length of the name when `\{(\w+)\}` matches at the start of s, or 0. */
  function NameLength(s: string): (n: nat)
  {
    if s == [] || s[0] != '{' then 0
    else
      var n := WordRun(s[1..]);
      if n + 1 < |s| && s[n + 1] == '}' then n else 0
  }

  /** One left-to-right pass: characters through `lit`, names in braces through `hole`. */
  function Woven(s: string, lit: char -> string, hole: string -> string): string {
    if s == [] then []
    else
      var n := NameLength(s);
      if n > 0 then hole(s[1..n + 1]) + Woven(s[n + 2..], lit, hole)
      else lit(s[0]) + Woven(s[1..], lit, hole)
  }

  function Itself(c: char): string { [c] }

  /** `s.replace(/\{(\w+)\}/g, hole)` */
  function ReplacePlaceholders(s: string, hole: string -> string): string {
    Woven(s, Itself, hole)
  }

  function Braced(name: string): string { "{" + name + "}" }

  /** `t` with params: `texts` gives `String(params[name])` for the names that are in params. */
  function T(msg: string, texts: string -> Option<string>): string {
    ReplacePlaceholders(msg, name => if texts(name).Some? then texts(name).value else Braced(name))
  }

  /** `tHtml`. */
  function THtml(msg: string, params: string -> Option<Interp>): string {
    ReplacePlaceholders(EscapeHtml(msg),
                        name => if params(name).Some? then Render(params(name).value) else Braced(name))
  }

  // ---------------------------------------------------------------- one pass

  lemma WordRunIs(s: string, n: nat)
    requires n <= |s| && forall i :: 0 <= i < n ==> IsWord(s[i])
    requires n < |s| ==> !IsWord(s[n])
    ensures WordRun(s) == n
  {
  }

  lemma NameLengthBefore(pre: string, post: string)
    requires pre != [] && post != [] && post[0] == '{'
    ensures NameLength(pre + post) == NameLength(pre)
  {
    if pre[0] == '{' {
      var n := WordRun(pre[1..]);
      assert (pre + post)[1..] == pre[1..] + post;
      WordRunIs(pre[1..] + post, n);
    }
  }

  lemma BracedName(name: string, post: string)
    requires name != [] && AllWord(name)
    ensures var s := Braced(name) + post;
      s != [] && NameLength(s) == |name| && s[1..|name| + 1] == name && s[|name| + 2..] == post
  {
    hide WordRun;
    var s := Braced(name) + post;
    assert s[1..] == name + "}" + post;
    WordRunIs(s[1..], |name|);
  }

  lemma FilledFirst(name: string, post: string, lit: char -> string, hole: string -> string)
    requires name != [] && AllWord(name)
    ensures Woven(Braced(name) + post, lit, hole) == hole(name) + Woven(post, lit, hole)
  {
    hide NameLength, Braced;
    BracedName(name, post);
  }

  lemma WovenFirst(s: string, lit: char -> string, hole: string -> string)
    requires s != ""
    ensures var n := NameLength(s);
      && (n > 0 ==> n + 2 <= |s|)
      && Woven(s, lit, hole)
         == if n > 0 then hole(s[1..n + 1]) + Woven(s[n + 2..], lit, hole) else lit(s[0]) + Woven(s[1..], lit, hole)
  {
  }

  lemma FrontSliced(pre: string, post: string, n: nat)
    requires n + 2 <= |pre|
    ensures (pre + post)[1..n + 1] == pre[1..n + 1] && (pre + post)[n + 2..] == pre[n + 2..] + post
  {
  }

  lemma WovenStep(pre: string, post: string, lit: char -> string, hole: string -> string)
    requires pre != [] && NameLength(pre + post) == NameLength(pre)
    ensures var n := NameLength(pre);
            Woven(pre + post, lit, hole)
            == if n > 0 then hole(pre[1..n + 1]) + Woven(pre[n + 2..] + post, lit, hole)
               else lit(pre[0]) + Woven(pre[1..] + post, lit, hole)
  {
    hide NameLength, Woven;
    WovenFirst(pre + post, lit, hole);
    NameFits(pre);
    if NameLength(pre) > 0 { FrontSliced(pre, post, NameLength(pre)); } else { assert (pre + post)[1..] == pre[1..] + post; }
  }

  /** A brace is where a message can be taken apart. */
  lemma {:induction false} WovenSplit(pre: string, rest: string, lit: char -> string, hole: string -> string)
    requires rest != "" && rest[0] == '{'
    ensures Woven(pre + rest, lit, hole) == Woven(pre, lit, hole) + Woven(rest, lit, hole)
    decreases |pre|
  {
    hide NameLength;
    if pre == "" {
      assert pre + rest == rest;
    } else {
      hide Woven;
      NameFits(pre);
      NameLengthBefore(pre, rest);
      WovenStep(pre, rest, lit, hole);
      WovenFirst(pre, lit, hole);
      var n := NameLength(pre);
      if n > 0 {
        WovenSplit(pre[n + 2..], rest, lit, hole);
        Grouped(hole(pre[1..n + 1]), Woven(pre[n + 2..], lit, hole), Woven(rest, lit, hole));
      } else {
        WovenSplit(pre[1..], rest, lit, hole);
        Grouped(lit(pre[0]), Woven(pre[1..], lit, hole), Woven(rest, lit, hole));
      }
    }
  }

  lemma {:induction false} WovenPlain(s: string, post: string, lit: char -> string, hole: string -> string)
    requires '{' !in s
    ensures Woven(s + post, lit, hole) == MapCase(lit, s) + Woven(post, lit, hole)
  {
    if s == [] {
      assert s + post == post;
    } else {
      assert (s + post)[1..] == s[1..] + post;
      WovenPlain(s[1..], post, lit, hole);
    }
  }

  /** Braces around something that is no name. */
  lemma NoName(w: string, post: string)
    requires '}' !in w && !(w != "" && AllWord(w))
    ensures NameLength(Braced(w) + post) == 0
  {
    var s := Braced(w) + post;
    assert s[0] == '{' && s[1..] == w + "}" + post;
    if w == "" {
      WordRunIs(s[1..], 0);
    } else {
      hide IsWord;
      var n := WordRun(w);
      WordRunIs(s[1..], n);
      assert s[n + 1] == w[n] && w[n] in w;
    }
  }

  lemma KeptFirst(w: string, post: string, lit: char -> string, hole: string -> string)
    requires '{' !in w && '}' !in w && !(w != "" && AllWord(w))
    ensures Woven(Braced(w) + post, lit, hole) == MapCase(lit, Braced(w)) + Woven(post, lit, hole)
  {
    hide NameLength, AllWord, MapCase;
    NoName(w, post);
    BracedSplit(w, post);
    OneLiteral('{', (w + "}") + post, lit, hole);
    WovenPlain(w + "}", post, lit, hole);
    MapFirst('{', w + "}", lit);
  }

  lemma BracedSplit(w: string, post: string)
    ensures Braced(w) == ['{'] + (w + "}") && Braced(w) + post == ['{'] + ((w + "}") + post)
  {
  }

  lemma MapFirst(c: char, s: string, f: char -> string)
    ensures MapCase(f, [c] + s) == f(c) + MapCase(f, s)
  {
    assert ([c] + s)[1..] == s;
  }

  lemma OneLiteral(c: char, rest: string, lit: char -> string, hole: string -> string)
    requires NameLength([c] + rest) == 0
    ensures Woven([c] + rest, lit, hole) == lit(c) + Woven(rest, lit, hole)
  {
    assert ([c] + rest)[1..] == rest;
  }

  /** A placeholder anywhere in a message is replaced by exactly its value: what surrounds it is
      treated as if the value were not there, and the value is not scanned again. */
  lemma PlaceholderFilled(pre: string, name: string, post: string, hole: string -> string)
    requires name != [] && AllWord(name)
    ensures ReplacePlaceholders(pre + (Braced(name) + post), hole)
         == ReplacePlaceholders(pre, hole) + hole(name) + ReplacePlaceholders(post, hole)
  {
    FilledFirst(name, post, Itself, hole);
    WovenSplit(pre, Braced(name) + post, Itself, hole);
  }

  // ---------------------------------------------------------------- what is filled and what is kept

  /** One or more letters, digits and underscores. */
  predicate IsName(w: string) {
    w != "" && forall i :: 0 <= i < |w| ==>
      'a' <= w[i] <= 'z' || 'A' <= w[i] <= 'Z' || '0' <= w[i] <= '9' || w[i] == '_'
  }

  lemma {:induction false} MapItself(s: string)
    ensures MapCase(Itself, s) == s
  {
    if s != "" { MapItself(s[1..]); }
  }

  lemma {:induction false} MapEntity(s: string)
    ensures MapCase(Entity, s) == EscapeHtml(s)
  {
    if s != "" { MapEntity(s[1..]); }
  }

  lemma NameExactly(w: string)
    ensures IsName(w) <==> w != "" && AllWord(w)
  {
  }

  lemma BracesWoven(pre: string, w: string, post: string, lit: char -> string, hole: string -> string)
    requires '{' !in w && '}' !in w
    ensures Woven(w, lit, hole) == MapCase(lit, w)
    ensures Woven(pre + ("{" + w + "}" + post), lit, hole)
         == Woven(pre, lit, hole) + (if IsName(w) then hole(w) else MapCase(lit, "{" + w + "}")) + Woven(post, lit, hole)
  {
    hide MapCase, Woven, AllWord, IsName;
    NameExactly(w);
    WovenPlain(w, "", lit, hole);
    WovenNothing(lit, hole);
    assert w + "" == w;
    WovenSplit(pre, Braced(w) + post, lit, hole);
    if IsName(w) { FilledFirst(w, post, lit, hole); } else { KeptFirst(w, post, lit, hole); }
  }

  lemma WovenNothing(lit: char -> string, hole: string -> string)
    ensures Woven("", lit, hole) == ""
  {
  }

  /** What `t` makes of each pair of braces: the value of the name between them, if it is a name and
      has one, and itself otherwise; text without braces stays. */
  lemma BracesFilled(pre: string, w: string, post: string, texts: string -> Option<string>)
    requires '{' !in w && '}' !in w
    ensures T(w, texts) == w
    ensures T(pre + ("{" + w + "}" + post), texts)
         == T(pre, texts) + (if IsName(w) && texts(w).Some? then texts(w).value else "{" + w + "}") + T(post, texts)
  {
    hide Woven, IsName, MapCase;
    BracesWoven(pre, w, post, Itself, name => if texts(name).Some? then texts(name).value else Braced(name));
    MapItself(w);
    MapItself("{" + w + "}");
  }

  /** What `tHtml` makes of them: what the value displays, or the escaped text. */
  lemma BracesDisplayed(pre: string, w: string, post: string, params: string -> Option<Interp>, shown: string)
    requires '{' !in w && '}' !in w
    requires if IsName(w) && params(w).Some? then Displays(Leaves(params(w).value), shown)
             else shown == EscapeHtml("{" + w + "}")
    ensures THtml(w, params) == EscapeHtml(w)
    ensures THtml(pre + ("{" + w + "}" + post), params) == THtml(pre, params) + shown + THtml(post, params)
  {
    hide Render, Leaves, Displays, Woven, IsName, MapCase, THtml, EscapeHtml;
    THtmlEscapesTheMessage(w, params);
    THtmlEscapesTheMessage(pre, params);
    THtmlEscapesTheMessage(post, params);
    THtmlEscapesTheMessage(pre + ("{" + w + "}" + post), params);
    BracesWoven(pre, w, post, Entity, name => if params(name).Some? then Render(params(name).value) else Braced(name));
    MapEntity(w);
    MapEntity("{" + w + "}");
    if IsName(w) {
      if params(w).Some? { RenderExactly(params(w).value, shown); } else { NameKept(w); }
    }
  }

  lemma NameKept(w: string)
    requires IsName(w)
    ensures EscapeHtml(Braced(w)) == Braced(w)
  {
    EscapeWord(Braced(w));
  }

  lemma NameFits(s: string)
    ensures NameLength(s) > 0 ==> NameLength(s) + 2 <= |s| && Braced(s[1..NameLength(s) + 1]) == s[..NameLength(s) + 2]
  {
  }

  /** The name in braces at a place of s where there is one. */
  function NameAt(s: string, i: nat): string
    requires i <= |s|
  {
    NameFits(s[i..]);
    if NameLength(s[i..]) == 0 then "" else s[i..][1..NameLength(s[i..]) + 1]
  }

  /** A message whose own names are all unknown is left as it is, which is what `t` without params returns. */
  lemma UnknownNamesStay(msg: string, texts: string -> Option<string>)
    requires forall i :: 0 <= i < |msg| && NameLength(msg[i..]) > 0 ==> texts(NameAt(msg, i)) == None
    ensures T(msg, texts) == msg
  {
    WovenUnknown(msg, name => if texts(name).Some? then texts(name).value else Braced(name));
  }

  lemma {:induction false} WovenUnknown(s: string, hole: string -> string)
    requires forall i :: 0 <= i < |s| && NameLength(s[i..]) > 0 ==> hole(NameAt(s, i)) == Braced(NameAt(s, i))
    ensures ReplacePlaceholders(s, hole) == s
    decreases |s|
  {
    hide NameLength;
    if s != [] {
      var n := NameLength(s);
      assert s[0..] == s;
      var k := if n > 0 then n + 2 else 1;
      NameFits(s);
      forall i | 0 <= i < |s[k..]| && NameLength(s[k..][i..]) > 0
        ensures hole(NameAt(s[k..], i)) == Braced(NameAt(s[k..], i))
      {
        assert s[k..][i..] == s[k + i..];
        assert NameAt(s[k..], i) == NameAt(s, k + i);
      }
      WovenUnknown(s[k..], hole);
      if n > 0 {
        assert NameAt(s, 0) == s[1..n + 1];
      }
    }
  }

  // ---------------------------------------------------------------- escaping and substitution commute

  predicate AllWord(s: string) { forall i :: 0 <= i < |s| ==> IsWord(s[i]) }

  lemma {:induction false} EscapeWord(s: string)
    requires forall i :: 0 <= i < |s| ==> IsWord(s[i]) || s[i] == '{' || s[i] == '}'
    ensures EscapeHtml(s) == s
  {
    if s != [] { EscapeWord(s[1..]); }
  }

  lemma EscapeFirst(s: string)
    requires s != []
    ensures EscapeHtml(s) != []
    ensures EscapeHtml(s)[0] == Entity(s[0])[0]
    ensures IsWord(EscapeHtml(s)[0]) <==> IsWord(s[0])
    ensures EscapeHtml(s)[0] == '}' <==> s[0] == '}'
  {
  }

  lemma EscapedRun(t: string, n: nat)
    requires n == WordRun(t)
    ensures EscapeHtml(t) == t[..n] + EscapeHtml(t[n..])
    ensures WordRun(EscapeHtml(t)) == n
  {
    var run, rest := t[..n], t[n..];
    assert t == run + rest;
    EscapeConcat(run, rest);
    EscapeWord(run);
    if rest != [] { EscapeFirst(rest); }
    RunThen(run, EscapeHtml(rest));
  }

  lemma RunThen(run: string, rest: string)
    requires AllWord(run) && (rest != [] ==> !IsWord(rest[0]))
    ensures WordRun(run + rest) == |run|
  {
    WordRunIs(run + rest, |run|);
  }

  lemma EscapeBrace(s: string)
    requires s != [] && (s[0] == '{' || s[0] == '}')
    ensures EscapeHtml(s) == [s[0]] + EscapeHtml(s[1..])
  {
  }

  /** The closing brace after a run survives escaping, and none appears. */
  lemma BraceAfterRun(t: string, n: nat, e: string)
    requires n == WordRun(t) && e == EscapeHtml(t)
    ensures (n < |t| && t[n] == '}') <==> (n < |e| && e[n] == '}')
    ensures n < |t| && t[n] == '}' ==> e == t[..n + 1] + EscapeHtml(t[n + 1..])
  {
    hide EscapeHtml, WordRun;
    EscapedRun(t, n);
    if n < |t| {
      var rest := t[n..];
      var r := EscapeHtml(rest);
      EscapeFirst(rest);
      assert rest[0] == t[n] && rest[1..] == t[n + 1..];
      assert e[n] == r[0];
      if t[n] == '}' {
        EscapeBrace(rest);
        Carried(t, n, EscapeHtml(t[n + 1..]));
      }
    } else {
      NothingEscaped(t[n..]);
    }
  }

  lemma Carried(t: string, n: nat, x: string)
    requires n < |t|
    ensures t[..n] + ([t[n]] + x) == t[..n + 1] + x
  {
  }

  lemma NothingEscaped(t: string)
    requires t == []
    ensures EscapeHtml(t) == []
  {
  }

  lemma SameName(t: string, e: string, n: nat)
    requires n == WordRun(t) == WordRun(e)
    requires (n < |t| && t[n] == '}') <==> (n < |e| && e[n] == '}')
    ensures NameLength(['{'] + t) == NameLength(['{'] + e)
    ensures NameLength(['{'] + t) > 0 ==> NameLength(['{'] + t) == n < |t| && t[n] == '}'
  {
    assert (['{'] + t)[1..] == t && (['{'] + e)[1..] == e;
  }

  lemma ShiftedSplit(s: string, t: string, n: nat, r: string)
    requires s == ['{'] + t && n < |t|
    ensures s[n + 2..] == t[n + 1..]
    ensures ['{'] + (t[..n + 1] + r) == s[..n + 2] + r
  {
  }

  /** Escaping neither creates nor destroys a placeholder. */
  lemma NameLengthEscaped(s: string)
    requires s != [] && s[0] == '{'
    ensures NameLength(EscapeHtml(s)) == NameLength(s)
    ensures NameLength(s) > 0 ==> EscapeHtml(s) == s[..NameLength(s) + 2] + EscapeHtml(s[NameLength(s) + 2..])
  {
    EscapeBrace(s);
    assert s == ['{'] + s[1..];
    NameLengthBehind(s, s[1..], EscapeHtml(s[1..]));
  }

  lemma NameLengthBehind(s: string, t: string, et: string)
    requires s == ['{'] + t && et == EscapeHtml(t)
    ensures NameLength(['{'] + et) == NameLength(s)
    ensures NameLength(s) > 0 ==> ['{'] + et == s[..NameLength(s) + 2] + EscapeHtml(s[NameLength(s) + 2..])
  {
    var n := WordRun(t);
    EscapedRun(t, n);
    BraceAfterRun(t, n, et);
    SameName(t, et, n);
    if NameLength(s) > 0 { ShiftedSplit(s, t, n, EscapeHtml(t[n + 1..])); }
  }

  /** Weaving an escaped message is weaving the message itself and escaping only its own characters. */
  lemma {:induction false} WovenEscaped(s: string, hole: string -> string)
    ensures ReplacePlaceholders(EscapeHtml(s), hole) == Woven(s, Entity, hole)
    decreases |s|
  {
    hide NameLength, EscapeHtml, Entity;
    if s == [] {
      NothingEscaped(s);
    } else {
      var n := NameLength(s);
      NameFits(s);
      if n > 0 {
        WovenEscaped(s[n + 2..], hole);
        NameLengthEscaped(s);
        WovenTake(s[..n + 2], EscapeHtml(s[n + 2..]), n, hole);
        assert s[..n + 2][1..n + 1] == s[1..n + 1];
      } else {
        WovenEscaped(s[1..], hole);
        EscapedCharacter(s, hole);
      }
    }
  }

  lemma EscapedCharacter(s: string, hole: string -> string)
    requires s != [] && NameLength(s) == 0
    ensures ReplacePlaceholders(EscapeHtml(s), hole)
         == Entity(s[0]) + ReplacePlaceholders(EscapeHtml(s[1..]), hole)
  {
    var rest := EscapeHtml(s[1..]);
    if s[0] == '{' {
      NameLengthEscaped(s);
      EscapeBrace(s);
      OneLiteral('{', rest, Itself, hole);
    } else {
      EntityHasNoBrace(s[0]);
      WovenPlain(Entity(s[0]), rest, Itself, hole);
      MapItself(Entity(s[0]));
    }
  }

  lemma EntityHasNoBrace(c: char)
    requires c != '{'
    ensures '{' !in Entity(c)
  {
  }

  lemma WovenTake(match0: string, rest: string, n: nat, hole: string -> string)
    requires |match0| == n + 2 && n > 0 && NameLength(match0 + rest) == n
    ensures ReplacePlaceholders(match0 + rest, hole) == hole(match0[1..n + 1]) + ReplacePlaceholders(rest, hole)
  {
    var s := match0 + rest;
    assert s[1..n + 1] == match0[1..n + 1] && s[n + 2..] == rest;
  }

  lemma {:induction false} EscapeWoven(s: string, f: string -> string, g: string -> string)
    requires forall name :: AllWord(name) ==> g(name) == EscapeHtml(f(name))
    ensures EscapeHtml(ReplacePlaceholders(s, f)) == Woven(s, Entity, g)
    decreases |s|
  {
    hide NameLength, EscapeHtml, Entity, AllWord;
    if s == [] {
      NothingEscaped("");
    } else {
      var n := NameLength(s);
      if n > 0 {
        NameFits(s);
        NameIsWord(s);
        EscapeWoven(s[n + 2..], f, g);
        EscapeConcat(f(s[1..n + 1]), ReplacePlaceholders(s[n + 2..], f));
      } else {
        EscapeWoven(s[1..], f, g);
        EscapeConcat([s[0]], ReplacePlaceholders(s[1..], f));
        EscapeOne(s[0]);
      }
    }
  }

  lemma NameIsWord(s: string)
    requires NameLength(s) > 0 && NameLength(s) + 2 <= |s|
    ensures AllWord(s[1..NameLength(s) + 1])
  {
    assert s[1..NameLength(s) + 1] == s[1..][..NameLength(s)];
  }

  lemma EscapeOne(c: char)
    ensures EscapeHtml([c]) == Entity(c)
  {
    assert [c][1..] == [];
  }

  /** Whatever the params, `tHtml` escapes the message's own text and renders each value in its place. */
  lemma THtmlEscapesTheMessage(msg: string, params: string -> Option<Interp>)
    ensures THtml(msg, params)
         == Woven(msg, Entity, name => if params(name).Some? then Render(params(name).value) else Braced(name))
  {
    WovenEscaped(msg, name => if params(name).Some? then Render(params(name).value) else Braced(name));
  }

  /** With string and number params, `tHtml` is `t` escaped. */
  lemma EscapingCommutes(msg: string, params: string -> Option<Interp>, texts: string -> Option<string>)
    requires forall name :: match params(name)
                            case None => texts(name) == None
                            case Some(v) => (v.Str? && texts(name) == Some(v.s)) || (v.Num? && texts(name) == Some(v.text))
    ensures THtml(msg, params) == EscapeHtml(T(msg, texts))
  {
    var f := (name: string) => if texts(name).Some? then texts(name).value else Braced(name);
    var g := (name: string) => if params(name).Some? then Render(params(name).value) else Braced(name);
    forall name | AllWord(name) ensures g(name) == EscapeHtml(f(name)) {
      if params(name).None? { EscapeWord(Braced(name)); }
    }
    WovenEscaped(msg, g);
    EscapeWoven(msg, f, g);
  }
}
