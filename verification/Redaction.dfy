/** src/log.ts `redact`: three global replacements, one after the other. Each rewrites a kept head
    followed by a greedy run of characters; the run becomes a tag. */
module Redaction {
  import opened Text

  datatype Pass = Delivery | Upload | Query

  /** The characters that end the run of each pattern. */
  predicate Stops(p: Pass, c: char) {
    match p
    case Delivery => c == '/' || c == '?' || c == '#' || IsSpace(c)
    case Upload => c == '?' || c == '#' || IsSpace(c)
    case Query => c == '&' || c == '#' || IsSpace(c)
  }

  function Tag(p: Pass): string {
    if p.Upload? then "[filename]" else "[redacted]"
  }

  /** The parameter names the third pattern lists; the i flag folds ASCII case only. */
  predicate IsSecret(name: string) {
    var n := AsciiLowered(name);
    n == "token" || n == "code" || n == "access_token" || n == "sig"
  }

  /** How many characters stand before the first `=`. */
  function BeforeEquals(s: string): (n: nat)
    ensures n <= |s| && forall i :: 0 <= i < n ==> s[i] != '='
    ensures n < |s| ==> s[n] == '='
  {
    if s == [] || s[0] == '=' then 0 else 1 + BeforeEquals(s[1..])
  }

  /** The length of the fixed part of the pattern at the start of s, or 0. */
  function Head(p: Pass, s: string): (h: nat)
    ensures h <= |s|
  {
    match p
    case Delivery => if "/d/" <= s then 3 else 0
    case Upload => if "/api/upload/" <= s then 12 else 0
    case Query =>
      if s == [] || (s[0] != '?' && s[0] != '&') then 0
      else
        var n := BeforeEquals(s[1..]);
        if n + 1 < |s| && IsSecret(s[1..n + 1]) then n + 2 else 0
  }

  function Run(p: Pass, s: string): (n: nat)
    ensures n <= |s|
    ensures forall i :: 0 <= i < n ==> !Stops(p, s[i])
    ensures n < |s| ==> Stops(p, s[n])
  {
    if s == [] || Stops(p, s[0]) then 0 else 1 + Run(p, s[1..])
  }

  predicate Matches(p: Pass, s: string) {
    var h := Head(p, s);
    h > 0 && (p.Query? || Run(p, s[h..]) > 0)
  }

  /** `s.replace(pattern, ...)` with the g flag. */
  function Replace(p: Pass, s: string): string
    decreases |s|
  {
    if s == [] then []
    else if Matches(p, s) then
      var h := Head(p, s);
      s[..h] + Tag(p) + Replace(p, s[h + Run(p, s[h..])..])
    else [s[0]] + Replace(p, s[1..])
  }

  function Redact(s: string): string {
    Replace(Query, Replace(Upload, Replace(Delivery, s)))
  }

  // ---------------------------------------------------------------- where a head can be

  /** Every head starts with one of two characters, or with '/' and this one. */
  function Second(p: Pass): char { if p.Delivery? then 'd' else 'a' }

  lemma HeadStart(p: Pass, s: string)
    requires Head(p, s) > 0
    ensures p.Query? ==> s[0] == '?' || s[0] == '&'
    ensures !p.Query? ==> |s| >= 3 && s[0] == '/' && s[1] == Second(p)
  {
  }

  /** No head of p starts in w, whatever follows w. */
  predicate Inert(p: Pass, w: string) {
    forall i :: 0 <= i < |w| ==> InertAt(p, w, i)
  }

  predicate InertAt(p: Pass, w: string, i: nat)
    requires i < |w|
  {
    if p.Query? then w[i] != '?' && w[i] != '&'
    else w[i] == '/' ==> i + 1 < |w| && w[i + 1] != Second(p)
  }

  lemma InertTail(p: Pass, w: string)
    requires Inert(p, w) && w != []
    ensures Inert(p, w[1..])
  {
    forall i | 0 <= i < |w[1..]| ensures InertAt(p, w[1..], i) {
      assert InertAt(p, w, i + 1);
    }
  }

  lemma InertNoHead(p: Pass, w: string, rest: string)
    requires Inert(p, w) && w != []
    ensures Head(p, w + rest) == 0
  {
    assert InertAt(p, w, 0);
    if Head(p, w + rest) > 0 { HeadStart(p, w + rest); }
  }

  lemma ReplaceSkip(p: Pass, c: char, rest: string)
    requires !Matches(p, [c] + rest)
    ensures Replace(p, [c] + rest) == [c] + Replace(p, rest)
  {
    assert ([c] + rest)[1..] == rest;
  }

  lemma SkipInert(p: Pass, w: string, rest: string)
    requires Inert(p, w) && w != []
    ensures Replace(p, w + rest) == [w[0]] + Replace(p, w[1..] + rest)
  {
    InertNoHead(p, w, rest);
    assert w + rest == [w[0]] + (w[1..] + rest);
    ReplaceSkip(p, w[0], w[1..] + rest);
  }

  lemma {:induction false} ReplaceInert(p: Pass, w: string, rest: string)
    requires Inert(p, w)
    ensures Replace(p, w + rest) == w + Replace(p, rest)
  {
    hide Replace;
    if w == [] {
      assert w + rest == rest;
    } else {
      SkipInert(p, w, rest);
      InertTail(p, w);
      ReplaceInert(p, w[1..], rest);
    }
  }

  /** The head is decided by its own characters. */
  lemma HeadPrefix(p: Pass, s: string, t: string)
    requires Head(p, s) > 0 && Head(p, s) <= |t| && t[..Head(p, s)] == s[..Head(p, s)]
    ensures Head(p, t) == Head(p, s)
  {
    hide IsSecret;
    var h := Head(p, s);
    SamePlaces(s, t, h);
    if p.Query? {
      var n := h - 2;
      assert t[1..n + 1] == s[1..n + 1];
      forall i | 0 <= i < n ensures t[1..][i] != '=' { assert t[1..][i] == s[1..][i]; }
    } else {
      assert t[..h] <= t;
    }
  }

  lemma SamePlaces(s: string, t: string, h: nat)
    requires h <= |s| && h <= |t| && t[..h] == s[..h]
    ensures forall i :: 0 <= i < h ==> t[i] == s[i]
  {
    forall i | 0 <= i < h ensures t[i] == s[i] { assert t[..h][i] == s[..h][i]; }
  }

  /** A head is an opening character, a middle without any further opening, and for the paths a slash. */
  function Middle(p: Pass): string
    requires !p.Query?
  {
    if p.Delivery? then "d" else "api/upload"
  }

  lemma SecretWord(name: string)
    requires IsSecret(name)
    ensures forall i :: 0 <= i < |name| ==> IsLetter(name[i]) || name[i] == '_'
  {
    LowerAt(name);
    forall i | 0 <= i < |name| ensures IsLetter(name[i]) || name[i] == '_' {
      assert AsciiLowered(name)[i] == AsciiLower(name[i]);
    }
  }

  lemma SecretPlain(name: string)
    requires IsSecret(name)
    ensures forall i :: 0 <= i < |name| ==> name[i] != '?' && name[i] != '&' && name[i] != '/'
  {
    SecretWord(name);
  }

  lemma QueryHeadPlain(s: string)
    requires Head(Query, s) > 0
    ensures forall i :: 0 <= i < Head(Query, s) ==> s[i] != '/' && (i > 0 ==> s[i] != '?' && s[i] != '&')
  {
    var h := Head(Query, s);
    var name := s[1..h - 1];
    SecretPlain(name);
    forall i | 0 <= i < h ensures s[i] != '/' && (i > 0 ==> s[i] != '?' && s[i] != '&') {
      if 0 < i < h - 1 { assert s[i] == name[i - 1]; }
    }
  }

  // ---------------------------------------------------------------- texts a pass leaves alone

  predicate Settled(p: Pass, s: string) {
    Matches(p, s) ==> s[Head(p, s)..][..Run(p, s[Head(p, s)..])] == Tag(p)
  }

  /** Every match of p in s has its run replaced already. */
  ghost predicate Stable(p: Pass, s: string)
    decreases |s|
  {
    s == [] || (Settled(p, s) && Stable(p, s[1..]))
  }

  lemma {:induction false} StableSuffix(p: Pass, s: string, k: nat)
    requires Stable(p, s) && k <= |s|
    ensures Stable(p, s[k..])
  {
    if k > 0 {
      StableSuffix(p, s[1..], k - 1);
      assert s[1..][k - 1..] == s[k..];
    }
  }

  lemma ReplaceMatch(p: Pass, s: string)
    requires Matches(p, s)
    ensures Head(p, s) > 0
    ensures var h := Head(p, s);
            Replace(p, s) == s[..h] + Tag(p) + Replace(p, s[h + Run(p, s[h..])..])
  {
    hide Run, IsSecret, BeforeEquals, Tag;
  }

  lemma Rejoin(s: string, h: nat, n: nat)
    requires h + n <= |s|
    ensures s[..h] + s[h..][..n] + s[h + n..] == s
  {
  }

  lemma {:induction false} StableFixed(p: Pass, s: string)
    requires Stable(p, s)
    ensures Replace(p, s) == s
    decreases |s|
  {
    hide Replace, Head, Run, Tag, Matches;
    if s != [] {
      if Matches(p, s) {
        var h := Head(p, s);
        var k := h + Run(p, s[h..]);
        ReplaceMatch(p, s);
        StableSuffix(p, s, k);
        StableFixed(p, s[k..]);
        Rejoin(s, h, Run(p, s[h..]));
      } else {
        StableFixed(p, s[1..]);
        assert s == [s[0]] + s[1..];
        ReplaceSkip(p, s[0], s[1..]);
      }
    } else {
      ReplaceFirst(p, s);
    }
  }

  lemma ReplaceFirst(p: Pass, s: string)
    ensures Replace(p, s) == [] <==> s == []
    ensures s != [] ==> Replace(p, s)[0] == s[0]
  {
  }

  lemma {:induction false} RunExact(p: Pass, w: string, rest: string)
    requires forall i :: 0 <= i < |w| ==> !Stops(p, w[i])
    requires rest != [] ==> Stops(p, rest[0])
    ensures Run(p, w + rest) == |w|
  {
    if w == [] {
      assert w + rest == rest;
    } else {
      assert (w + rest)[1..] == w[1..] + rest;
      RunExact(p, w[1..], rest);
    }
  }

  lemma {:induction false} StableInert(p: Pass, w: string, rest: string)
    requires Inert(p, w) && Stable(p, rest)
    ensures Stable(p, w + rest)
  {
    if w == [] {
      assert w + rest == rest;
    } else {
      InertNoHead(p, w, rest);
      InertTail(p, w);
      assert (w + rest)[1..] == w[1..] + rest;
      StableInert(p, w[1..], rest);
    }
  }

  // ---------------------------------------------------------------- what a pass does to another pass's matches

  /** p is q, or runs before q. */
  predicate NotAfter(p: Pass, q: Pass) {
    p == q || p.Delivery? || (p.Upload? && q.Query?)
  }

  lemma WalkStep(q: Pass, s: string, w: string)
    requires w != [] && InertAt(q, w, 0) && w <= Replace(q, s)
    ensures s != [] && s[0] == w[0] && Replace(q, s) == [s[0]] + Replace(q, s[1..])
  {
    ReplaceFirst(q, s);
    if Matches(q, s) { HeadStart(q, s); }
  }

  /** An inert text at the start of the output was at the start of the input. */
  lemma {:induction false} Walk(q: Pass, s: string, w: string)
    requires Inert(q, w) && w <= Replace(q, s)
    ensures w <= s && Replace(q, s) == w + Replace(q, s[|w|..])
  {
    hide Replace, InertAt;
    if w == [] {
      assert s[0..] == s;
    } else {
      assert InertAt(q, w, 0);
      WalkStep(q, s, w);
      InertTail(q, w);
      Walk(q, s[1..], w[1..]);
      assert s[1..][|w| - 1..] == s[|w|..];
    }
  }

  /** Where q does not match, a head of p in the output was there in the input, and what follows
      it in the output is the replacement of what followed it. */
  lemma HeadKept(p: Pass, q: Pass, s: string)
    requires NotAfter(p, q) && s != [] && !Matches(q, s) && Head(p, Replace(q, s)) > 0
    requires p != q ==> Settled(p, s)
    ensures var h := Head(p, Replace(q, s));
            Head(p, s) == h && Replace(q, s) == s[..h] + Replace(q, s[h..])
  {
    if p.Query? { QueryHeadKept(s); } else { PathHeadKept(p, q, s); }
  }

  lemma QueryHeadKept(s: string)
    requires s != [] && !Matches(Query, s)
    ensures Head(Query, Replace(Query, s)) == 0
  {
    hide Replace, IsSecret, BeforeEquals, Run;
    var r := Replace(Query, s);
    if Head(Query, r) > 0 {
      var h := Head(Query, r);
      QueryHeadPlain(r);
      var w := r[1..h];
      NoMatchStep(Query, s);
      forall i | 0 <= i < |w| ensures InertAt(Query, w, i) { assert w[i] == r[i + 1]; }
      Walk(Query, s[1..], w);
      assert s[..h] == [s[0]] + w == r[..h];
      HeadPrefix(Query, r, s);
    }
  }

  lemma NoMatchStep(q: Pass, s: string)
    requires s != [] && !Matches(q, s)
    ensures Replace(q, s) == [s[0]] + Replace(q, s[1..])
  {
  }

  lemma MiddleInert(p: Pass, q: Pass)
    requires NotAfter(p, q) && !p.Query?
    ensures Inert(q, Middle(p))
  {
  }

  lemma PathHead(p: Pass, s: string)
    requires !p.Query?
    ensures Head(p, s) > 0 <==> "/" + Middle(p) + "/" <= s
    ensures Head(p, s) > 0 ==> Head(p, s) == |Middle(p)| + 2
  {
  }

  lemma PathHeadKept(p: Pass, q: Pass, s: string)
    requires NotAfter(p, q) && !p.Query? && s != [] && !Matches(q, s) && Head(p, Replace(q, s)) > 0
    requires p != q ==> Settled(p, s)
    ensures var h := Head(p, Replace(q, s));
            Head(p, s) == h && Replace(q, s) == s[..h] + Replace(q, s[h..])
  {
    hide Replace, Matches, Head, Settled;
    var r, m := Replace(q, s), Middle(p);
    var k := |m|;
    PathHead(p, r);
    NoMatchStep(q, s);
    MiddleInert(p, q);
    PathSplit(s, r, m, Replace(q, s[1..]));
    Walk(q, s[1..], m);
    var tail := s[k + 1..];
    assert s[1..][k..] == tail;
    ReplaceFirst(q, tail);
    assert r[k + 1] == '/';
    assert s == [s[0]] + m + tail;
    assert "/" + m + "/" <= s;
    PathHead(p, s);
    LastSlash(p, q, s);
    NoMatchStep(q, tail);
    assert tail[1..] == s[k + 2..];
  }

  lemma PathSplit(s: string, r: string, m: string, r': string)
    requires s != [] && r == [s[0]] + r' && "/" + m + "/" <= r
    ensures s[0] == '/' && m <= r' && |r'| > |m| && r'[|m|] == '/'
  {
    assert r[..|m| + 2] == "/" + m + "/";
    assert r[|m| + 1] == r[..|m| + 2][|m| + 1] == '/';
    assert r'[..|m|] == r[1..|m| + 1] == r[..|m| + 2][1..|m| + 1] == m;
  }

  /** The slash that closes a path head opens no match of q. */
  lemma LastSlash(p: Pass, q: Pass, s: string)
    requires NotAfter(p, q) && !p.Query? && Head(p, s) == |Middle(p)| + 2 && !Matches(q, s)
    requires p != q ==> Settled(p, s)
    ensures s[|Middle(p)| + 1] == '/' && !Matches(q, s[|Middle(p)| + 1..])
  {
    hide Matches, Run, Head, Settled;
    var k := |Middle(p)| + 1;
    PathHead(p, s);
    assert s[..k + 1] == "/" + Middle(p) + "/";
    assert s[k] == s[..k + 1][k];
    if Matches(q, s[k..]) {
      MatchStart(q, s[k..]);
      PathStart(p, s);
    }
  }

  lemma MatchStart(q: Pass, s: string)
    requires Matches(q, s)
    ensures q.Query? ==> s[0] == '?' || s[0] == '&'
    ensures !q.Query? ==> |s| > 1 && s[1] == Second(q)
  {
    HeadStart(q, s);
  }

  /** A path head followed by a character of the run is a match; when settled, that character opens the tag. */
  lemma PathStart(p: Pass, s: string)
    requires !p.Query? && Head(p, s) == |Middle(p)| + 2 < |s| && !Stops(p, s[|Middle(p)| + 2])
    ensures Matches(p, s)
    ensures Settled(p, s) ==> s[|Middle(p)| + 2] == '['
  {
    hide Head;
    var x := s[|Middle(p)| + 2..];
    assert x[0] == s[|Middle(p)| + 2];
    assert Run(p, x) > 0;
    assert x[..Run(p, x)][0] == x[0];
  }

  // ---------------------------------------------------------------- every pass keeps the earlier ones settled

  lemma SameRun(p: Pass, x: string, y: string)
    requires Run(p, x) == 0 && (x == [] <==> y == []) && (x != [] ==> y[0] == x[0])
    ensures Run(p, y) == 0
  {
  }

  lemma TagInert(p: Pass, q: Pass)
    ensures Inert(q, Tag(p)) && forall i :: 0 <= i < |Tag(p)| ==> !Stops(p, Tag(p)[i])
  {
  }

  /** Where q does not match, p stays settled. */
  lemma UnmatchedKept(p: Pass, q: Pass, s: string)
    requires NotAfter(p, q) && s != [] && !Matches(q, s)
    requires p != q ==> Settled(p, s)
    ensures Settled(p, Replace(q, s))
  {
    hide Replace, Run, Head, Tag;
    var r := Replace(q, s);
    if Head(p, r) > 0 {
      HeadKept(p, q, s);
      var h := Head(p, r);
      var x := s[h..];
      var y := Replace(q, x);
      assert r[h..] == y;
      ReplaceFirst(q, x);
      if p == q || Run(p, x) == 0 {
        SameRun(p, x, y);
      } else {
        SettledRun(p, q, x);
      }
    }
  }

  lemma SettledRun(p: Pass, q: Pass, x: string)
    requires x[..Run(p, x)] == Tag(p)
    ensures Replace(q, x)[..Run(p, Replace(q, x))] == Tag(p)
  {
    hide Replace, Tag, Stops;
    var t, z := Tag(p), x[Run(p, x)..];
    assert x == t + z;
    TagInert(p, q);
    ReplaceInert(q, t, z);
    ReplaceFirst(q, z);
    RunExact(p, t, Replace(q, z));
  }

  lemma OutputInert(p: Pass, q: Pass, s: string)
    requires NotAfter(p, q) && Head(q, s) > 0
    ensures p != q ==> Inert(p, s[..Head(q, s)] + Tag(q))
    ensures p == q ==> Inert(p, s[1..Head(q, s)] + Tag(q))
  {
    hide IsSecret, BeforeEquals;
    if q.Query? {
      QueryHeadPlain(s);
    } else {
      PathHead(q, s);
      assert s[..Head(q, s)] == "/" + Middle(q) + "/";
      PathOutputInert(p, q);
      assert s[1..Head(q, s)] == Middle(q) + "/";
    }
  }

  lemma PathOutputInert(p: Pass, q: Pass)
    requires NotAfter(p, q) && !q.Query?
    ensures p != q ==> Inert(p, "/" + Middle(q) + "/" + Tag(q))
    ensures p == q ==> Inert(p, Middle(q) + "/" + Tag(q))
  {
    if q.Delivery? { DeliveryOutput(); } else if p.Upload? { UploadOutput(); } else { UploadHidesNoDelivery(); }
  }

  lemma DeliveryOutput()
    ensures Inert(Delivery, Middle(Delivery) + "/" + Tag(Delivery))
  {
    assert Middle(Delivery) + "/" + Tag(Delivery) == "d/[redacted]";
  }

  lemma UploadOutput()
    ensures Inert(Upload, Middle(Upload) + "/" + Tag(Upload))
  {
    assert Middle(Upload) + "/" + Tag(Upload) == "api/upload/[filename]";
  }

  lemma UploadHidesNoDelivery()
    ensures Inert(Delivery, "/" + Middle(Upload) + "/" + Tag(Upload))
  {
    assert "/" + Middle(Upload) + "/" + Tag(Upload) == "/api/upload/[filename]";
  }

  lemma MatchedSettled(q: Pass, s: string, rest: string)
    requires Head(q, s) > 0 && (rest != [] ==> Stops(q, rest[0]))
    ensures Settled(q, s[..Head(q, s)] + (Tag(q) + rest))
  {
    hide Tag, Stops;
    var h := Head(q, s);
    var r := s[..h] + (Tag(q) + rest);
    assert r[..h] == s[..h];
    HeadPrefix(q, s, r);
    assert r[h..] == Tag(q) + rest;
    TagInert(q, q);
    RunExact(q, Tag(q), rest);
  }

  lemma MatchedKept(p: Pass, q: Pass, s: string, rest: string)
    requires NotAfter(p, q) && Head(q, s) > 0 && (rest != [] ==> Stops(q, rest[0]))
    requires Stable(p, rest)
    ensures Stable(p, s[..Head(q, s)] + Tag(q) + rest)
  {
    hide Head, Tag, Stops, Inert, Settled;
    var h := Head(q, s);
    OutputInert(p, q, s);
    var r := s[..h] + Tag(q) + rest;
    if p != q {
      StableInert(p, s[..h] + Tag(q), rest);
    } else {
      var w := s[1..h] + Tag(q);
      StableInert(p, w, rest);
      MatchedSettled(q, s, rest);
      assert r == s[..h] + (Tag(q) + rest);
      assert r[1..] == w + rest;
    }
  }

  /** A pass settles its own matches and keeps those of the passes before it settled. */
  lemma {:induction false} PassKeeps(p: Pass, q: Pass, s: string)
    requires NotAfter(p, q) && (p == q || Stable(p, s))
    ensures Stable(p, Replace(q, s))
    decreases |s|
  {
    hide Head, Tag, Run, Replace, Settled;
    if s == [] {
      ReplaceFirst(q, s);
    } else if Matches(q, s) {
      ReplaceMatch(q, s);
      var h := Head(q, s);
      var k := h + Run(q, s[h..]);
      var rest := Replace(q, s[k..]);
      if p != q { StableSuffix(p, s, k); }
      PassKeeps(p, q, s[k..]);
      ReplaceFirst(q, s[k..]);
      RunEnd(q, s, h);
      MatchedKept(p, q, s, rest);
    } else {
      NoMatchStep(q, s);
      PassKeeps(p, q, s[1..]);
      UnmatchedKept(p, q, s);
    }
  }

  lemma RunEnd(q: Pass, s: string, h: nat)
    requires h <= |s|
    ensures h + Run(q, s[h..]) <= |s|
    ensures h + Run(q, s[h..]) < |s| ==> Stops(q, s[h + Run(q, s[h..])])
  {
  }

  /** Redacting twice is redacting once, for every text and across all three passes. */
  lemma RedactIdempotent(s: string)
    ensures Redact(Redact(s)) == Redact(s)
  {
    hide Replace, Stable;
    var a := Replace(Delivery, s);
    var b := Replace(Upload, a);
    var c := Replace(Query, b);
    PassKeeps(Delivery, Delivery, s);
    PassKeeps(Delivery, Upload, a);
    PassKeeps(Upload, Upload, a);
    PassKeeps(Delivery, Query, b);
    PassKeeps(Upload, Query, b);
    PassKeeps(Query, Query, b);
    StableFixed(Delivery, c);
    StableFixed(Upload, c);
    StableFixed(Query, c);
  }
}
