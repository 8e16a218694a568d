/** What the redactor of src/log.ts forgets: the token of a delivery path, the file name of an upload
    path and the value of a secret parameter; and exactly when each of them gets through. */
module Forgetting {
  import opened Text
  import opened Redaction

  // ---------------------------------------------------------------- forgetting the token

  /** How many times `/d` is repeated at the end of a text. */
  function Trail(s: string): (k: nat)
  {
    var n := |s|;
    if n >= 2 && s[n - 2] == '/' && s[n - 1] == 'd' then 1 + Trail(s[..n - 2]) else 0
  }

  /** Scanning s for delivery paths ends on an unmatched `/d`. */
  predicate Dangling(s: string)
    decreases |s|
  {
    if s == [] then false
    else if s == "/d" then true
    else if Matches(Delivery, s) then Dangling(s[3 + Run(Delivery, s[3..])..])
    else Dangling(s[1..])
  }

  predicate IsToken(t: string) { t != [] && forall i :: 0 <= i < |t| ==> !Stops(Delivery, t[i]) }

  predicate Boundary(p: Pass, rest: string) { rest != [] ==> Stops(p, rest[0]) }

  lemma {:induction false} TrailConcat(m: string, x: string)
    requires x != [] && x[0] == 'd' && m != [] ==> m[|m| - 1] != '/'
    ensures Trail(m + x) == if 2 * Trail(x) == |x| then Trail(x) + Trail(m) else Trail(x)
    decreases |x|
  {
    var n := |x|;
    if x == [] {
      assert m + x == m;
    } else if n >= 2 && x[n - 2] == '/' && x[n - 1] == 'd' {
      assert (m + x)[..|m| + n - 2] == m + x[..n - 2];
      TrailConcat(m, x[..n - 2]);
    }
  }

  lemma MatchTrail(s: string)
    requires Matches(Delivery, s)
    ensures var k := 3 + Run(Delivery, s[3..]);
            Trail(s[..k]) % 2 == 0 && (k < |s| ==> s[k] != 'd')
  {
    var k := 3 + Run(Delivery, s[3..]);
    var m := s[..k];
    RunEnd(Delivery, s, 3);
    assert forall i :: 3 <= i < k ==> m[i] == s[3..][i - 3] && m[i] != '/';
    if m[k - 1] == 'd' && m[k - 2] == '/' {
      assert k == 4;
      assert m[..2] == "/d";
      assert Trail("/d") == 1 by { assert "/d"[..0] == ""; }
    }
  }

  lemma DeliveryShape(s: string)
    requires Matches(Delivery, s)
    ensures |s| > 3 && s[0] == '/' && s[1] == 'd' && s[2] == '/'
    ensures 3 + Run(Delivery, s[3..]) <= |s| && s != "/d"
  {
    hide Run;
    assert s[..3] == "/d/";
  }

  lemma DanglingMatch(s: string)
    requires Matches(Delivery, s)
    ensures |s| > 3 && s[0] == '/' && s[1] == 'd' && s[2] == '/'
    ensures 3 + Run(Delivery, s[3..]) <= |s|
    ensures Dangling(s) <==> Dangling(s[3 + Run(Delivery, s[3..])..])
  {
    hide Run, Matches, Head, Stops;
    DeliveryShape(s);
  }

  lemma DanglingStep(s: string)
    requires s != [] && s != "/d" && !Matches(Delivery, s)
    ensures Dangling(s) <==> Dangling(s[1..])
  {
  }

  lemma DeliveryStart(s: string)
    requires |s| > 3 && s[0] == '/' && s[1] == 'd' && s[2] == '/' && !Stops(Delivery, s[3])
    ensures Matches(Delivery, s)
  {
    assert s[..3] == "/d/";
    assert s[3..][0] == s[3];
  }

  /** The scan is left on an unmatched `/d` exactly when an odd number of them ends the text. */
  lemma {:induction false} DanglingParity(s: string)
    ensures Dangling(s) <==> Trail(s) % 2 == 1
    decreases |s|
  {
    hide Matches, Run, Head, Dangling, Trail;
    if |s| <= 2 {
      ShortParity(s);
    } else if Matches(Delivery, s) {
      DanglingMatch(s);
      var k := 3 + Run(Delivery, s[3..]);
      DanglingParity(s[k..]);
      MatchTrail(s);
      assert s == s[..k] + s[k..];
      TrailConcat(s[..k], s[k..]);
    } else {
      DanglingStep(s);
      if s[0] == '/' && s[1] == 'd' {
        DanglingParity(s[2..]);
        LoneDelivery(s);
      } else {
        DanglingParity(s[1..]);
        OtherStart(s);
      }
    }
  }

  lemma ShortParity(s: string)
    requires |s| <= 2
    ensures Dangling(s) <==> Trail(s) % 2 == 1
  {
    if |s| == 2 { assert s[..0] == ""; }
  }

  lemma OtherStart(s: string)
    requires |s| > 2 && (s[0] != '/' || s[1] != 'd')
    ensures Trail(s) == Trail(s[1..])
  {
    assert s == s[..1] + s[1..];
    TrailConcat(s[..1], s[1..]);
  }

  /** `/d` that starts no match is not part of the trailing run. */
  lemma LoneDelivery(s: string)
    requires |s| > 2 && s[0] == '/' && s[1] == 'd' && !Matches(Delivery, s)
    ensures Dangling(s[1..]) <==> Dangling(s[2..])
    ensures Trail(s) == Trail(s[2..])
  {
    var x := s[2..];
    assert s[1..][0] == 'd' && s[1..][1..] == x;
    DanglingStep(s[1..]);
    LoneTrail(s, x);
  }

  lemma LoneTrail(s: string, x: string)
    requires s == "/d" + x && x != [] && !Matches(Delivery, s)
    ensures Trail(s) == Trail(x)
  {
    hide Matches;
    if 2 * Trail(x) == |x| {
      TrailStart(x);
      DeliveryStart(s);
    }
    TrailConcat("/d", x);
  }

  lemma {:induction false} TrailStart(x: string)
    requires x != [] && 2 * Trail(x) == |x|
    ensures |x| >= 2 && x[0] == '/' && x[1] == 'd'
  {
    if |x| > 2 { TrailStart(x[..|x| - 2]); }
  }

  lemma {:induction false} RunBefore(p: Pass, u: string, x: string)
    requires Run(p, u) < |u| || (x != [] ==> Stops(p, x[0]))
    ensures Run(p, u + x) == Run(p, u)
    decreases |u|
  {
    hide Stops;
    if u == [] {
      assert u + x == x;
    } else if !Stops(p, u[0]) {
      assert (u + x)[1..] == u[1..] + x;
      RunBefore(p, u[1..], x);
    }
  }

  lemma {:induction false} RunThrough(p: Pass, u: string, x: string)
    requires forall i :: 0 <= i < |u| ==> !Stops(p, u[i])
    ensures Run(p, u + x) == |u| + Run(p, x)
  {
    if u == [] {
      assert u + x == x;
    } else {
      assert (u + x)[1..] == u[1..] + x;
      RunThrough(p, u[1..], x);
    }
  }

  lemma PathAppended(s: string, x: string)
    requires s != [] && s != "/d" && x != [] && x[0] == '/'
    ensures Matches(Delivery, s + x) <==> Matches(Delivery, s)
    ensures Matches(Delivery, s) ==> Run(Delivery, (s + x)[3..]) == Run(Delivery, s[3..])
  {
    var u := s + x;
    if |s| >= 3 {
      assert u[..3] == s[..3];
      assert u[3..] == s[3..] + x;
      RunBefore(Delivery, s[3..], x);
    } else if |s| == 2 {
      assert u[0] == s[0] && u[1] == s[1];
    } else {
      assert u[1] == x[0];
    }
  }

  /** Unless the scan of s is left on a `/d`, a following slash starts afresh. */
  lemma {:induction false} DeliverySplit(s: string, x: string)
    requires !Dangling(s) && x != [] && x[0] == '/'
    ensures Replace(Delivery, s + x) == Replace(Delivery, s) + Replace(Delivery, x)
    decreases |s|
  {
    hide Replace, Matches, Run, Head, Tag, Dangling;
    if s == [] {
      assert s + x == x;
      ReplaceFirst(Delivery, s);
    } else {
      DanglingNext(s);
      PathAppended(s, x);
      if Matches(Delivery, s) {
        var k := 3 + Run(Delivery, s[3..]);
        DeliveryStep(s);
        DeliveryStep(s + x);
        Resume(s, x, k);
        DeliverySplit(s[k..], x);
        Grouped(s[..3] + Tag(Delivery), Replace(Delivery, s[k..]), Replace(Delivery, x));
      } else {
        NoMatchStep(Delivery, s);
        NoMatchStep(Delivery, s + x);
        FirstDropped(s, x);
        DeliverySplit(s[1..], x);
        Grouped([s[0]], Replace(Delivery, s[1..]), Replace(Delivery, x));
      }
    }
  }

  lemma FirstDropped(s: string, x: string)
    requires s != []
    ensures (s + x)[0] == s[0] && (s + x)[1..] == s[1..] + x
  {
  }

  lemma DanglingNext(s: string)
    requires s != [] && !Dangling(s)
    ensures s != "/d"
    ensures Matches(Delivery, s) ==> 3 <= |s| && 3 + Run(Delivery, s[3..]) <= |s| && !Dangling(s[3 + Run(Delivery, s[3..])..])
    ensures !Matches(Delivery, s) ==> !Dangling(s[1..])
  {
    hide Run, Head;
    if Matches(Delivery, s) { DanglingMatch(s); }
  }

  lemma DeliveryStep(s: string)
    requires Matches(Delivery, s)
    ensures 3 + Run(Delivery, s[3..]) <= |s|
    ensures Replace(Delivery, s) == s[..3] + Tag(Delivery) + Replace(Delivery, s[3 + Run(Delivery, s[3..])..])
  {
    ReplaceMatch(Delivery, s);
  }

  lemma Resume(s: string, x: string, k: nat)
    requires 3 <= k <= |s|
    ensures (s + x)[..3] == s[..3] && (s + x)[k..] == s[k..] + x
  {
  }

  function Path(t: string): string { "/d/" + t }

  lemma TokenReplaced(t: string, rest: string)
    requires IsToken(t) && Boundary(Delivery, rest)
    ensures Replace(Delivery, Path(t) + rest) == "/d/[redacted]" + Replace(Delivery, rest)
  {
    hide Replace, Matches, Run;
    var s := Path(t) + rest;
    assert s[..3] == "/d/" && s[3..] == t + rest;
    DeliveryStart(s);
    DeliveryStep(s);
    RunExact(Delivery, t, rest);
    assert s[3 + |t|..] == rest;
  }

  /** The first pass forgets the token of a delivery path unless an odd number of `/d` stands before it. */
  lemma DeliveryForgets(pre: string, t: string, rest: string)
    requires Trail(pre) % 2 == 0 && IsToken(t) && Boundary(Delivery, rest)
    ensures Replace(Delivery, pre + (Path(t) + rest)) == Replace(Delivery, pre) + ("/d/[redacted]" + Replace(Delivery, rest))
  {
    hide Replace, Dangling, Trail;
    DanglingParity(pre);
    DeliverySplit(pre, Path(t) + rest);
    TokenReplaced(t, rest);
  }

  /** Two texts that differ only in the token are redacted to the same text. */
  lemma RedactForgets(pre: string, t1: string, t2: string, rest: string)
    requires Trail(pre) % 2 == 0 && IsToken(t1) && IsToken(t2) && Boundary(Delivery, rest)
    ensures Redact(pre + (Path(t1) + rest)) == Redact(pre + (Path(t2) + rest))
  {
    hide Replace, Trail;
    DeliveryForgets(pre, t1, rest);
    DeliveryForgets(pre, t2, rest);
  }

  // ---------------------------------------------------------------- exactly when the token is forgotten

  /** The last match of p in s runs to the end of s, so it would swallow what follows. */
  predicate Open(p: Pass, s: string)
    decreases |s|
  {
    if s == [] then false
    else if Matches(p, s) then
      var k := Head(p, s) + Run(p, s[Head(p, s)..]);
      k == |s| || Open(p, s[k..])
    else Open(p, s[1..])
  }

  predicate Bracketed(s: string) { s != [] && s[|s| - 1] == ']' }

  /** Where a later text cannot change what a pattern has begun: no head of p goes on behind the last
      character. */
  predicate Closed(p: Pass, s: string) {
    s != [] && var c := s[|s| - 1]; c == ']' || c == '=' || (c == '&' && !p.Query?)
  }

  /** A head is made of letters, `_` and `/` behind its first character, and a `=` that ends it. */
  lemma HeadChars(p: Pass, s: string)
    ensures forall i :: 0 < i < Head(p, s) ==>
      s[i] == '/' || s[i] == '_' || IsLetter(s[i]) || (s[i] == '=' && i == Head(p, s) - 1)
  {
    var h := Head(p, s);
    if h > 0 {
      if p.Query? {
        hide IsSecret, BeforeEquals;
        SecretWord(s[1..h - 1]);
        forall i | 0 < i < h - 1 ensures s[i] == '_' || IsLetter(s[i]) { assert s[i] == s[1..h - 1][i - 1]; }
      } else {
        hide IsLetter, Middle;
        PathHead(p, s);
        PathLetters(p);
        var w := "/" + Middle(p) + "/";
        assert s[..h] == w;
        forall i | 0 <= i < h ensures s[i] == '/' || IsLetter(s[i]) { assert s[i] == w[i] && w[i] in w; }
      }
    }
  }

  lemma PathLetters(p: Pass)
    requires !p.Query?
    ensures forall c :: c in "/" + Middle(p) + "/" ==> c == '/' || IsLetter(c)
  {
    assert forall c :: c in "api/upload" ==> c == '/' || IsLetter(c);
  }

  lemma HeadWithin(p: Pass, s: string, x: string)
    requires Head(p, s + x) <= |s|
    ensures Head(p, s + x) == Head(p, s)
  {
    hide Head;
    var u := s + x;
    if Head(p, u) > 0 {
      assert u[..Head(p, u)] == s[..Head(p, u)];
      HeadPrefix(p, u, s);
    } else if Head(p, s) > 0 {
      assert u[..Head(p, s)] == s[..Head(p, s)];
      HeadPrefix(p, s, u);
    }
  }

  lemma HeadClosed(p: Pass, s: string, x: string)
    requires Closed(p, s)
    ensures Head(p, s + x) == Head(p, s) <= |s|
    ensures !p.Query? ==> Head(p, s) < |s|
  {
    hide Head;
    var u := s + x;
    var k := |s| - 1;
    assert u[k] == s[k];
    HeadChars(p, u);
    HeadChars(p, s);
    if k == 0 {
      NoHeadHere(p, u);
      NoHeadHere(p, s);
    }
    HeadWithin(p, s, x);
    if !p.Query? && Head(p, s) > 0 { PathHeadEnds(p, s); }
  }

  lemma NoHeadHere(p: Pass, s: string)
    requires s != [] && (s[0] == ']' || s[0] == '=' || (s[0] == '&' && !p.Query?))
    ensures Head(p, s) == 0
  {
  }

  lemma PathHeadEnds(p: Pass, s: string)
    requires !p.Query? && Head(p, s) > 0
    ensures s[Head(p, s) - 1] == '/'
  {
    PathHead(p, s);
    var h := Head(p, s);
    assert s[..h] == "/" + Middle(p) + "/";
    assert s[h - 1] == s[..h][h - 1];
  }

  /** A head ends before a character that stops a run, other than a slash. */
  lemma HeadBeforeStop(p: Pass, u: string, x: string)
    requires u != [] && x != [] && Stops(p, x[0]) && x[0] != '/'
    ensures Head(p, u + x) == Head(p, u)
  {
    hide Head;
    HeadChars(p, u + x);
    assert (u + x)[|u|] == x[0];
    HeadWithin(p, u, x);
  }

  lemma MatchAppended(p: Pass, s: string, x: string)
    requires Closed(p, s)
    ensures Matches(p, s + x) <==> Matches(p, s)
    ensures Head(p, s + x) == Head(p, s) <= |s|
    ensures var h := Head(p, s);
            Matches(p, s) ==>
              Run(p, (s + x)[h..]) == Run(p, s[h..]) + (if h + Run(p, s[h..]) == |s| then Run(p, x) else 0)
  {
    hide Head, Run;
    HeadClosed(p, s, x);
    var u := s[Head(p, s)..];
    assert (s + x)[Head(p, s)..] == u + x;
    if Run(p, u) < |u| { RunBefore(p, u, x); } else { WholeRun(p, u); RunThrough(p, u, x); }
  }

  lemma WholeRun(p: Pass, u: string)
    requires Run(p, u) >= |u|
    ensures forall i :: 0 <= i < |u| ==> !Stops(p, u[i])
  {
  }

  lemma OpenMatch(p: Pass, s: string)
    requires Matches(p, s)
    ensures var k := Head(p, s) + Run(p, s[Head(p, s)..]);
            && 0 < k <= |s|
            && (Open(p, s) <==> k == |s| || Open(p, s[k..]))
  {
    hide Run, IsSecret, BeforeEquals;
  }

  lemma OpenNext(p: Pass, s: string)
    requires !Matches(p, s)
    ensures Open(p, s) <==> s != [] && Open(p, s[1..])
  {
    hide Run, Head, Matches;
  }

  lemma AppendedMatch(p: Pass, s: string, x: string)
    requires Closed(p, s) && Matches(p, s)
    ensures var h := Head(p, s);
            var k := h + Run(p, s[h..]);
            && k <= |s|
            && Replace(p, s + x) == s[..h] + Tag(p) + Replace(p, if k == |s| then x[Run(p, x)..] else s[k..] + x)
  {
    hide Replace, Matches, Head, Run, Tag, Closed;
    MatchAppended(p, s, x);
    var h := Head(p, s);
    var k := h + Run(p, s[h..]);
    SliceBefore(s, x, h);
    if k == |s| { SliceBehind(s, x, Run(p, x)); } else { SliceBefore(s, x, k); }
    ReplaceMatch(p, s + x);
  }

  /** What a pass does to text appended to a closed one: it is swallowed up to the end of the run when
      the pass is open there, and replaced on its own otherwise. */
  lemma {:induction false} ReplaceAppended(p: Pass, s: string, x: string)
    requires s == [] || Closed(p, s)
    ensures Replace(p, s + x) == Replace(p, s) + Replace(p, if Open(p, s) then x[Run(p, x)..] else x)
    decreases |s|
  {
    hide Replace, Matches, Head, Run, Open, Tag;
    if s == [] {
      assert s + x == x;
      ReplaceFirst(p, s);
      NothingOpen(p);
    } else {
      MatchAppended(p, s, x);
      if Matches(p, s) {
        AppendedMatch(p, s, x);
        OpenMatch(p, s);
        ReplaceMatch(p, s);
        var h := Head(p, s);
        var k := h + Run(p, s[h..]);
        if k == |s| {
          assert s[k..] == [];
          ReplaceFirst(p, s[k..]);
        } else {
          ReplaceAppended(p, s[k..], x);
          Grouped(s[..h] + Tag(p), Replace(p, s[k..]), Replace(p, if Open(p, s) then x[Run(p, x)..] else x));
        }
      } else {
        OpenNext(p, s);
        NoMatchStep(p, s);
        NoMatchStep(p, s + x);
        assert (s + x)[1..] == s[1..] + x;
        ReplaceAppended(p, s[1..], x);
        Grouped([s[0]], Replace(p, s[1..]), Replace(p, if Open(p, s) then x[Run(p, x)..] else x));
      }
    }
  }

  lemma NothingOpen(p: Pass)
    ensures !Open(p, [])
  {
  }

  /** A pass leaves the last character, or a tag where it is open. */
  lemma {:induction false} LastKept(p: Pass, s: string)
    requires s != []
    ensures var r := Replace(p, s);
      r != [] && r[|r| - 1] == if Open(p, s) then ']' else s[|s| - 1]
    decreases |s|
  {
    hide Replace, Matches, Head, Run, Open;
    if Matches(p, s) {
      ReplaceMatch(p, s);
      OpenMatch(p, s);
      var k := Head(p, s) + Run(p, s[Head(p, s)..]);
      ReplaceFirst(p, s[k..]);
      if k < |s| { LastKept(p, s[k..]); }
    } else {
      NoMatchStep(p, s);
      OpenNext(p, s);
      ReplaceFirst(p, s[1..]);
      if |s| > 1 { LastKept(p, s[1..]); } else { NothingOpen(p); }
    }
  }

  /** A token such as the 43 base64url characters a link carries. */
  predicate IsPlainToken(t: string) {
    IsToken(t) && '&' !in t && t != "d" && t != "api"
  }

  lemma TokenSlash(p: Pass, t: string, rest: string)
    requires IsPlainToken(t) && Boundary(Delivery, rest)
    ensures Replace(p, "/" + t + rest) == "/" + t + Replace(p, rest)
    ensures p.Upload? || p.Query? ==> ("/" + t + rest)[Run(p, "/" + t + rest)..] == rest[Run(p, rest)..]
  {
    hide Replace, Run;
    var s := "/" + t + rest;
    assert s[1..] == t + rest;
    SlashNoMatch(p, t, rest);
    NoMatchStep(p, s);
    PlainToken(p, t);
    ReplaceInert(p, t, rest);
    if !p.Delivery? { RunThrough(p, "/" + t, rest); }
  }

  lemma PlainToken(p: Pass, t: string)
    requires IsPlainToken(t)
    ensures Inert(p, t)
    ensures !p.Delivery? ==> forall i :: 0 <= i < |"/" + t| ==> !Stops(p, ("/" + t)[i])
    ensures t != [] && (!p.Delivery? ==> NoStops(p, t))
  {
    forall i | 0 <= i < |t| ensures InertAt(p, t, i) && !Stops(p, t[i]) { assert t[i] in t; }
    forall i | 0 <= i < |"/" + t| && !p.Delivery? ensures !Stops(p, ("/" + t)[i]) {
      if i > 0 { assert ("/" + t)[i] == t[i - 1]; }
    }
  }

  lemma SlashNoMatch(p: Pass, t: string, rest: string)
    requires IsPlainToken(t) && Boundary(Delivery, rest)
    ensures !Matches(p, "/" + t + rest)
  {
    hide Run;
    if !p.Query? {
      PathHead(p, "/" + t + rest);
      if p.Delivery? {
        NotThisSegment("d", "/", t, rest);
        assert "/" + Middle(p) + "/" == "/" + "d" + "/";
      } else {
        NotThisSegment("api", "/upload/", t, rest);
        assert "/" + Middle(p) + "/" == "/" + "api" + "/upload/";
      }
    }
  }

  /** A path whose first segment is t does not start with the segment w. */
  lemma NotThisSegment(w: string, more: string, t: string, rest: string)
    requires IsToken(t) && IsToken(w) && t != w && more != [] && more[0] == '/' && Boundary(Delivery, rest)
    ensures !("/" + w + more <= "/" + t + rest)
  {
    var m, s := "/" + w + more, "/" + t + rest;
    if |t| == |w| {
      var i :| 0 <= i < |t| && t[i] != w[i];
      assert m[i + 1] == w[i] && s[i + 1] == t[i];
    } else if |t| > |w| {
      assert m[|w| + 1] == '/' && s[|w| + 1] == t[|w|];
    } else {
      assert m[|t| + 1] == w[|t|];
      if rest != [] { assert s[|t| + 1] == rest[0]; }
    }
  }

  /** What a later pass makes of a leaked token: it vanishes only when the pass is open before it. */
  lemma LeakPassed(p: Pass, a: string, t: string, b: string)
    requires !p.Delivery? && Bracketed(a) && IsPlainToken(t) && Boundary(Delivery, b)
    ensures Replace(p, a + ("/" + t + b))
         == Replace(p, a) + (if Open(p, a) then Replace(p, b[Run(p, b)..]) else "/" + t + Replace(p, b))
  {
    hide Replace, Run, Open;
    ReplaceAppended(p, a, "/" + t + b);
    TokenSlash(p, t, b);
  }

  /** With an odd number of `/d` before it, the first pass puts the token out unchanged. */
  lemma DeliveryLeaks(pre: string, t: string, rest: string)
    requires Trail(pre) % 2 == 1 && IsPlainToken(t) && Boundary(Delivery, rest)
    ensures Replace(Delivery, pre + (Path(t) + rest))
         == Replace(Delivery, pre + "/d") + ("/" + t + Replace(Delivery, rest))
    ensures Bracketed(Replace(Delivery, pre + "/d"))
  {
    hide Replace;
    var p0 := pre[..|pre| - 2];
    assert pre == p0 + "/d";
    assert pre + "/d" == p0 + (Path("d") + "");
    assert pre + (Path(t) + rest) == p0 + (Path("d") + ("/" + t + rest));
    DeliveryForgets(p0, "d", "");
    DeliveryForgets(p0, "d", "/" + t + rest);
    ReplaceFirst(Delivery, "");
    TokenSlash(Delivery, t, rest);
    var a := Replace(Delivery, p0);
    assert a + ("/d/[redacted]" + "") == a + "/d/[redacted]";
    assert a + ("/d/[redacted]" + ("/" + t + Replace(Delivery, rest)))
        == (a + "/d/[redacted]") + ("/" + t + Replace(Delivery, rest));
  }

  /** A check on the text before the path alone: the first pass sees the path, or a file name or a
      secret parameter is still open in front of it. */
  predicate Forgotten(pre: string) {
    Trail(pre) % 2 == 0 ||
    var a := Replace(Delivery, pre + "/d");
    Open(Upload, a) || Open(Query, Replace(Upload, a))
  }

  lemma LeakRedacted(pre: string, t: string, rest: string)
    requires Trail(pre) % 2 == 1 && IsPlainToken(t) && Boundary(Delivery, rest)
    ensures var a := Replace(Delivery, pre + "/d");
            var b := Replace(Delivery, rest);
            var a', b' := Replace(Upload, a), Replace(Upload, b);
            Redact(pre + (Path(t) + rest)) ==
              if Open(Upload, a) then Replace(Query, a' + Replace(Upload, b[Run(Upload, b)..]))
              else if Open(Query, a') then Replace(Query, a') + Replace(Query, b'[Run(Query, b')..])
              else Replace(Query, a') + ("/" + t + Replace(Query, b'))
  {
    hide Replace, Run, Open, Trail;
    var a := Replace(Delivery, pre + "/d");
    var b := Replace(Delivery, rest);
    DeliveryLeaks(pre, t, rest);
    ReplaceFirst(Delivery, rest);
    LeakPassed(Upload, a, t, b);
    if !Open(Upload, a) {
      LastKept(Upload, a);
      ReplaceFirst(Upload, b);
      LeakPassed(Query, Replace(Upload, a), t, Replace(Upload, b));
    }
  }

  /** Two texts that differ only in a plain token are redacted alike exactly when Forgotten holds of
      what precedes the path. */
  lemma RedactForgetsPlainToken(pre: string, t1: string, t2: string, rest: string)
    requires IsPlainToken(t1) && IsPlainToken(t2) && t1 != t2 && Boundary(Delivery, rest)
    ensures Redact(pre + (Path(t1) + rest)) == Redact(pre + (Path(t2) + rest)) <==> Forgotten(pre)
  {
    hide Replace, Run, Open, Trail, IsToken, Redact;
    if Trail(pre) % 2 == 0 {
      RedactForgets(pre, t1, t2, rest);
    } else {
      LeakRedacted(pre, t1, rest);
      LeakRedacted(pre, t2, rest);
      var a' := Replace(Upload, Replace(Delivery, pre + "/d"));
      var b' := Replace(Upload, Replace(Delivery, rest));
      SameAround(Replace(Query, a'), t1, t2, Replace(Query, b'));
    }
  }

  lemma SameAround(a: string, t1: string, t2: string, b: string)
    ensures a + ("/" + t1 + b) == a + ("/" + t2 + b) <==> t1 == t2
  {
    var x, y := a + ("/" + t1 + b), a + ("/" + t2 + b);
    if x == y {
      assert |t1| == |t2|;
      assert x[|a| + 1..|a| + 1 + |t1|] == t1;
      assert y[|a| + 1..|a| + 1 + |t1|] == t2;
    }
  }

  /** The leak in its shortest form. */
  lemma OneDeliveryBeforeLeaks()
    ensures Redact("/d/d/secret") == "/d/[redacted]/secret"
  {
    hide Replace, Run;
    var leaked := "/d/[redacted]/secret";
    assert "/d/d/secret" == Path("d") + "/secret";
    TokenReplaced("d", "/secret");
    Untouched(Delivery, "/secret");
    assert "/d/[redacted]" + "/secret" == leaked;
    Untouched(Upload, leaked);
    Untouched(Query, leaked);
  }

  lemma Untouched(p: Pass, s: string)
    requires Inert(p, s)
    ensures Replace(p, s) == s
  {
    hide Replace;
    ReplaceInert(p, s, []);
    ReplaceFirst(p, []);
    assert s + [] == s;
  }

  // ---------------------------------------------------------------- file names and parameters

  /** A text the second or third pattern keeps in front of what it redacts. */
  predicate IsHead(p: Pass, m: string) {
    match p
    case Delivery => false
    case Upload => m == "/api/upload/"
    case Query => |m| >= 2 && (m[0] == '?' || m[0] == '&') && m[|m| - 1] == '=' && IsSecret(m[1..|m| - 1])
  }

  predicate NoStops(p: Pass, v: string) { forall i :: 0 <= i < |v| ==> !Stops(p, v[i]) }

  /** What stands behind the `=` cannot change where the head ends. */
  lemma HeadDecided(p: Pass, c: string, x: string, y: string)
    requires p.Upload? ==> |c| >= 12
    requires p.Query? ==> |c| >= 2 && c[|c| - 1] == '='
    requires !p.Delivery?
    ensures Head(p, c + x) == Head(p, c + y) <= |c|
  {
    hide Head;
    if p.Query? {
      HeadClosed(p, c, x);
      HeadClosed(p, c, y);
    } else {
      assert Head(p, c + x) <= 12 && Head(p, c + y) <= 12 by { UploadHead(c + x); UploadHead(c + y); }
      HeadWithin(p, c, x);
      HeadWithin(p, c, y);
    }
  }

  lemma UploadHead(s: string)
    ensures Head(Upload, s) <= 12
  {
  }

  lemma {:induction false} EqualsBefore(c: string, x: string)
    requires c != [] && c[|c| - 1] == '='
    ensures BeforeEquals(c + x) == BeforeEquals(c) < |c|
  {
    if c[0] != '=' {
      assert (c + x)[1..] == c[1..] + x;
      EqualsBefore(c[1..], x);
    }
  }

  lemma HeadThere(p: Pass, m: string, x: string)
    requires IsHead(p, m)
    ensures Head(p, m + x) == |m|
    ensures forall i :: (if p.Query? then 1 else 0) <= i < |m| ==> !Stops(p, m[i])
    ensures !p.Delivery? && if p.Upload? then |m| == 12 else |m| >= 2 && m[|m| - 1] == '='
  {
    hide IsSecret, BeforeEquals, AsciiLowered;
    if p.Upload? {
      hide IsSpace;
      assert (m + x)[..12] == m;
      forall i | 0 <= i < |m| ensures !Stops(p, m[i]) {
        assert m[i] == '/' || 'a' <= m[i] <= 'z';
        PlainChar(m[i]);
      }
    } else {
      var name := m[1..|m| - 1];
      SecretWord(name);
      forall i | 1 <= i < |m| ensures !Stops(p, m[i]) {
        if i < |m| - 1 { assert m[i] == name[i - 1]; }
        PlainChar(m[i]);
      }
      assert m[1..] == name + "=";
      EqualsBefore(m[1..], x);
      assert (m + x)[1..] == m[1..] + x;
      assert BeforeEquals(m[1..]) == |name|;
      assert (m + x)[1..|name| + 1] == name;
    }
  }

  lemma PlainChar(c: char)
    requires c == '/' || c == '=' || c == '_' || IsLetter(c)
    ensures forall p: Pass :: p.Delivery? || !Stops(p, c)
  {
  }

  /** The run goes on through v. */
  lemma Swallowed(p: Pass, c: string, v: string, rest: string)
    requires 0 < Head(p, c + (v + rest)) <= |c|
    requires NoStops(p, c[Head(p, c + (v + rest))..]) && NoStops(p, v) && Boundary(p, rest)
    requires !p.Query? ==> v != []
    ensures Replace(p, c + (v + rest)) == c[..Head(p, c + (v + rest))] + Tag(p) + Replace(p, rest)
  {
    hide Replace, Head, Run, Tag, Stops;
    var s := c + (v + rest);
    var h := Head(p, s);
    RunThrough(p, c[h..], v + rest);
    RunExact(p, v, rest);
    SliceBefore(c, v + rest, h);
    SliceBehind(c, v + rest, |v|);
    SliceBehind(v, rest, 0);
    ReplaceMatch(p, s);
    assert (v + rest)[|v|..] == rest;
  }

  /** The run ends before x. */
  lemma StopsEarly(p: Pass, c: string, x: string)
    requires Head(p, c + x) <= |c| && Run(p, c[Head(p, c + x)..]) < |c| - Head(p, c + x)
    ensures var h := Head(p, c + x);
      var j := Run(p, c[h..]);
      && (Matches(p, c + x) <==> h > 0 && (p.Query? || j > 0))
      && (Matches(p, c + x) ==> Replace(p, c + x) == c[..h] + Tag(p) + Replace(p, c[h + j..] + x))
  {
    hide Replace, Head, Run, Tag, Stops;
    var s := c + x;
    var h := Head(p, s);
    var j := Run(p, c[h..]);
    assert s[h..] == c[h..] + x && s[..h] == c[..h] && s[h + j..] == c[h + j..] + x;
    RunBefore(p, c[h..], x);
    if Matches(p, s) { ReplaceMatch(p, s); }
  }

  lemma StopInPre(p: Pass, pre: string, m: string, k: nat)
    requires IsHead(p, m) && k < |pre + m| && Stops(p, (pre + m)[k])
    ensures k <= |pre| && (pre + m)[k..] == pre[k..] + m
  {
    HeadThere(p, m, "");
    assert k >= |pre| ==> (pre + m)[k] == m[k - |pre|];
  }

  /** The second and third pass forget what they redact, whatever stands before it. */
  lemma {:induction false} PassForgets(p: Pass, pre: string, m: string, v1: string, v2: string, rest: string)
    requires IsHead(p, m) && NoStops(p, v1) && NoStops(p, v2) && Boundary(p, rest)
    requires p.Upload? ==> v1 != [] && v2 != []
    ensures Replace(p, pre + m + (v1 + rest)) == Replace(p, pre + m + (v2 + rest))
    decreases |pre|
  {
    hide Replace, Head, Run, Tag, Stops, Matches, IsHead;
    var c, x, y := pre + m, v1 + rest, v2 + rest;
    HeadThere(p, m, x);
    assert c[|c| - 1] == m[|m| - 1];
    HeadDecided(p, c, x, y);
    var h := Head(p, c + x);
    if pre == [] { assert c == m; }
    var j := Run(p, c[h..]);
    if h > 0 && j == |c| - h {
      WholeRun(p, c[h..]);
      Swallowed(p, c, v1, rest);
      Swallowed(p, c, v2, rest);
    } else if h > 0 && (p.Query? || j > 0) {
      StopsEarly(p, c, x);
      StopsEarly(p, c, y);
      assert Stops(p, c[h..][j]);
      StopInPre(p, pre, m, h + j);
      PassForgets(p, pre[h + j..], m, v1, v2, rest);
    } else {
      Unmatched(p, c, x, y);
      NoMatchStep(p, c + x);
      NoMatchStep(p, c + y);
      DropFirst(pre, m, x);
      DropFirst(pre, m, y);
      PassForgets(p, pre[1..], m, v1, v2, rest);
    }
  }

  lemma DropFirst(pre: string, m: string, x: string)
    requires pre != []
    ensures (pre + m + x)[1..] == pre[1..] + m + x && (pre + m + x)[0] == pre[0]
  {
  }

  lemma Unmatched(p: Pass, c: string, x: string, y: string)
    requires Head(p, c + x) == Head(p, c + y) <= |c|
    requires Head(p, c + x) == 0 || (!p.Query? && Run(p, c[Head(p, c + x)..]) == 0 < |c| - Head(p, c + x))
    ensures !Matches(p, c + x) && !Matches(p, c + y)
  {
    if Head(p, c + x) > 0 {
      StopsEarly(p, c, x);
      StopsEarly(p, c, y);
    }
  }

  // ---------------------------------------------------------------- pieces of a text

  /** A character that ends the run of p and is in none of its heads splits a text in two. */
  lemma {:induction false} StopSplit(p: Pass, u: string, x: string)
    requires x != [] ==> Stops(p, x[0]) && x[0] != '/'
    ensures Replace(p, u + x) == Replace(p, u) + Replace(p, x)
    decreases |u|
  {
    hide Replace, Matches, Head, Run, Tag, Stops;
    if u == [] {
      assert u + x == x;
      ReplaceFirst(p, u);
    } else if x == [] {
      assert u + x == u;
      ReplaceFirst(p, x);
    } else {
      MatchBeforeStop(p, u, x);
      if Matches(p, u) {
        ReplaceMatch(p, u);
        SplitMatch(p, u, x);
        var h := Head(p, u);
        var k := h + Run(p, u[h..]);
        StopSplit(p, u[k..], x);
        Grouped(u[..h] + Tag(p), Replace(p, u[k..]), Replace(p, x));
      } else {
        NoMatchStep(p, u);
        NoMatchStep(p, u + x);
        assert (u + x)[1..] == u[1..] + x;
        StopSplit(p, u[1..], x);
        Grouped([u[0]], Replace(p, u[1..]), Replace(p, x));
      }
    }
  }

  lemma MatchBeforeStop(p: Pass, u: string, x: string)
    requires u != [] && x != [] && Stops(p, x[0]) && x[0] != '/'
    ensures Matches(p, u + x) <==> Matches(p, u)
    ensures Head(p, u + x) == Head(p, u) && Run(p, (u + x)[Head(p, u)..]) == Run(p, u[Head(p, u)..])
  {
    hide Head, Run, Stops;
    HeadBeforeStop(p, u, x);
    assert (u + x)[Head(p, u)..] == u[Head(p, u)..] + x;
    RunBefore(p, u[Head(p, u)..], x);
  }

  lemma SliceBefore(u: string, x: string, k: nat)
    requires k <= |u|
    ensures (u + x)[..k] == u[..k] && (u + x)[k..] == u[k..] + x
  {
  }

  lemma SliceBehind(u: string, x: string, k: nat)
    requires k <= |x|
    ensures (u + x)[|u| + k..] == x[k..]
  {
  }

  lemma SplitMatch(p: Pass, u: string, x: string)
    requires x != [] && Stops(p, x[0]) && x[0] != '/' && Matches(p, u)
    ensures var h := Head(p, u);
      var k := h + Run(p, u[h..]);
      && 0 < k <= |u|
      && Replace(p, u + x) == u[..h] + Tag(p) + Replace(p, u[k..] + x)
      && (Open(p, u + x) <==> Open(p, u[k..] + x))
  {
    hide Replace, Matches, Head, Run, Tag, Stops, Open;
    OpenMatch(p, u);
    MatchBeforeStop(p, u, x);
    var h := Head(p, u);
    var k := h + Run(p, u[h..]);
    SliceBefore(u, x, h);
    SliceBefore(u, x, k);
    ReplaceMatch(p, u + x);
    OpenMatch(p, u + x);
  }

  /** A pass over paths puts no character into a text that would stop a later one. */
  lemma {:induction false} NoStopsKept(p: Pass, q: Pass, v: string)
    requires !p.Query? && !q.Delivery? && NoStops(q, v)
    ensures NoStops(q, Replace(p, v)) && (|v| >= 2 ==> |Replace(p, v)| >= 2)
    decreases |v|
  {
    hide Replace, Matches, Head, Run, Stops, Tag;
    if v == [] {
      ReplaceFirst(p, v);
    } else if Matches(p, v) {
      ReplaceMatch(p, v);
      var h := Head(p, v);
      var k := h + Run(p, v[h..]);
      NoStopsKept(p, q, v[k..]);
      TagPlain(p, q);
      NoStopsJoined(q, v[..h], Tag(p));
      NoStopsJoined(q, v[..h] + Tag(p), Replace(p, v[k..]));
    } else {
      NoMatchStep(p, v);
      ReplaceFirst(p, v[1..]);
      NoStopsKept(p, q, v[1..]);
    }
  }

  lemma NoStopsJoined(q: Pass, a: string, b: string)
    requires NoStops(q, a) && NoStops(q, b)
    ensures NoStops(q, a + b)
  {
    hide Stops;
  }

  lemma TagPlain(p: Pass, q: Pass)
    requires !q.Delivery?
    ensures NoStops(q, Tag(p)) && |Tag(p)| >= 2
  {
  }

  // ---------------------------------------------------------------- all three passes behind a text

  /** What a pass makes of x behind a text that leaves it open or not. */
  function Rest(p: Pass, open: bool, x: string): string { Replace(p, if open then x[Run(p, x)..] else x) }

  /** The first two passes. */
  function Paths(s: string): string { Replace(Upload, Replace(Delivery, s)) }

  /** What they make of x behind s. */
  function Behind(s: string, x: string): string {
    Rest(Upload, Open(Upload, Replace(Delivery, s)), Rest(Delivery, Open(Delivery, s), x))
  }

  predicate Capped(s: string) { s != [] && var c := s[|s| - 1]; c == '=' || c == '&' || c == ']' }

  lemma PathsAppended(s: string, x: string)
    requires Capped(s)
    ensures Paths(s + x) == Paths(s) + Behind(s, x)
    ensures var t := Paths(s);
      t != [] && t[|t| - 1] ==
        if Open(Delivery, s) || Open(Upload, Replace(Delivery, s)) then ']' else s[|s| - 1]
  {
    hide Replace, Run, Open;
    ReplaceAppended(Delivery, s, x);
    LastKept(Delivery, s);
    ReplaceAppended(Upload, Replace(Delivery, s), Rest(Delivery, Open(Delivery, s), x));
    LastKept(Upload, Replace(Delivery, s));
  }

  lemma BehindPlain(s: string, x: string)
    requires NoStops(Query, x)
    ensures NoStops(Query, Behind(s, x))
  {
    hide Replace, Run, Open, Stops;
    var y := Rest(Delivery, Open(Delivery, s), x);
    NoStopsKept(Delivery, Query, if Open(Delivery, s) then x[Run(Delivery, x)..] else x);
    NoStopsKept(Upload, Query, if Open(Upload, Replace(Delivery, s)) then y[Run(Upload, y)..] else y);
  }

  /** Plain text with perhaps a `&` at its end. */
  predicate EndsPlain(z: string) {
    NoStops(Query, z) || (z[|z| - 1] == '&' && NoStops(Query, z[..|z| - 1]))
  }

  lemma {:induction false} EndsPlainKept(p: Pass, z: string)
    requires !p.Query? && EndsPlain(z)
    ensures EndsPlain(Replace(p, z))
    decreases |z|
  {
    hide Replace, Matches, Head, Run, Stops;
    if z == [] {
      ReplaceFirst(p, z);
    } else if Matches(p, z) {
      ReplaceMatch(p, z);
      var h := Head(p, z);
      var k := h + Run(p, z[h..]);
      TagPlain(p, Query);
      EndsPlainTail(z, k);
      EndsPlainKept(p, z[k..]);
      HeadPlain(p, z);
      EndsPlainJoined(z[..h] + Tag(p), Replace(p, z[k..]));
    } else {
      NoMatchStep(p, z);
      ReplaceFirst(p, z[1..]);
      if |z| > 1 {
        EndsPlainTail(z, 1);
        EndsPlainKept(p, z[1..]);
        EndsPlainJoined([z[0]], Replace(p, z[1..]));
      } else {
        assert [z[0]] + [] == z;
      }
    }
  }

  lemma EndsPlainTail(z: string, k: nat)
    requires EndsPlain(z) && k <= |z|
    ensures EndsPlain(z[k..]) && (|z| > 1 ==> NoStops(Query, [z[0]]))
  {
    hide Stops;
    if !NoStops(Query, z) && k < |z| { assert z[k..][..|z[k..]| - 1] == z[..|z| - 1][k..]; }
  }

  lemma EndsPlainJoined(a: string, b: string)
    requires NoStops(Query, a) && EndsPlain(b)
    ensures EndsPlain(a + b)
  {
    hide Stops;
    if !NoStops(Query, b) { assert (a + b)[..|a + b| - 1] == a + b[..|b| - 1]; }
  }

  lemma HeadPlain(p: Pass, z: string)
    requires !p.Query? && Head(p, z) > 0
    ensures NoStops(Query, z[..Head(p, z)])
  {
    hide Head;
    HeadChars(p, z);
    PathHead(p, z);
    forall i | 0 <= i < Head(p, z) ensures !Stops(Query, z[..Head(p, z)][i]) { if i > 0 { PlainChar(z[i]); } }
  }

  // ---------------------------------------------------------------- the value of a parameter

  /** At the end of s a path is still being redacted, and a `&` would be part of it. */
  predicate Inside(s: string) { Open(Delivery, s + "&") || Open(Upload, Replace(Delivery, s + "&")) }

  /** The value would run on into the parameter behind it. */
  predicate RunsOn(s: string, rest: string) { rest != [] && rest[0] == '&' && Inside(s) }

  lemma FirstKept(rest: string)
    ensures Paths(rest) == [] <==> rest == []
    ensures rest != [] ==> Paths(rest)[0] == rest[0]
  {
    hide Replace;
    ReplaceFirst(Delivery, rest);
    ReplaceFirst(Upload, Replace(Delivery, rest));
  }

  lemma SplitPaths(u: string, rest: string)
    requires rest != [] ==> rest[0] == '#' || IsSpace(rest[0])
    ensures Paths(u + rest) == Paths(u) + Paths(rest)
  {
    hide Replace;
    StopSplit(Delivery, u, rest);
    ReplaceFirst(Delivery, rest);
    StopSplit(Upload, Replace(Delivery, u), Replace(Delivery, rest));
  }

  /** The third pass swallows a value behind a text it is open at. */
  lemma ValueSwallowed(t: string, z: string, r: string)
    requires Closed(Query, t) && Open(Query, t) && NoStops(Query, z)
    ensures Replace(Query, t + (z + r)) == Replace(Query, t) + Replace(Query, r[Run(Query, r)..])
  {
    hide Replace, Run, Open, Stops;
    ReplaceAppended(Query, t, z + r);
    RunThrough(Query, z, r);
    assert (z + r)[|z| + Run(Query, r)..] == r[Run(Query, r)..];
  }

  lemma AtStop(r: string)
    requires Boundary(Query, r)
    ensures r[Run(Query, r)..] == r
  {
  }

  lemma AmpersandFirst(y: string)
    ensures Paths("&" + y) == "&" + Paths(y)
  {
    hide Replace;
    ReplaceInert(Delivery, "&", y);
    ReplaceInert(Upload, "&", Replace(Delivery, y));
  }

  /** What the first two passes leave of a value and the `&` behind it. */
  lemma ValueAndAmpersand(s: string, v: string) returns (z: string)
    requires Capped(s) && Closed(Query, Paths(s)) && NoStops(Query, v)
    ensures Paths(s + v + "&") == Paths(s) + z
    ensures Inside(s + v) ==> NoStops(Query, z)
    ensures !Inside(s + v) ==> z != [] && z[|z| - 1] == '&' && NoStops(Query, z[..|z| - 1])
  {
    hide Paths, Behind, NoStops, Open, EndsPlain, Closed, Inside;
    z := Behind(s, v + "&");
    assert s + v + "&" == s + (v + "&");
    PathsAppended(s, v + "&");
    PlainAmpersand(v);
    BehindEndsPlain(s, v + "&");
    EndsAt(s + v);
    LastOf(Paths(s), z);
    EndsEither(z);
  }

  /** What the text up to and with the `&` ends in. */
  lemma EndsAt(t: string)
    ensures var r := Paths(t + "&"); r != [] && r[|r| - 1] == if Inside(t) then ']' else '&'
  {
    hide Replace, Open;
    PathsAppended(t + "&", "");
  }

  lemma LastOf(a: string, z: string)
    requires Closed(Query, a)
    ensures (a + z)[|a + z| - 1] == if z == [] then a[|a| - 1] else z[|z| - 1]
    ensures a[|a| - 1] != '&'
  {
  }

  lemma EndsEither(z: string)
    requires EndsPlain(z)
    ensures (z != [] ==> z[|z| - 1] != '&') ==> NoStops(Query, z)
    ensures z != [] && z[|z| - 1] == '&' ==> NoStops(Query, z[..|z| - 1])
  {
  }

  lemma PlainAmpersand(v: string)
    requires NoStops(Query, v)
    ensures EndsPlain(v + "&")
  {
    hide Stops;
    assert (v + "&")[..|v|] == v;
  }

  lemma BehindEndsPlain(s: string, x: string)
    requires EndsPlain(x)
    ensures EndsPlain(Behind(s, x))
  {
    hide Replace, Run, Open, EndsPlain;
    var x1 := if Open(Delivery, s) then x[Run(Delivery, x)..] else x;
    if Open(Delivery, s) { EndsPlainTail(x, Run(Delivery, x)); }
    EndsPlainKept(Delivery, x1);
    var y := Replace(Delivery, x1);
    var o := Open(Upload, Replace(Delivery, s));
    if o { EndsPlainTail(y, Run(Upload, y)); }
    EndsPlainKept(Upload, if o then y[Run(Upload, y)..] else y);
  }

  /** Behind an open path a pass leaves an end of what it would leave on its own. */
  lemma PathTail(p: Pass, u: string, y: string) returns (u': string)
    requires !p.Query? && u != [] && '/' !in u
    ensures u' != [] && Replace(p, u + y) == u' + Rest(p, true, y)
    ensures p.Delivery? ==> '/' !in u'
  {
    hide Replace, Stops, Run, Rest;
    var k := Run(p, y);
    var w := u + y[..k];
    RestIs(p, y);
    SplitTail(u, y, k);
    if p.Delivery? {
      u' := w;
      RunNoSlash(y);
      NoSlashInert(w);
      ReplaceInert(p, w, y[k..]);
    } else {
      StopNoSlash(y);
      StopSplit(p, w, y[k..]);
      ReplaceFirst(p, w);
      u' := Replace(p, w);
    }
  }

  lemma SplitTail(u: string, y: string, k: nat)
    requires k <= |y|
    ensures u + y == (u + y[..k]) + y[k..]
  {
    assert y == y[..k] + y[k..];
  }

  lemma RunNoSlash(y: string)
    ensures '/' !in y[..Run(Delivery, y)]
  {
  }

  lemma StopNoSlash(y: string)
    ensures var r := y[Run(Upload, y)..]; r != [] ==> Stops(Upload, r[0]) && r[0] != '/'
  {
  }

  lemma NoSlashInert(u: string)
    requires '/' !in u
    ensures Inert(Delivery, u) && Inert(Upload, u)
  {
    forall i | 0 <= i < |u| ensures u[i] != '/' { assert u[i] in u; }
  }

  lemma BehindShorter(s: string, y: string) returns (u: string)
    ensures u != [] && Paths("&" + y) == u + Behind(s, y)
  {
    hide Replace, Run, Stops, Open;
    var od, ou := Open(Delivery, s), Open(Upload, Replace(Delivery, s));
    var u1: string;
    if od { u1 := PathTail(Delivery, "&", y); } else { u1 := "&"; ReplaceInert(Delivery, "&", y); }
    var y1 := Rest(Delivery, od, y);
    assert Replace(Delivery, "&" + y) == u1 + y1;
    if ou {
      u := PathTail(Upload, u1, y1);
    } else {
      u := u1;
      NoSlashInert(u1);
      ReplaceInert(Upload, u1, y1);
    }
  }

  lemma TailShorter(u: string, b: string)
    requires u != []
    ensures Replace(Query, u + b) != Replace(Query, b[Run(Query, b)..])
  {
    hide Replace, Stops;
    var k := Run(Query, b);
    assert u + b == (u + b[..k]) + b[k..];
    StopIsPlain(b[k..]);
    StopSplit(Query, u + b[..k], b[k..]);
    ReplaceFirst(Query, u + b[..k]);
  }

  lemma StopIsPlain(r: string)
    ensures r != [] && Stops(Query, r[0]) ==> r[0] != '/'
  {
  }

  /** Where the third pattern is open at the `=`, a value the pattern takes leaves no trace, unless it
      runs on into the parameter behind it, which then is not left as it would be on its own. */
  lemma ParameterExactly(s: string, v: string, rest: string)
    requires Capped(s) && Closed(Query, Paths(s)) && Open(Query, Paths(s))
    requires NoStops(Query, v) && Boundary(Query, rest)
    ensures Redact(s + v + rest) == Redact(s) + Redact(rest) <==> !RunsOn(s + v, rest)
  {
    hide Replace, Run, Open, Stops, Closed;
    if rest != [] && rest[0] == '&' {
      var y := rest[1..];
      assert rest == "&" + y;
      var t := s + v + "&";
      assert s + v + rest == t + y;
      var z := ValueAndAmpersand(s, v);
      PathsAppended(t, y);
      AmpersandFirst(y);
      var b := Behind(t, y);
      if Inside(s + v) {
        assert Paths(s) + z + b == Paths(s) + (z + b);
        ValueSwallowed(Paths(s), z, b);
        var u := BehindShorter(t, y);
        TailShorter(u, b);
        SameTail(Redact(s), Replace(Query, b[Run(Query, b)..]), Redact(rest));
      } else {
        var v' := z[..|z| - 1];
        assert Paths(s) + z + b == Paths(s) + (v' + ("&" + b));
        ValueSwallowed(Paths(s), v', Paths(rest));
        AmpersandStops(Paths(rest));
      }
    } else {
      if rest != [] { BoundaryKinds(rest); }
      SplitPaths(s + v, rest);
      PathsAppended(s, v);
      BehindPlain(s, v);
      var z := Behind(s, v);
      assert Paths(s) + z + Paths(rest) == Paths(s) + (z + Paths(rest));
      ValueSwallowed(Paths(s), z, Paths(rest));
      FirstKept(rest);
      AtStop(Paths(rest));
    }
  }

  lemma SameTail(a: string, x: string, y: string)
    ensures a + x == a + y <==> x == y
  {
    if a + x == a + y { assert x == (a + x)[|a|..] == (a + y)[|a|..] == y; }
  }

  lemma AmpersandStops(r: string)
    requires r != [] && r[0] == '&'
    ensures r[Run(Query, r)..] == r
  {
  }

  lemma BoundaryKinds(rest: string)
    requires Boundary(Query, rest) && rest != [] && rest[0] != '&'
    ensures rest[0] == '#' || IsSpace(rest[0])
  {
  }

  // ---------------------------------------------------------------- which parameters are secret

  /** A value the pattern takes that does not run on into what follows. */
  predicate IsValue(s: string, v: string, rest: string) { NoStops(Query, v) && !RunsOn(s + v, rest) }

  predicate AllDigit(t: string) { t != [] && forall i :: 0 <= i < |t| ==> IsDigit(t[i]) }

  lemma DigitName(t: string, x: string)
    requires AllDigit(t)
    ensures !Matches(Query, "?" + t + x)
  {
    hide IsSecret, BeforeEquals;
    var s := "?" + t + x;
    HeadChars(Query, s);
    assert s[1] == t[0];
  }

  lemma DigitsInert(t: string)
    requires AllDigit(t)
    ensures Inert(Query, t) && Inert(Delivery, "?" + t) && Inert(Upload, "?" + t)
  {
  }

  lemma QuestionFirst(x: string)
    requires x != [] && x[0] == '?'
    ensures Run(Delivery, x) == 0 && Run(Upload, x) == 0
  {
  }

  lemma ParameterCapped(pre: string, m: string)
    requires IsHead(Query, m)
    ensures Capped(pre + m) && Closed(Query, Paths(pre + m))
  {
    hide Replace, IsSecret;
    var s := pre + m;
    assert s[|s| - 1] == m[|m| - 1] == '=';
    PathsAppended(s, "");
    FirstKept("");
  }

  lemma Apart(a: string, x: string, y: string, r: string)
    requires |x| == |y| && x != y
    ensures a + (x + r) != a + (y + r)
  {
    SameTail(a, x + r, y + r);
    assert (x + r)[..|x|] == x && (y + r)[..|y|] == y;
  }

  /** A `?` ends every path before it. */
  lemma QuestionValue(s: string, t: string, rest: string)
    requires AllDigit(t)
    ensures IsValue(s, "?" + t, rest)
  {
    hide Replace, Open, Run;
    var x := "?" + t + "&";
    assert s + ("?" + t) + "&" == s + x;
    NotOpenPast(Delivery, s, x);
    StopSplit(Delivery, s, x);
    DigitsInert(t);
    assert Inert(Delivery, x);
    ReplaceInert(Delivery, x, "");
    ReplaceFirst(Delivery, "");
    assert x + "" == x;
    NotOpenPast(Upload, Replace(Delivery, s), x);
  }

  /** No path is open behind a `?` and text without a slash. */
  lemma {:induction false} NotOpenPast(p: Pass, s: string, x: string)
    requires !p.Query? && x != [] && x[0] == '?' && '/' !in x
    ensures !Open(p, s + x)
    decreases |s|
  {
    hide Open, Head, Run, Matches;
    if s == [] {
      assert s + x == x;
      NoSlashNotOpen(p, x);
    } else {
      MatchBeforeStop(p, s, x);
      if Matches(p, s) {
        SplitMatch(p, s, x);
        NotOpenPast(p, s[Head(p, s) + Run(p, s[Head(p, s)..])..], x);
      } else {
        OpenNext(p, s + x);
        assert (s + x)[1..] == s[1..] + x;
        NotOpenPast(p, s[1..], x);
      }
    }
  }

  lemma {:induction false} NoSlashNotOpen(p: Pass, x: string)
    requires !p.Query? && '/' !in x
    ensures !Open(p, x)
    decreases |x|
  {
    hide Open;
    if x == [] {
      NothingOpen(p);
    } else {
      assert x[0] in x;
      if Head(p, x) > 0 { HeadStart(p, x); }
      OpenNext(p, x);
      NoSlashNotOpen(p, x[1..]);
    }
  }

  // ---------------------------------------------------------------- when that is so

  /** The first two passes leave a parameter that stands in no path. */
  lemma {:induction false} ParameterLeft(p: Pass, pre: string, m: string) returns (a: string)
    requires !p.Query? && IsHead(Query, m) && !Open(p, pre + m)
    ensures Replace(p, pre + m) == a + m
    decreases |pre|
  {
    hide Replace, Head, Run, Matches, Open, IsHead;
    HeadSlashless(m);
    if pre == [] {
      assert pre + m == m;
      ReplaceInert(p, m, "");
      ReplaceFirst(p, "");
      a := "";
      assert m + "" == m && "" + m == m;
    } else {
      var s := pre + m;
      HeadIn(p, pre, m);
      if Matches(p, s) {
        OpenMatch(p, s);
        ReplaceMatch(p, s);
        var k := Head(p, s) + Run(p, s[Head(p, s)..]);
        RunIn(p, pre, m);
        assert s[k..] == pre[k..] + m;
        var b := ParameterLeft(p, pre[k..], m);
        a := s[..Head(p, s)] + Tag(p) + b;
        Grouped(s[..Head(p, s)] + Tag(p), b, m);
      } else {
        OpenNext(p, s);
        NoMatchStep(p, s);
        assert s[1..] == pre[1..] + m;
        var b := ParameterLeft(p, pre[1..], m);
        a := [pre[0]] + b;
        Grouped([pre[0]], b, m);
      }
    }
  }

  lemma HeadSlashless(m: string)
    requires IsHead(Query, m)
    ensures '/' !in m && Inert(Delivery, m) && Inert(Upload, m)
    ensures m != [] && forall i :: 0 < i < |m| ==> !Stops(Delivery, m[i]) && !Stops(Upload, m[i])
  {
    var name := m[1..|m| - 1];
    SecretWord(name);
    forall i | 0 < i < |m| ensures m[i] == '=' || m[i] == '_' || IsLetter(m[i]) {
      if i < |m| - 1 { assert m[i] == name[i - 1]; }
    }
    NoSlashInert(m);
  }

  lemma HeadIn(p: Pass, pre: string, m: string)
    requires !p.Query? && IsHead(Query, m)
    ensures Head(p, pre + m) <= |pre|
  {
    hide Head, IsHead;
    HeadSlashless(m);
    var s := pre + m;
    forall i | |pre| <= i < |s| ensures s[i] != '/' { assert s[i] == m[i - |pre|] && m[i - |pre|] in m; }
    if Head(p, s) > 0 { PathHeadEnds(p, s); }
  }

  /** A run that ends before the end of the parameter ends before the parameter. */
  lemma RunIn(p: Pass, pre: string, m: string)
    requires !p.Query? && IsHead(Query, m) && Head(p, pre + m) <= |pre|
    ensures var k := Head(p, pre + m) + Run(p, (pre + m)[Head(p, pre + m)..]);
      k <= |pre| || k == |pre + m|
  {
    hide Head, IsHead, Stops;
    HeadSlashless(m);
    var s, h := pre + m, Head(p, pre + m);
    var k := h + Run(p, s[h..]);
    forall i | |pre| < i < |s| ensures !Stops(p, s[i]) { assert s[i] == m[i - |pre|]; }
    if k < |s| { assert Stops(p, s[h..][k - h]) && s[h..][k - h] == s[k]; }
  }

  /** The pattern of a parameter leaves the third pass open behind it. */
  lemma {:induction false} HeadOpens(a: string, m: string)
    requires IsHead(Query, m)
    ensures Open(Query, a + m)
    decreases |a|
  {
    hide Open, Head, Run, Stops, IsHead;
    var s := a + m;
    HeadThere(Query, m, "");
    assert m + "" == m;
    assert s[|s| - 1] == m[|m| - 1];
    HeadClosed(Query, s, "");
    if a == [] { assert s == m; }
    if Head(Query, s) > 0 {
      OpenMatch(Query, s);
      var k := Head(Query, s) + Run(Query, s[Head(Query, s)..]);
      if k < |s| {
        assert Stops(Query, s[Head(Query, s)..][k - Head(Query, s)]);
        StopInPre(Query, a, m, k);
        HeadOpens(a[k..], m);
      }
    } else {
      OpenNext(Query, s);
      assert s[1..] == a[1..] + m;
      HeadOpens(a[1..], m);
    }
  }

  /** Two ways to know: the parameter opens the query, or no path before it reaches it. */
  lemma ParameterSeen(pre: string, m: string)
    requires IsHead(Query, m)
    requires m[0] == '?' || (!Open(Delivery, pre + m) && !Open(Upload, Replace(Delivery, pre + m)))
    ensures Open(Query, Paths(pre + m))
  {
    hide Replace, Open, IsHead;
    HeadSlashless(m);
    if m[0] == '?' {
      NotOpenPast(Delivery, pre, m);
      StopSplit(Delivery, pre, m);
      ReplaceInert(Delivery, m, "");
      ReplaceFirst(Delivery, "");
      assert m + "" == m;
      NotOpenPast(Upload, Replace(Delivery, pre), m);
    }
    var a := ParameterLeft(Delivery, pre, m);
    var b := ParameterLeft(Upload, a, m);
    HeadOpens(b, m);
  }

  /** A value without `/`, `?` and `&` is forgotten wherever the parameter stands. */
  lemma RedactForgetsPlainValue(pre: string, m: string, v1: string, v2: string, rest: string)
    requires IsHead(Query, m) && Boundary(Query, rest)
    requires IsPlainValue(v1) && IsPlainValue(v2)
    ensures Redact(pre + m + v1 + rest) == Redact(pre + m + v2 + rest)
  {
    hide Replace, Run, Open, Stops, Closed, Capped, IsHead, IsPlainValue, Rest;
    var s := pre + m;
    ParameterCapped(pre, m);
    assert s + v1 + rest == s + (v1 + rest) && s + v2 + rest == s + (v2 + rest);
    PathsAppended(s, v1 + rest);
    PathsAppended(s, v2 + rest);
    var od, ou := Open(Delivery, s), Open(Upload, Replace(Delivery, s));
    PlainRest(Delivery, od, v1, rest);
    PlainRest(Delivery, od, v2, rest);
    if !od {
      PlainRest(Upload, ou, v1, Replace(Delivery, rest));
      PlainRest(Upload, ou, v2, Replace(Delivery, rest));
      if !ou {
        ParameterSeen(pre, m);
        PlainNoStops(v1);
        PlainNoStops(v2);
        ValueSwallowed(Paths(s), v1, Paths(rest));
        ValueSwallowed(Paths(s), v2, Paths(rest));
      }
    }
  }

  predicate IsPlainValue(v: string) {
    forall i :: 0 <= i < |v| ==> v[i] != '/' && v[i] != '&' && !Stops(Upload, v[i])
  }

  lemma PlainNoStops(v: string)
    requires IsPlainValue(v)
    ensures NoStops(Query, v) && NoStops(Upload, v) && NoStops(Delivery, v)
  {
  }

  lemma PlainRest(p: Pass, open: bool, v: string, r: string)
    requires !p.Query? && IsPlainValue(v)
    ensures Rest(p, open, v + r) == if open then Replace(p, r[Run(p, r)..]) else v + Replace(p, r)
  {
    hide *;
    if open { PlainSwallowed(p, v, r); } else { PlainLeft(p, v, r); }
  }

  lemma PlainSwallowed(p: Pass, v: string, r: string)
    requires !p.Query? && IsPlainValue(v)
    ensures Rest(p, true, v + r) == Replace(p, r[Run(p, r)..])
  {
    hide *;
    PlainNoStops(v);
    RunThroughPlain(p, v, r);
    SliceBehind(v, r, Run(p, r));
    RestIs(p, v + r);
  }

  lemma RestIs(p: Pass, x: string)
    ensures Rest(p, true, x) == Replace(p, x[Run(p, x)..]) && Rest(p, false, x) == Replace(p, x)
  {
    hide Replace, Run;
  }

  lemma PlainLeft(p: Pass, v: string, r: string)
    requires !p.Query? && IsPlainValue(v)
    ensures Rest(p, false, v + r) == v + Replace(p, r)
  {
    hide *;
    PlainInert(p, v);
    ReplaceInert(p, v, r);
    RestIs(p, v + r);
  }

  lemma RunThroughPlain(p: Pass, v: string, r: string)
    requires NoStops(p, v)
    ensures Run(p, v + r) == |v| + Run(p, r)
  {
    hide Run, Stops;
    RunThrough(p, v, r);
  }

  lemma PlainInert(p: Pass, v: string)
    requires !p.Query? && IsPlainValue(v)
    ensures Inert(p, v)
  {
  }

  /** Where the third pattern is not open at its `=`, the value gets through from its first `?` on. */
  lemma ParameterLeaks(pre: string, m: string, u: string, t: string, rest: string)
    requires IsHead(Query, m) && !Open(Query, Paths(pre + m))
    requires IsPlainValue(u) && AllDigit(t)
    ensures Redact(pre + m + (u + "?" + t) + rest) == Redact(pre + m) + ("?" + t + Redact(rest))
  {
    hide Replace, Run, Open, Stops, Closed, Matches, IsHead, IsPlainValue, Rest, Capped;
    var s, w := pre + m, "?" + t;
    ParameterCapped(pre, m);
    if !Open(Delivery, s) && !Open(Upload, Replace(Delivery, s)) { ParameterSeen(pre, m); }
    assert s + (u + "?" + t) + rest == s + (u + (w + rest));
    PathsAppended(s, u + (w + rest));
    PastQuestion(s, u, t, rest);
    ReplaceAppended(Query, Paths(s), w + Paths(rest));
    DigitName(t, Paths(rest));
    NoMatchStep(Query, w + Paths(rest));
    assert (w + Paths(rest))[1..] == t + Paths(rest);
    DigitsInert(t);
    ReplaceInert(Query, t, Paths(rest));
    assert ['?'] + (t + Redact(rest)) == w + Redact(rest);
  }

  /** A path that is open takes the value up to its `?`. */
  lemma PastQuestion(s: string, u: string, t: string, rest: string)
    requires IsPlainValue(u) && AllDigit(t)
    requires Open(Delivery, s) || Open(Upload, Replace(Delivery, s))
    ensures Behind(s, u + ("?" + t + rest)) == "?" + t + Paths(rest)
  {
    hide Replace, Run, Open, IsPlainValue, Rest;
    var x, y := "?" + t + rest, "?" + t + Replace(Delivery, rest);
    DigitsInert(t);
    QuestionFirst(x);
    QuestionFirst(y);
    ReplaceInert(Delivery, "?" + t, rest);
    ReplaceInert(Upload, "?" + t, Replace(Delivery, rest));
    PlainRest(Delivery, Open(Delivery, s), u, x);
    PlainRest(Upload, Open(Upload, Replace(Delivery, s)), u, y);
    RestIs(Upload, y);
    RestIs(Delivery, x);
  }

  /** Exactly when the values of a secret parameter are forgotten: when, after the first two passes,
      the third pattern is open at its `=`. */
  lemma RedactForgetsParameter(pre: string, m: string, rest: string)
    requires IsHead(Query, m) && Boundary(Query, rest)
    ensures (forall v, w :: IsValue(pre + m, v, rest) && IsValue(pre + m, w, rest) ==>
                Redact(pre + m + v + rest) == Redact(pre + m + w + rest))
       <==> Open(Query, Paths(pre + m))
  {
    hide Replace, Run, Open, Stops, Closed, Capped, IsHead, Redact, RunsOn, NoStops, Paths;
    var s := pre + m;
    ParameterCapped(pre, m);
    if Open(Query, Paths(s)) {
      forall v, w | IsValue(s, v, rest) && IsValue(s, w, rest)
        ensures Redact(s + v + rest) == Redact(s + w + rest)
      {
        ParameterExactly(s, v, rest);
        ParameterExactly(s, w, rest);
      }
    } else {
      ParameterLeaks(pre, m, "", "0", rest);
      ParameterLeaks(pre, m, "", "1", rest);
      QuestionValue(s, "0", rest);
      QuestionValue(s, "1", rest);
      var v, w := "?" + "0", "?" + "1";
      assert "" + "?" + "0" == v && "" + "?" + "1" == w;
      assert v[1] != w[1];
      Apart(Redact(s), v, w, Redact(rest));
      assert IsValue(s, v, rest) && IsValue(s, w, rest) && Redact(s + v + rest) != Redact(s + w + rest);
    }
  }

  /** The leak in its shortest form: the path's run takes the parameter's name with it and ends at
      the `?`. */
  lemma ParameterInPathLeaks(t: string)
    requires AllDigit(t)
    ensures IsHead(Query, "&sig=")
    ensures Redact("/d/" + "&sig=" + ("?" + t)) == "/d/[redacted]?" + t
  {
    hide Replace, Run, Open;
    var s := "/d/&sig=";
    var out := "/d/[redacted]";
    SigIsHead();
    ParameterCapped("/d/", "&sig=");
    assert "/d/" + "&sig=" == s == Path("&sig=") + "";
    TokenReplaced("&sig=", "");
    ReplaceFirst(Delivery, "");
    assert out + "" == out;
    Untouched(Upload, out);
    Untouched(Query, out);
    InertNotOpen(Query, out);
    assert s == "/d/" + "&sig=";
    ParameterLeaks("/d/", "&sig=", "", t, "");
    assert "" + "?" + t == "?" + t;
    FirstKept("");
    ReplaceFirst(Query, "");
    assert s + ("?" + t) + "" == s + ("?" + t);
    assert out + ("?" + t + "") == "/d/[redacted]?" + t;
  }

  lemma SigIsHead()
    ensures IsHead(Query, "&sig=")
  {
    var name := "sig";
    assert "&sig="[1..4] == name;
    LowerAt(name);
    assert AsciiLowered(name) == name;
  }

  lemma {:induction false} InertNotOpen(p: Pass, x: string)
    requires Inert(p, x)
    ensures !Open(p, x)
    decreases |x|
  {
    hide Open;
    if x == [] {
      NothingOpen(p);
    } else {
      InertTail(p, x);
      InertNoHead(p, x, "");
      assert x + "" == x;
      OpenNext(p, x);
      InertNotOpen(p, x[1..]);
    }
  }

  // ---------------------------------------------------------------- tokens and file names of every kind

  predicate IsFileName(n: string) { n != [] && NoStops(Upload, n) }

  function FilePath(n: string): string { "/api/upload" + ("/" + n) }

  /** Text the second pass is open at goes up to the end of its run. */
  lemma Uploaded(a: string, w: string, r: string)
    requires Closed(Upload, a) && Open(Upload, a) && NoStops(Upload, w) && Boundary(Upload, r)
    ensures Replace(Upload, a + (w + r)) == Replace(Upload, a) + Replace(Upload, r)
  {
    hide Replace, Run, Open, Stops;
    ReplaceAppended(Upload, a, w + r);
    RunExact(Upload, w, r);
    assert (w + r)[|w|..] == r;
  }

  lemma AmpersandName(t: string, x: string)
    requires AllDigit(t)
    ensures Replace(Query, "&" + t + x) == "&" + t + Replace(Query, x)
  {
    hide Replace, IsSecret, BeforeEquals;
    var s := "&" + t + x;
    HeadChars(Query, s);
    assert s[1] == t[0] && s[1..] == t + x;
    NoMatchStep(Query, s);
    DigitsInert(t);
    ReplaceInert(Query, t, x);
  }

  /** Where it is not, a segment that starts with `&` is put out from there on. */
  lemma SegmentLeaks(a: string, lead: string, t: string, r: string)
    requires Bracketed(a) && !Open(Upload, a) && (lead == "/" || lead == "/upload/") && AllDigit(t)
    ensures var b := Replace(Upload, a);
      Replace(Query, Replace(Upload, a + (lead + ("&" + t) + r)))
        == Replace(Query, b) + (if Open(Query, b) then "" else lead) + ("&" + t + Replace(Query, Replace(Upload, r)))
  {
    hide Replace, Run, Open;
    var w := lead + ("&" + t);
    var b, r' := Replace(Upload, a), Replace(Upload, r);
    LastKept(Upload, a);
    ReplaceAppended(Upload, a, w + r);
    SegmentInert(lead, t);
    ReplaceInert(Upload, w, r);
    ReplaceAppended(Query, b, w + r');
    AmpersandName(t, r');
    assert w + r' == lead + ("&" + t + r');
    RunExact(Query, lead, "&" + t + r');
    assert (w + r')[|lead|..] == "&" + t + r';
    ReplaceInert(Query, lead, "&" + t + r');
  }

  lemma SegmentInert(lead: string, t: string)
    requires (lead == "/" || lead == "/upload/") && AllDigit(t)
    ensures Inert(Upload, lead + ("&" + t)) && Inert(Query, lead) && NoStops(Query, lead)
  {
  }

  /** What the first pass leaves of a file path: a name, and a name again. */
  lemma FileNameKept(lead: string, n: string, rest: string) returns (n': string)
    requires (lead == "/api/upload" || lead == "/upload") && IsFileName(n) && Boundary(Upload, rest)
    ensures IsFileName(n')
    ensures Replace(Delivery, lead + ("/" + n) + rest) == lead + ("/" + n') + Replace(Delivery, rest)
  {
    hide Replace, Stops;
    var w := "/" + n;
    LeadInert(lead);
    assert lead + w + rest == lead + (w + rest);
    ReplaceInert(Delivery, lead, w + rest);
    if rest != [] { UploadStop(rest); }
    StopSplit(Delivery, w, rest);
    SlashPlain(n);
    NoStopsKept(Delivery, Upload, w);
    ReplaceFirst(Delivery, w);
    n' := Replace(Delivery, w)[1..];
    assert Replace(Delivery, w) == "/" + n';
  }

  lemma LeadInert(lead: string)
    requires lead == "/api/upload" || lead == "/upload"
    ensures Inert(Delivery, lead)
  {
  }

  lemma UploadStop(rest: string)
    requires Boundary(Upload, rest) && rest != []
    ensures Stops(Delivery, rest[0]) && rest[0] != '/'
  {
  }

  lemma SlashPlain(n: string)
    requires NoStops(Upload, n)
    ensures NoStops(Upload, "/" + n)
  {
    PlainChar('/');
  }

  /** Behind an even number of `/d` every file name is forgotten. */
  lemma RedactForgetsFileName(pre: string, n1: string, n2: string, rest: string)
    requires Trail(pre) % 2 == 0 && IsFileName(n1) && IsFileName(n2) && Boundary(Upload, rest)
    ensures Redact(pre + (FilePath(n1) + rest)) == Redact(pre + (FilePath(n2) + rest))
  {
    hide Replace, Trail, Dangling, IsFileName;
    var r := Replace(Delivery, rest);
    ReplaceFirst(Delivery, rest);
    DanglingParity(pre);
    DeliverySplit(pre, FilePath(n1) + rest);
    DeliverySplit(pre, FilePath(n2) + rest);
    var m1 := FileNameKept("/api/upload", n1, rest);
    var m2 := FileNameKept("/api/upload", n2, rest);
    var a := Replace(Delivery, pre);
    assert a + ("/api/upload" + ("/" + m1) + r) == a + "/api/upload/" + (m1 + r);
    assert a + ("/api/upload" + ("/" + m2) + r) == a + "/api/upload/" + (m2 + r);
    NamesPlain(m1);
    NamesPlain(m2);
    PassForgets(Upload, a, "/api/upload/", m1, m2, r);
  }

  lemma NamesPlain(n: string)
    requires IsFileName(n)
    ensures n != [] && NoStops(Upload, n)
  {
  }

  /** Behind an odd number the first pass takes `api` for a token. */
  lemma FilePathTaken(pre: string, n: string, rest: string)
    requires Trail(pre) % 2 == 1
    ensures Bracketed(Replace(Delivery, pre + "/api"))
    ensures Replace(Delivery, pre + (FilePath(n) + rest))
         == Replace(Delivery, pre + "/api") + Replace(Delivery, "/upload" + ("/" + n) + rest)
  {
    hide Replace;
    var p0 := pre[..|pre| - 2];
    var x := "/upload" + ("/" + n) + rest;
    assert pre == p0 + "/d";
    assert pre + "/api" == p0 + (Path("api") + "");
    assert "/api/upload" == "/api" + "/upload";
    assert pre + (FilePath(n) + rest) == p0 + (Path("api") + x);
    DeliveryForgets(p0, "api", "");
    DeliveryForgets(p0, "api", x);
    ReplaceFirst(Delivery, "");
    TaggedTwice(Replace(Delivery, p0), Replace(Delivery, x));
  }

  lemma TaggedTwice(a: string, b: string)
    ensures a + ("/d/[redacted]" + b) == (a + ("/d/[redacted]" + "")) + b
    ensures Bracketed(a + ("/d/[redacted]" + ""))
  {
    var r := "/d/[redacted]";
    assert a + (r + b) == (a + (r + "")) + b;
    assert (a + (r + ""))[|a + (r + "")| - 1] == r[|r| - 1];
  }

  /** Exactly when all file names are forgotten. */
  lemma RedactForgetsFileNamesExactly(pre: string, rest: string)
    requires Boundary(Upload, rest)
    ensures (forall n1, n2 :: IsFileName(n1) && IsFileName(n2) ==>
                Redact(pre + (FilePath(n1) + rest)) == Redact(pre + (FilePath(n2) + rest)))
       <==> Trail(pre) % 2 == 0 || Open(Upload, Replace(Delivery, pre + "/api"))
  {
    hide Replace, Trail, Open, IsFileName, FilePath, Redact;
    if Trail(pre) % 2 == 0 {
      forall n1, n2 | IsFileName(n1) && IsFileName(n2)
        ensures Redact(pre + (FilePath(n1) + rest)) == Redact(pre + (FilePath(n2) + rest))
      {
        RedactForgetsFileName(pre, n1, n2, rest);
      }
    } else if Open(Upload, Replace(Delivery, pre + "/api")) {
      forall n | IsFileName(n)
        ensures Redact(pre + (FilePath(n) + rest))
             == Replace(Query, Replace(Upload, Replace(Delivery, pre + "/api")) + Paths(rest))
      {
        FileNameSwallowed(pre, n, rest);
      }
    } else {
      FileNameLeaks(pre, "0", rest);
      FileNameLeaks(pre, "1", rest);
      var n1, n2 := "&" + "0", "&" + "1";
      assert n1[1] != n2[1];
      AmpersandFile("0");
      AmpersandFile("1");
      var a := Replace(Upload, Replace(Delivery, pre + "/api"));
      var lead := if Open(Query, a) then "" else "/upload/";
      Apart(Replace(Query, a) + lead, n1, n2, Redact(rest));
      assert Redact(pre + (FilePath(n1) + rest)) != Redact(pre + (FilePath(n2) + rest));
    }
  }

  lemma AmpersandFile(t: string)
    requires AllDigit(t)
    ensures IsFileName("&" + t) && IsToken("&" + t)
  {
  }

  lemma FileNameSwallowed(pre: string, n: string, rest: string)
    requires Trail(pre) % 2 == 1 && Open(Upload, Replace(Delivery, pre + "/api"))
    requires IsFileName(n) && Boundary(Upload, rest)
    ensures Redact(pre + (FilePath(n) + rest))
         == Replace(Query, Replace(Upload, Replace(Delivery, pre + "/api")) + Paths(rest))
  {
    hide Replace, Trail, Open, IsFileName, FilePath;
    FilePathTaken(pre, n, rest);
    var m := FileNameKept("/upload", n, rest);
    var w := "/upload" + ("/" + m);
    UploadNamePlain(m);
    ReplaceFirst(Delivery, rest);
    Uploaded(Replace(Delivery, pre + "/api"), w, Replace(Delivery, rest));
  }

  lemma UploadNamePlain(m: string)
    requires IsFileName(m)
    ensures NoStops(Upload, "/upload" + ("/" + m))
  {
  }

  lemma FileNameLeaks(pre: string, t: string, rest: string)
    requires Trail(pre) % 2 == 1 && !Open(Upload, Replace(Delivery, pre + "/api"))
    requires AllDigit(t) && Boundary(Upload, rest)
    ensures var b := Replace(Upload, Replace(Delivery, pre + "/api"));
      Redact(pre + (FilePath("&" + t) + rest))
        == Replace(Query, b) + (if Open(Query, b) then "" else "/upload/") + ("&" + t + Redact(rest))
  {
    hide Replace, Trail, Open, FilePath;
    var n := "&" + t;
    FilePathTaken(pre, n, rest);
    assert "/upload" + ("/" + n) + rest == "/upload/" + n + rest;
    LeadDigits(t);
    ReplaceInert(Delivery, "/upload/" + n, rest);
    SegmentLeaks(Replace(Delivery, pre + "/api"), "/upload/", t, Replace(Delivery, rest));
  }

  lemma LeadDigits(t: string)
    requires AllDigit(t)
    ensures Inert(Delivery, "/upload/" + ("&" + t)) && Inert(Delivery, "/" + ("&" + t))
  {
  }

  /** Exactly when all tokens are forgotten. */
  lemma RedactForgetsExactly(pre: string, rest: string)
    requires Boundary(Delivery, rest)
    ensures (forall t1, t2 :: IsToken(t1) && IsToken(t2) ==>
                Redact(pre + (Path(t1) + rest)) == Redact(pre + (Path(t2) + rest)))
       <==> Trail(pre) % 2 == 0 || Open(Upload, Replace(Delivery, pre + "/d"))
  {
    hide Replace, Trail, Open, IsToken, Path, Redact, Run;
    if Trail(pre) % 2 == 0 {
      forall t1, t2 | IsToken(t1) && IsToken(t2)
        ensures Redact(pre + (Path(t1) + rest)) == Redact(pre + (Path(t2) + rest))
      {
        RedactForgets(pre, t1, t2, rest);
      }
    } else if Open(Upload, Replace(Delivery, pre + "/d")) {
      forall t | IsToken(t)
        ensures Redact(pre + (Path(t) + rest))
             == Replace(Query, Replace(Upload, Replace(Delivery, pre + "/d")) + Paths(rest[Run(Upload, rest)..]))
      {
        TokenSwallowed(pre, t, rest);
      }
    } else {
      TokenLeaks(pre, "0", rest);
      TokenLeaks(pre, "1", rest);
      var t1, t2 := "&" + "0", "&" + "1";
      assert t1[1] != t2[1];
      AmpersandFile("0");
      AmpersandFile("1");
      var a := Replace(Upload, Replace(Delivery, pre + "/d"));
      var lead := if Open(Query, a) then "" else "/";
      Apart(Replace(Query, a) + lead, t1, t2, Redact(rest));
      assert Redact(pre + (Path(t1) + rest)) != Redact(pre + (Path(t2) + rest));
    }
  }

  /** Behind an odd number the first pass takes the path's own `d` for a token. */
  lemma PathTaken(pre: string, t: string, rest: string)
    requires Trail(pre) % 2 == 1
    ensures Bracketed(Replace(Delivery, pre + "/d"))
    ensures Replace(Delivery, pre + (Path(t) + rest))
         == Replace(Delivery, pre + "/d") + Replace(Delivery, "/" + t + rest)
  {
    hide Replace;
    var p0 := pre[..|pre| - 2];
    var x := "/" + t + rest;
    assert pre == p0 + "/d";
    assert pre + "/d" == p0 + (Path("d") + "");
    assert "/d/" == "/d" + "/";
    assert pre + (Path(t) + rest) == p0 + (Path("d") + x);
    DeliveryForgets(p0, "d", "");
    DeliveryForgets(p0, "d", x);
    ReplaceFirst(Delivery, "");
    TaggedTwice(Replace(Delivery, p0), Replace(Delivery, x));
  }

  lemma TokenSwallowed(pre: string, t: string, rest: string)
    requires Trail(pre) % 2 == 1 && Open(Upload, Replace(Delivery, pre + "/d"))
    requires IsToken(t) && Boundary(Delivery, rest)
    ensures Redact(pre + (Path(t) + rest))
         == Replace(Query, Replace(Upload, Replace(Delivery, pre + "/d")) + Paths(rest[Run(Upload, rest)..]))
  {
    hide Replace, Trail, Open, IsToken, Path, Run, Stops;
    var j := Run(Upload, rest);
    var u, r := "/" + t + rest[..j], rest[j..];
    PathTaken(pre, t, rest);
    assert "/" + t + rest == u + r;
    TokenPlain(t, rest);
    StopNoSlash(rest);
    UploadRest(rest);
    StopSplit(Delivery, u, r);
    NoStopsKept(Delivery, Upload, u);
    ReplaceFirst(Delivery, r);
    Uploaded(Replace(Delivery, pre + "/d"), Replace(Delivery, u), Replace(Delivery, r));
  }

  lemma TokenPlain(t: string, rest: string)
    requires IsToken(t)
    ensures NoStops(Upload, "/" + t + rest[..Run(Upload, rest)])
  {
  }

  lemma UploadRest(rest: string)
    ensures Boundary(Upload, rest[Run(Upload, rest)..])
    ensures var r := rest[Run(Upload, rest)..]; r != [] ==> Stops(Delivery, r[0])
  {
  }

  lemma TokenLeaks(pre: string, t: string, rest: string)
    requires Trail(pre) % 2 == 1 && !Open(Upload, Replace(Delivery, pre + "/d")) && AllDigit(t)
    ensures var b := Replace(Upload, Replace(Delivery, pre + "/d"));
      Redact(pre + (Path("&" + t) + rest))
        == Replace(Query, b) + (if Open(Query, b) then "" else "/") + ("&" + t + Redact(rest))
  {
    hide Replace, Trail, Open, Path;
    var n := "&" + t;
    PathTaken(pre, n, rest);
    LeadDigits(t);
    ReplaceInert(Delivery, "/" + n, rest);
    SegmentLeaks(Replace(Delivery, pre + "/d"), "/", t, Replace(Delivery, rest));
  }
}
