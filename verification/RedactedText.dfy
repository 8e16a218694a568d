/** src/log.ts: what `redact` makes of each kind of text, character by character. */
module RedactedText {
  import opened Text
  import opened Redaction
  import opened Forgetting

  /** No parameter starts in it, and none of its slashes stands before a `d` or an `a`. */
  predicate Harmless(s: string) {
    && '?' !in s && '&' !in s
    && forall i :: 0 <= i < |s| && s[i] == '/' ==> i + 1 < |s| && s[i + 1] != 'd' && s[i + 1] != 'a'
  }

  lemma HarmlessInert(p: Pass, s: string)
    requires Harmless(s)
    ensures Inert(p, s)
  {
    forall i | 0 <= i < |s| ensures InertAt(p, s, i) { assert s[i] in s; }
  }

  lemma ThroughInert(s: string, rest: string)
    requires forall p :: Inert(p, s)
    ensures Redact(s + rest) == s + Redact(rest)
  {
    hide Replace, Inert;
    ReplaceInert(Delivery, s, rest);
    ReplaceInert(Upload, s, Replace(Delivery, rest));
    ReplaceInert(Query, s, Replace(Upload, Replace(Delivery, rest)));
  }

  /** Such text is kept, whatever stands behind it. */
  lemma HarmlessKept(s: string, rest: string)
    requires Harmless(s)
    ensures Redact(s + rest) == s + Redact(rest) && Redact(s) == s
  {
    hide Replace, Harmless;
    forall p ensures Inert(p, s) { HarmlessInert(p, s); }
    ThroughInert(s, rest);
    ThroughInert(s, "");
    ReplaceFirst(Delivery, "");
    ReplaceFirst(Upload, "");
    ReplaceFirst(Query, "");
    assert s + "" == s;
  }

  // ---------------------------------------------------------------- paths

  lemma DeliveryTagInert(p: Pass)
    requires !p.Delivery?
    ensures Inert(p, "/d/[redacted]")
  {
    forall i | 0 <= i < |"/d/[redacted]"| ensures InertAt(p, "/d/[redacted]", i) {}
  }

  /** A delivery path loses its first segment, up to a slash, `?`, `#`, white space or the end. */
  lemma TokenRedacted(pre: string, t: string, rest: string)
    requires Harmless(pre)
    requires t != "" && forall c :: c in t ==> c != '/' && c != '?' && c != '#' && !IsSpace(c)
    requires rest == "" || rest[0] == '/' || rest[0] == '?' || rest[0] == '#' || IsSpace(rest[0])
    ensures Redact(pre + ("/d/" + t + rest)) == pre + "/d/[redacted]" + Redact(rest)
  {
    hide Replace, IsSpace, Harmless;
    HarmlessKept(pre, "/d/" + t + rest);
    forall i | 0 <= i < |t| ensures !Stops(Delivery, t[i]) { assert t[i] in t; }
    TokenReplaced(t, rest);
    DeliveryTagInert(Upload);
    DeliveryTagInert(Query);
    ReplaceInert(Upload, "/d/[redacted]", Replace(Delivery, rest));
    ReplaceInert(Query, "/d/[redacted]", Replace(Upload, Replace(Delivery, rest)));
    assert pre + ("/d/[redacted]" + Redact(rest)) == pre + "/d/[redacted]" + Redact(rest);
  }

  lemma UploadTagInert()
    ensures Inert(Query, "/api/upload/[filename]")
  {
    forall i | 0 <= i < |"/api/upload/[filename]"| ensures InertAt(Query, "/api/upload/[filename]", i) {}
  }

  lemma FileNameReplaced(n: string, rest: string)
    requires IsFileName(n) && Boundary(Upload, rest)
    ensures Replace(Upload, "/api/upload/" + (n + rest)) == "/api/upload/[filename]" + Replace(Upload, rest)
  {
    hide Replace, Head, Run;
    var head := "/api/upload/";
    HeadThere(Upload, head, n + rest);
    assert head[12..] == "" && head[..12] == head;
    NamesPlain(n);
    Swallowed(Upload, head, n, rest);
    assert head + "[filename]" == "/api/upload/[filename]";
  }

  /** An upload path loses everything behind it, up to `?`, `#`, white space or the end. */
  lemma FileNameRedacted(pre: string, n: string, rest: string)
    requires Harmless(pre)
    requires n != "" && forall c :: c in n ==> c != '?' && c != '#' && !IsSpace(c)
    requires rest == "" || rest[0] == '?' || rest[0] == '#' || IsSpace(rest[0])
    ensures Redact(pre + ("/api/upload/" + n + rest)) == pre + "/api/upload/[filename]" + Redact(rest)
  {
    hide Replace, IsSpace, Harmless, Head, Run;
    var head := "/api/upload/";
    HarmlessKept(pre, head + n + rest);
    forall i | 0 <= i < |n| ensures !Stops(Upload, n[i]) { assert n[i] in n; }
    assert head + n + rest == "/api/upload" + ("/" + n) + rest;
    var m := FileNameKept("/api/upload", n, rest);
    var r := Replace(Delivery, rest);
    assert "/api/upload" + ("/" + m) + r == head + (m + r);
    ReplaceFirst(Delivery, rest);
    FileNameReplaced(m, r);
    UploadTagInert();
    ReplaceInert(Query, "/api/upload/[filename]", Replace(Upload, r));
    assert pre + ("/api/upload/[filename]" + Redact(rest)) == pre + "/api/upload/[filename]" + Redact(rest);
  }

  // ---------------------------------------------------------------- parameters

  predicate NamesSecret(name: string) {
    InAnyCase(name, "token") || InAnyCase(name, "code") || InAnyCase(name, "access_token") || InAnyCase(name, "sig")
  }

  lemma SecretExactly(name: string)
    ensures IsSecret(name) <==> NamesSecret(name)
  {
    AnyCase(name, "token");
    AnyCase(name, "code");
    AnyCase(name, "access_token");
    AnyCase(name, "sig");
  }

  /** Text without slashes behind harmless text opens no path. */
  lemma NoPath(p: Pass, pre: string, x: string)
    requires !p.Query? && Harmless(pre) && '/' !in x
    ensures Inert(p, pre + x) && !Open(p, pre + x) && Replace(p, pre + x) == pre + x
  {
    var s := pre + x;
    forall i | 0 <= i < |s| ensures InertAt(p, s, i) {
      if i < |pre| { assert s[i] == pre[i]; } else { assert s[i] == x[i - |pre|] && x[i - |pre|] in x; }
    }
    assert Inert(p, s);
    hide Replace, Open, Inert, Harmless;
    InertNotOpen(p, s);
    ReplaceInert(p, s, "");
    ReplaceFirst(p, "");
    assert s + "" == s;
  }

  lemma HeadTagged(pre: string, m: string)
    requires Harmless(pre) && IsHead(Query, m)
    ensures Redact(pre + m) == pre + m + "[redacted]"
  {
    hide Replace, Harmless, IsHead, Run, Head;
    HeadSlashless(m);
    NoPath(Delivery, pre, m);
    NoPath(Upload, pre, m);
    HarmlessInert(Query, pre);
    ReplaceInert(Query, pre, m);
    HeadThere(Query, m, "");
    assert m + "" == m && m + ("" + "") == m && m[|m|..] == "";
    Swallowed(Query, m, "", "");
    ReplaceFirst(Query, "");
    assert pre + (m[..|m|] + "[redacted]" + "") == pre + m + "[redacted]";
  }

  lemma NotInside(pre: string, m: string, v: string)
    requires Harmless(pre) && IsHead(Query, m) && '/' !in v
    ensures !Inside(pre + m + v)
  {
    hide Replace, Open, Harmless, IsHead;
    HeadSlashless(m);
    var x := m + v + "&";
    assert pre + m + v + "&" == pre + x;
    NoPath(Delivery, pre, x);
    NoPath(Upload, pre, x);
  }

  /** A parameter named `token`, `code`, `access_token` or `sig`, in any case, behind `?` or `&`: its
      value is replaced, up to `&`, `#`, white space or the end. */
  lemma ParameterRedacted(pre: string, opening: char, name: string, v: string, rest: string)
    requires Harmless(pre) && (opening == '?' || opening == '&')
    requires InAnyCase(name, "token") || InAnyCase(name, "code") || InAnyCase(name, "access_token") || InAnyCase(name, "sig")
    requires forall c :: c in v ==> c != '&' && c != '#' && !IsSpace(c)
    requires rest == "" || rest[0] == '&' || rest[0] == '#' || IsSpace(rest[0])
    requires rest != "" && rest[0] == '&' ==> '/' !in v
    ensures Redact(pre + ([opening] + name + "=") + v + rest) == pre + ([opening] + name + "=") + "[redacted]" + Redact(rest)
  {
    hide Replace, Run, Open, Harmless, IsSpace, IsSecret, InAnyCase, Closed, Capped, Paths, Inside;
    var m := [opening] + name + "=";
    SecretExactly(name);
    assert m[1..|m| - 1] == name;
    forall i | 0 <= i < |v| ensures !Stops(Query, v[i]) { assert v[i] in v; }
    HeadSlashless(m);
    NoPath(Delivery, pre, m);
    NoPath(Upload, pre, m);
    ParameterSeen(pre, m);
    ParameterCapped(pre, m);
    if '/' !in v { NotInside(pre, m, v); }
    ParameterExactly(pre + m, v, rest);
    HeadTagged(pre, m);
  }

  lemma {:induction false} EqualsAfter(name: string, x: string)
    requires '=' !in name
    ensures BeforeEquals(name + "=" + x) == |name|
  {
    if name != "" {
      assert name[0] in name;
      assert (name + "=" + x)[1..] == name[1..] + "=" + x;
      EqualsAfter(name[1..], x);
    }
  }

  lemma OtherNoHead(opening: char, name: string, x: string)
    requires '=' !in name && !NamesSecret(name)
    ensures Head(Query, [opening] + (name + "=" + x)) == 0
  {
    hide IsSecret, NamesSecret;
    var s := [opening] + (name + "=" + x);
    assert s[1..] == name + "=" + x;
    EqualsAfter(name, x);
    assert s[1..|name| + 1] == name;
    SecretExactly(name);
  }

  /** A parameter of any other name keeps its value. */
  lemma OtherParameterKept(pre: string, opening: char, name: string, v: string, rest: string)
    requires Harmless(pre) && (opening == '?' || opening == '&')
    requires !InAnyCase(name, "token") && !InAnyCase(name, "code")
    requires !InAnyCase(name, "access_token") && !InAnyCase(name, "sig")
    requires '=' !in name && forall c :: c in name + v ==> c != '/' && c != '?' && c != '&'
    ensures Redact(pre + ([opening] + name + "=" + v) + rest) == pre + ([opening] + name + "=" + v) + Redact(rest)
  {
    hide Replace, InAnyCase, Head;
    var w := name + "=" + v;
    var x := [opening] + w;
    assert [opening] + name + "=" + v == x && pre + x + rest == pre + (x + rest);
    HarmlessKept(pre, x + rest);
    forall c | c in w ensures c != '/' && c != '?' && c != '&' {
      assert c in name + v || c == '=';
    }
    NoSlashInert(x);
    forall i | 0 <= i < |w| ensures InertAt(Query, w, i) { assert w[i] in w; }
    hide Inert;
    ReplaceInert(Delivery, x, rest);
    ReplaceInert(Upload, x, Replace(Delivery, rest));
    var r := Replace(Upload, Replace(Delivery, rest));
    OtherNoHead(opening, name, v + r);
    assert x + r == [opening] + (w + r) && w + r == name + "=" + (v + r);
    ReplaceSkip(Query, opening, w + r);
    ReplaceInert(Query, w, r);
    assert [opening] + (w + Redact(rest)) == x + Redact(rest);
    assert pre + (x + Redact(rest)) == pre + x + Redact(rest);
  }
}
