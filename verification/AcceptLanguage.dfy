/** src/i18n.ts: `negotiateLang` picks the interface language from an Accept-Language header. */
module AcceptLanguage {
  import opened Text
  import StableSort

  const DEFAULT_LANG := "en"

  const LANGS: set<string> := {
    "bg", "cs", "da", "de", "el", "en", "es", "et", "fi", "fr", "ga", "hr",
    "hu", "it", "lt", "lv", "mt", "nl", "pl", "pt", "ro", "sk", "sl", "sv"
  }

  datatype Entry = Entry(tag: string, q: real, index: nat)

  predicate IsWeightChar(c: char) { IsDigit(c) || c == '.' }

  function WeightRun(s: string): (r: string)
  {
    if s != [] && IsWeightChar(s[0]) then [s[0]] + WeightRun(s[1..]) else []
  }

  /** The group of `/^\s*q=([0-9.]+)/`. */
  function WeightText(param: string): Option<string> {
    var p := TrimStart(param);
    if |p| >= 2 && p[0] == 'q' && p[1] == '=' && WeightRun(p[2..]) != [] then Some(WeightRun(p[2..])) else None
  }

  /** The first parameter that matches. */
  function FirstWeight(params: seq<string>): Option<string> {
    if params == [] then None
    else if WeightText(params[0]).Some? then WeightText(params[0])
    else FirstWeight(params[1..])
  }

  /** `Number(text)` for digits and points; None is NaN. */
  function NumberFrom(text: string): Option<real> {
    var point := IndexOf(text, '.');
    var whole := if point < 0 then text else text[..point];
    var decimals := if point < 0 then "" else text[point + 1..];
    if whole + decimals == "" || !AllDigits(whole) || !AllDigits(decimals) then None
    else Some(Decimals(whole, decimals))
  }

  /** The number whole.decimals. */
  function Decimals(whole: string, decimals: string): real
    requires AllDigits(whole) && AllDigits(decimals)
  {
    NumberOf(whole) as real + NumberOf(decimals) as real / Pow10(|decimals|) as real
  }

  function Weight(params: seq<string>): Option<real> {
    match FirstWeight(params)
    case None => Some(1.0)
    case Some(text) => NumberFrom(text)
  }

  /** One comma-separated part: its entry, unless the tag is empty or the weight is not above 0. */
  function Candidate(lower: char -> string, part: string, index: nat): (r: seq<Entry>)
  {
    var pieces := Split(Trim(part), ';');
    var tag := MapCase(lower, Trim(pieces[0]));
    var q := Weight(pieces[1..]);
    if tag != "" && q.Some? && q.value > 0.0 then [Entry(tag, q.value, index)] else []
  }

  function Candidates(lower: char -> string, parts: seq<string>, index: nat): seq<Entry>
    decreases |parts|
  {
    if parts == [] then [] else Candidate(lower, parts[0], index) + Candidates(lower, parts[1..], index + 1)
  }

  /** Weights are above 0, and entries keep the order of their parts. */
  lemma {:induction false} CandidatesOrdered(lower: char -> string, parts: seq<string>, index: nat)
    ensures var r := Candidates(lower, parts, index);
      && (forall e :: e in r ==> e.q > 0.0 && e.index >= index)
      && forall i, j :: 0 <= i < j < |r| ==> r[i].index < r[j].index
    decreases |parts|
  {
    hide Split, Trim, MapCase, Weight;
    if parts != [] {
      var first, rest := Candidate(lower, parts[0], index), Candidates(lower, parts[1..], index + 1);
      CandidatesOrdered(lower, parts[1..], index + 1);
      assert |first| == 1 ==> first[0] in first;
      assert forall j :: 0 <= j < |rest| ==> rest[j] in rest;
    }
  }

  /** The comparator `b.q - a.q || a.index - b.index` is negative. */
  predicate Above(a: Entry, b: Entry) { a.q > b.q || (a.q == b.q && a.index < b.index) }

  predicate IsLang(v: string) { v in LANGS }

  function Negotiate(lower: char -> string, header: Option<string>): (lang: string)
    ensures IsLang(lang)
  {
    if header.None? || header.value == "" then DEFAULT_LANG
    else
      var ranked := StableSort.Sort(Above, Candidates(lower, Split(header.value, ','), 0));
      if ranked == [] then DEFAULT_LANG
      else
        var top := Split(ranked[0].tag, '-')[0];
        if IsLang(top) then top else DEFAULT_LANG
  }

  // ---------------------------------------------------------------- one scan is enough

  /** Left to right, keeping the first entry with the greatest weight so far. */
  function Scan(best: Option<Entry>, s: seq<Entry>): Option<Entry>
    decreases |s|
  {
    if s == [] then best
    else Scan(if best.None? || s[0].q > best.value.q then Some(s[0]) else best, s[1..])
  }

  lemma {:induction false} ScanFindsFirstGreatest(best: Entry, s: seq<Entry>)
    ensures var r := Scan(Some(best), s);
      && r.Some? && r.value.q >= best.q
      && (r.value.q == best.q ==> r.value == best)
      && (r.value.q > best.q ==> exists k :: 0 <= k < |s| && s[k] == r.value && forall i :: 0 <= i < k ==> s[i].q < s[k].q)
      && forall e :: e in s ==> e.q <= r.value.q
    decreases |s|
  {
    if s != [] {
      var next := if s[0].q > best.q then s[0] else best;
      ScanFindsFirstGreatest(next, s[1..]);
      var r := Scan(Some(next), s[1..]).value;
      assert forall e :: e in s ==> e == s[0] || e in s[1..];
      if r.q > best.q {
        if r.q > next.q {
          var k :| 0 <= k < |s[1..]| && s[1..][k] == r && forall i :: 0 <= i < k ==> s[1..][i].q < r.q;
          assert s[k + 1] == r;
          assert forall i :: 0 < i < k + 1 ==> s[i] == s[1..][i - 1];
        } else {
          assert s[0] == r;
        }
      }
    }
  }

  /** The head of the sorted list, without sorting. */
  lemma {:induction false} SortedHead(s: seq<Entry>)
    requires forall i, j :: 0 <= i < j < |s| ==> s[i].index < s[j].index
    ensures s == [] ==> StableSort.Sort(Above, s) == []
    ensures s != [] ==> Scan(None, s) == Some(StableSort.Sort(Above, s)[0])
  {
    if s != [] {
      SortedHead(s[1..]);
      if |s| > 1 {
        ScanFrom(s[0], s[1..]);
        ScanFindsMember(s[1..]);
      }
    }
  }

  lemma {:induction false} ScanFindsMember(s: seq<Entry>)
    requires s != []
    ensures Scan(None, s).Some? && Scan(None, s).value in s
  {
    ScanFindsFirstGreatest(s[0], s[1..]);
  }

  /** Starting from x instead of nothing only matters when nothing beats x. */
  lemma {:induction false} ScanFrom(x: Entry, s: seq<Entry>)
    requires s != []
    ensures Scan(None, s).Some?
    ensures Scan(Some(x), s) == if Scan(None, s).value.q > x.q then Scan(None, s) else Some(x)
    decreases |s|
  {
    ScanFindsFirstGreatest(s[0], s[1..]);
    if s[0].q > x.q {
    } else if |s| > 1 {
      ScanFrom(x, s[1..]);
      ScanFrom(s[0], s[1..]);
    }
  }

  /** What the header asks for most, by the scan. */
  function Top(lower: char -> string, header: string): Option<Entry> {
    Scan(None, Candidates(lower, Split(header, ','), 0))
  }

  function Collapsed(top: Option<Entry>): (lang: string) {
    if top.None? then DEFAULT_LANG
    else
      var language := Split(top.value.tag, '-')[0];
      if IsLang(language) then language else DEFAULT_LANG
  }

  /** Filter, sort and head come to one left-to-right scan. */
  lemma NegotiateScans(lower: char -> string, header: string)
    ensures Negotiate(lower, Some(header)) == Collapsed(Top(lower, header))
  {
    var s := Candidates(lower, Split(header, ','), 0);
    CandidatesOrdered(lower, Split(header, ','), 0);
    SortedHead(s);
    if header == "" {
      assert Trim("") == "";
      assert Split("", ',') == [""] && Split("", ';') == [""];
      assert MapCase(lower, "") == "";
      assert Candidate(lower, "", 0) == [];
    }
  }

  // ---------------------------------------------------------------- lower ranks do not matter

  lemma {:induction false} CandidatesConcat(lower: char -> string, a: seq<string>, b: seq<string>, index: nat)
    ensures Candidates(lower, a + b, index) == Candidates(lower, a, index) + Candidates(lower, b, index + |a|)
    decreases |a|
  {
    hide Candidate;
    if a == [] {
      assert a + b == b;
    } else {
      assert (a + b)[1..] == a[1..] + b;
      CandidatesConcat(lower, a[1..], b, index + 1);
    }
  }

  lemma {:induction false} ScanConcat(best: Option<Entry>, s: seq<Entry>, t: seq<Entry>)
    ensures Scan(best, s + t) == Scan(Scan(best, s), t)
    decreases |s|
  {
    if s == [] {
      assert s + t == t;
    } else {
      assert (s + t)[1..] == s[1..] + t;
      ScanConcat(if best.None? || s[0].q > best.value.q then Some(s[0]) else best, s[1..], t);
    }
  }

  lemma {:induction false} ScanIgnores(best: Entry, s: seq<Entry>)
    requires forall e :: e in s ==> e.q <= best.q
    ensures Scan(Some(best), s) == Some(best)
  {
    if s != [] {
      assert s[0] in s;
      ScanIgnores(best, s[1..]);
    }
  }

  /** The same tag and weight; positions may differ. */
  predicate SameChoice(a: Option<Entry>, b: Option<Entry>) {
    a.Some? == b.Some? && (a.Some? ==> a.value.tag == b.value.tag && a.value.q == b.value.q)
  }

  predicate SameEntries(s: seq<Entry>, t: seq<Entry>) {
    |s| == |t| && forall i :: 0 <= i < |s| ==> s[i].tag == t[i].tag && s[i].q == t[i].q
  }

  lemma {:induction false} ScanSame(a: Option<Entry>, b: Option<Entry>, s: seq<Entry>, t: seq<Entry>)
    requires SameChoice(a, b) && SameEntries(s, t)
    ensures SameChoice(Scan(a, s), Scan(b, t))
    decreases |s|
  {
    if s != [] {
      ScanSame(if a.None? || s[0].q > a.value.q then Some(s[0]) else a,
               if b.None? || t[0].q > b.value.q then Some(t[0]) else b, s[1..], t[1..]);
    }
  }

  lemma CandidateSame(lower: char -> string, part: string, i: nat, j: nat)
    ensures SameEntries(Candidate(lower, part, i), Candidate(lower, part, j))
  {
    hide Split, Trim, MapCase, Weight;
  }

  lemma SameAppend(a: seq<Entry>, b: seq<Entry>, s: seq<Entry>, t: seq<Entry>)
    requires SameEntries(a, b) && SameEntries(s, t)
    ensures SameEntries(a + s, b + t)
  {
  }

  lemma NoEntries()
    ensures SameEntries([], [])
  {
  }

  lemma {:induction false} CandidatesSame(lower: char -> string, parts: seq<string>, i: nat, j: nat)
    ensures SameEntries(Candidates(lower, parts, i), Candidates(lower, parts, j))
    decreases |parts|
  {
    hide Candidate, SameEntries;
    if parts == [] {
      NoEntries();
    } else {
      CandidateSame(lower, parts[0], i, j);
      CandidatesSame(lower, parts[1..], i + 1, j + 1);
      SameAppend(Candidate(lower, parts[0], i), Candidate(lower, parts[0], j),
                 Candidates(lower, parts[1..], i + 1), Candidates(lower, parts[1..], j + 1));
    }
  }

  lemma ScanSkips(x: seq<Entry>, y: seq<Entry>, y': seq<Entry>, z: seq<Entry>, w: seq<Entry>)
    requires SameEntries(y, y') && SameEntries(z, w)
    requires Scan(None, x).Some? && forall e :: e in y' ==> e.q <= Scan(None, x).value.q
    ensures SameChoice(Scan(None, x + (y + z)), Scan(None, x + w))
  {
    hide Scan;
    var best := Scan(None, x);
    ScanConcat(None, x, y + z);
    ScanConcat(best, y, z);
    ScanConcat(None, x, w);
    forall e | e in y ensures e.q <= best.value.q {
      var k :| 0 <= k < |y| && y[k] == e;
      assert y'[k] in y';
    }
    ScanIgnores(best.value, y);
    ScanSame(best, best, z, w);
  }

  /** Entries put in anywhere behind one that outweighs or ties with them all change nothing. */
  lemma LowerRanksDoNotMatter(lower: char -> string, left: string, extra: string, right: string)
    requires Top(lower, left).Some?
    requires forall e :: e in Candidates(lower, Split(extra, ','), 0) ==> e.q <= Top(lower, left).value.q
    ensures Negotiate(lower, Some(left + [','] + (extra + [','] + right)))
         == Negotiate(lower, Some(left + [','] + right))
  {
    hide Candidates, Scan, Negotiate, Split, SameEntries;
    var a, b, c := Split(left, ','), Split(extra, ','), Split(right, ',');
    SplitConcat(extra, ',', right);
    SplitConcat(left, ',', extra + [','] + right);
    SplitConcat(left, ',', right);
    NegotiateScans(lower, left + [','] + (extra + [','] + right));
    NegotiateScans(lower, left + [','] + right);
    CandidatesConcat(lower, a, b + c, 0);
    CandidatesConcat(lower, b, c, |a|);
    CandidatesConcat(lower, a, c, 0);
    CandidatesSame(lower, b, |a|, 0);
    CandidatesSame(lower, c, |a| + |b|, |a|);
    ScanSkips(Candidates(lower, a, 0), Candidates(lower, b, |a|), Candidates(lower, b, 0),
              Candidates(lower, c, |a| + |b|), Candidates(lower, c, |a|));
  }

  // ---------------------------------------------------------------- regions

  lemma {:induction false} MapCaseAscii(f: char -> string, s: string)
    requires LowersAscii(f) && forall c :: c in s ==> IsAscii(c)
    ensures MapCase(f, s) == AsciiLowered(s)
  {
    if s != [] {
      assert s[0] in s;
      MapCaseAscii(f, s[1..]);
    }
  }

  lemma {:induction false} MapCaseLower(f: char -> string, s: string)
    requires LowersAscii(f) && forall c :: c in s ==> IsAscii(c) && AsciiLower(c) == c
    ensures MapCase(f, s) == s
  {
    if s != [] {
      assert s[0] in s;
      MapCaseLower(f, s[1..]);
    }
  }

  lemma LangLetters(lang: string)
    requires IsLang(lang)
    ensures |lang| == 2 && forall c :: c in lang ==> 'a' <= c <= 'z'
  {
  }

  lemma TrimmedTag(lang: string, region: string)
    requires IsLang(lang)
    ensures var header := lang + ['-'] + region;
            Trim(header) <= header && |Trim(header)| > |lang| && Trim(Trim(header)) == Trim(header)
  {
    hide IsLang;
    LangLetters(lang);
    var header := lang + ['-'] + region;
    assert header[0] == lang[0] && lang[0] in lang && header[|lang|] == '-';
    TrimEndKeeps(header, |lang|);
    assert TrimStart(header) == header;
    var text := TrimEnd(header);
    assert text[0] == header[0];
    assert TrimStart(text) == text && TrimEnd(text) == text;
  }

  lemma OneCandidate(lower: char -> string, header: string, text: string)
    requires Split(header, ',') == [header] && Trim(header) == text && Split(text, ';') == [text]
    requires Trim(text) == text && MapCase(lower, text) != ""
    ensures Top(lower, header) == Some(Entry(MapCase(lower, text), 1.0, 0))
  {
    hide Split, Trim, MapCase;
    assert [text][1..] == [] && [header][1..] == [];
    assert Candidate(lower, header, 0) == [Entry(MapCase(lower, text), 1.0, 0)];
    assert Candidates(lower, [header], 0) == Candidate(lower, header, 0) + Candidates(lower, [header][1..], 1);
    var s := [Entry(MapCase(lower, text), 1.0, 0)];
    assert Candidates(lower, [header], 0) == s && s[1..] == [];
    assert Scan(None, s) == Scan(Some(s[0]), []);
  }

  lemma LoweredTag(lower: char -> string, lang: string, rest: string)
    requires LowersAscii(lower) && IsLang(lang)
    ensures MapCase(lower, lang + ['-'] + rest) != ""
    ensures Split(MapCase(lower, lang + ['-'] + rest), '-')[0] == lang
  {
    hide IsLang;
    LangLetters(lang);
    assert lang + ['-'] + rest == (lang + ['-']) + rest;
    MapCaseConcat(lower, lang + ['-'], rest);
    MapCaseLower(lower, lang + ['-']);
    var more := MapCase(lower, rest);
    assert MapCase(lower, lang + ['-'] + rest) == lang + ['-'] + more;
    SplitConcat(lang, '-', more);
    SplitSingle(lang, '-');
  }

  /** A header that is one known language with any region, and perhaps trailing space, is that
      language. */
  lemma RegionsCollapse(lower: char -> string, lang: string, region: string)
    requires LowersAscii(lower) && IsLang(lang)
    requires ',' !in region && ';' !in region
    ensures Negotiate(lower, Some(lang + ['-'] + region)) == lang
  {
    hide Candidates, Scan, Negotiate, Split, MapCase, TrimStart, TrimEnd, IsLang, LowersAscii;
    var header := lang + ['-'] + region;
    LangLetters(lang);
    NegotiateScans(lower, header);
    assert ',' !in header && ';' !in header;
    SplitSingle(header, ',');
    var text := Trim(header);
    TrimmedTag(lang, region);
    assert forall c :: c in text ==> c in header;
    SplitSingle(text, ';');
    var rest := text[|lang| + 1..];
    assert text == lang + ['-'] + rest;
    LoweredTag(lower, lang, rest);
    OneCandidate(lower, header, text);
  }

  lemma {:induction false} TrimEndKeeps(s: string, k: nat)
    requires k < |s| && !IsSpace(s[k])
    ensures |TrimEnd(s)| > k
  {
    if IsSpace(s[|s| - 1]) { TrimEndKeeps(s[..|s| - 1], k); }
  }

  lemma {:induction false} MapCaseConcat(f: char -> string, s: string, t: string)
    ensures MapCase(f, s + t) == MapCase(f, s) + MapCase(f, t)
  {
    if s == [] {
      assert s + t == t;
    } else {
      assert (s + t)[1..] == s[1..] + t;
      MapCaseConcat(f, s[1..], t);
    }
  }

  // ---------------------------------------------------------------- weights

  lemma {:induction false} WeightRunWhole(text: string)
    requires forall c :: c in text ==> IsWeightChar(c)
    ensures WeightRun(text) == text
  {
    if text != [] {
      assert text[0] in text;
      WeightRunWhole(text[1..]);
    }
  }

  function Numeral(whole: string, decimals: string): string {
    if decimals == "" then whole else whole + ['.'] + decimals
  }

  lemma NumeralRead(whole: string, decimals: string)
    requires whole != "" && AllDigits(whole) && AllDigits(decimals)
    ensures NumberFrom(Numeral(whole, decimals)) == Some(Decimals(whole, decimals))
  {
    hide Decimals, IndexOf;
    var text := Numeral(whole, decimals);
    assert '.' !in whole;
    if decimals == "" {
      assert IndexOf(text, '.') == -1;
      assert whole + "" == whole;
    } else {
      FirstIndex(whole, '.', decimals);
      assert text[..|whole|] == whole && text[|whole| + 1..] == decimals;
    }
  }

  lemma WeightTextRead(whole: string, decimals: string)
    requires whole != "" && AllDigits(whole) && AllDigits(decimals)
    ensures WeightText("q=" + Numeral(whole, decimals)) == Some(Numeral(whole, decimals))
  {
    hide WeightRun;
    var text := Numeral(whole, decimals);
    WeightRunWhole(text);
    var p := "q=" + text;
    assert p[0] == 'q' && p[1] == '=' && p[2..] == text;
    assert TrimStart(p) == p;
  }

  predicate IsTagChar(c: char) { IsLetter(c) || IsDigit(c) || c == '-' }

  /** A tag with a weight is an entry of exactly that weight, in lower case, and none at weight zero. */
  lemma WeightedEntry(lower: char -> string, tag: string, whole: string, decimals: string, index: nat)
    requires LowersAscii(lower) && tag != "" && forall c :: c in tag ==> IsTagChar(c)
    requires whole != "" && AllDigits(whole) && AllDigits(decimals)
    ensures var q := Decimals(whole, decimals);
      Candidate(lower, tag + [';'] + ("q=" + Numeral(whole, decimals)), index)
        == if q > 0.0 then [Entry(AsciiLowered(tag), q, index)] else []
  {
    hide Decimals, NumberFrom, WeightText, LowersAscii, MapCase, Split;
    var param := "q=" + Numeral(whole, decimals);
    var part := tag + [';'] + param;
    NumeralRead(whole, decimals);
    WeightTextRead(whole, decimals);
    forall c | c in part ensures !IsSpace(c) {}
    forall c | c in param ensures c != ';' {}
    SplitConcat(tag, ';', param);
    SplitSingle(tag, ';');
    SplitSingle(param, ';');
    assert Split(part, ';') == [tag, param];
    MapCaseAscii(lower, tag);
    LowerAt(tag);
    assert [tag, param][1..] == [param];
    assert Weight([param]) == NumberFrom(Numeral(whole, decimals));
  }

  lemma NoWeightText(junk: string)
    requires 'q' !in junk
    ensures WeightText(junk) == None
  {
    if TrimStart(junk) != "" { TrimStartIn(junk); }
  }

  lemma {:induction false} TrimStartIn(s: string)
    ensures forall c :: c in TrimStart(s) ==> c in s
  {
    if s != "" && IsSpace(s[0]) { TrimStartIn(s[1..]); }
  }

  lemma FirstWeightOf(junk: string, weight: string, more: seq<string>)
    requires WeightText(junk) == None && WeightText(weight).Some?
    ensures FirstWeight([junk] + ([weight] + more)) == WeightText(weight)
  {
    hide WeightText;
    assert ([junk] + ([weight] + more))[1..] == [weight] + more;
  }

  /** Of the parameters of a tag the first one that is a weight counts, whatever stands before and behind it. */
  lemma FirstWeightCounts(lower: char -> string, tag: string, junk: string, whole: string, decimals: string,
                          rest: string, index: nat)
    requires LowersAscii(lower) && tag != "" && forall c :: c in tag ==> IsTagChar(c)
    requires 'q' !in junk && ';' !in junk && (rest != "" ==> !IsSpace(rest[|rest| - 1]))
    requires whole != "" && AllDigits(whole) && AllDigits(decimals)
    ensures var q := Decimals(whole, decimals);
      Candidate(lower, tag + [';'] + (junk + [';'] + ("q=" + Numeral(whole, decimals) + [';'] + rest)), index)
        == if q > 0.0 then [Entry(AsciiLowered(tag), q, index)] else []
  {
    hide Decimals, NumberFrom, WeightText, LowersAscii, MapCase, Split, IsSpace, FirstWeight, Trim, Numeral, IsTagChar;
    var weight := "q=" + Numeral(whole, decimals);
    var params := junk + [';'] + (weight + [';'] + rest);
    NumeralRead(whole, decimals);
    WeightTextRead(whole, decimals);
    NoWeightText(junk);
    NoSemicolon(tag, whole, decimals);
    ParamsEnd(junk + [';'] + weight, rest);
    assert junk + [';'] + weight + [';'] + rest == params;
    NotTrimmed(tag, params);
    PartSplit(tag, junk, weight, rest);
    FirstWeightOf(junk, weight, Split(rest, ';'));
    TagChars(tag);
    MapCaseAscii(lower, tag);
    LowerAt(tag);
  }

  lemma TagChars(tag: string)
    requires forall c :: c in tag ==> IsTagChar(c)
    ensures forall c :: c in tag ==> IsAscii(c)
  {
  }

  lemma NoSemicolon(tag: string, whole: string, decimals: string)
    requires (forall c :: c in tag ==> IsTagChar(c)) && AllDigits(whole) && AllDigits(decimals)
    ensures ';' !in tag && ';' !in "q=" + Numeral(whole, decimals)
  {
  }

  lemma ParamsEnd(front: string, rest: string)
    requires rest != "" ==> !IsSpace(rest[|rest| - 1])
    ensures var params := front + [';'] + rest; !IsSpace(params[|params| - 1])
  {
    assert !IsSpace(';');
  }

  lemma PartSplit(tag: string, junk: string, weight: string, rest: string)
    requires ';' !in tag && ';' !in junk && ';' !in weight
    ensures Split(tag + [';'] + (junk + [';'] + (weight + [';'] + rest)), ';')
         == [tag] + ([junk] + ([weight] + Split(rest, ';')))
  {
    hide Split;
    SplitConcat(tag, ';', junk + [';'] + (weight + [';'] + rest));
    SplitConcat(junk, ';', weight + [';'] + rest);
    SplitConcat(weight, ';', rest);
    SplitSingle(tag, ';');
    SplitSingle(junk, ';');
    SplitSingle(weight, ';');
  }

  /** A part that starts with a tag and does not end in white space is not trimmed. */
  lemma NotTrimmed(tag: string, params: string)
    requires tag != "" && forall c :: c in tag ==> IsTagChar(c)
    requires params != "" && !IsSpace(params[|params| - 1])
    ensures Trim(tag + [';'] + params) == tag + [';'] + params && Trim(tag) == tag
  {
    var part := tag + [';'] + params;
    assert part[0] == tag[0] && tag[0] in tag && tag[|tag| - 1] in tag;
    assert part[|part| - 1] == params[|params| - 1];
  }

  // ---------------------------------------------------------------- a whole header

  /** A tag, perhaps behind white space, with a weight or without one. */
  datatype Choice = Choice(space: string, tag: string, weight: Option<(string, string)>) {
    predicate Valid() {
      && (forall c :: c in space ==> IsSpace(c))
      && tag != "" && (forall c :: c in tag ==> IsTagChar(c))
      && (weight.Some? ==> weight.value.0 != "" && AllDigits(weight.value.0) && AllDigits(weight.value.1))
    }

    function Bare(): string {
      if weight.None? then tag else tag + [';'] + ("q=" + Numeral(weight.value.0, weight.value.1))
    }

    /** 1 where there is none. */
    function Rank(): real
      requires Valid()
    {
      if weight.None? then 1.0 else Decimals(weight.value.0, weight.value.1)
    }
  }

  ghost predicate AllValid(choices: seq<Choice>) { forall c :: c in choices ==> c.Valid() }

  function Parts(choices: seq<Choice>): seq<string> {
    if choices == [] then [] else [choices[0].space + choices[0].Bare()] + Parts(choices[1..])
  }

  function Header(choices: seq<Choice>): string
    requires choices != []
  {
    if |choices| == 1 then choices[0].space + choices[0].Bare()
    else choices[0].space + choices[0].Bare() + [','] + Header(choices[1..])
  }

  lemma BareChars(choice: Choice)
    requires choice.Valid()
    ensures forall c :: c in choice.Bare() ==> c != ',' && !IsSpace(c)
    ensures forall c :: c in choice.space ==> c != ','
    ensures choice.Bare() != ""
  {
  }

  lemma {:induction false} HeaderSplit(choices: seq<Choice>)
    requires choices != [] && AllValid(choices)
    ensures Split(Header(choices), ',') == Parts(choices)
  {
    hide Split;
    var c := choices[0];
    BareChars(c);
    var part := c.space + c.Bare();
    assert ',' !in part;
    SplitSingle(part, ',');
    if |choices| == 1 {
      assert Parts(choices[1..]) == [];
    } else {
      assert AllValid(choices[1..]) by { assert forall x :: x in choices[1..] ==> x in choices; }
      HeaderSplit(choices[1..]);
      SplitConcat(part, ',', Header(choices[1..]));
    }
  }

  lemma PlainEntry(lower: char -> string, tag: string, index: nat)
    requires LowersAscii(lower) && tag != "" && forall c :: c in tag ==> IsTagChar(c)
    ensures Candidate(lower, tag, index) == [Entry(AsciiLowered(tag), 1.0, index)]
  {
    hide LowersAscii, MapCase, Split;
    forall c | c in tag ensures !IsSpace(c) && c != ';' {}
    SplitSingle(tag, ';');
    assert [tag][1..] == [];
    MapCaseAscii(lower, tag);
    LowerAt(tag);
  }

  /** A part of a header is an entry of its weight, whatever white space stands before it. */
  lemma ChoiceEntry(lower: char -> string, choice: Choice, index: nat)
    requires LowersAscii(lower) && choice.Valid()
    ensures Candidate(lower, choice.space + choice.Bare(), index)
         == if choice.Rank() > 0.0 then [Entry(AsciiLowered(choice.tag), choice.Rank(), index)] else []
  {
    hide LowersAscii, MapCase, Split, Trim, Decimals, Weight;
    BareChars(choice);
    var bare := choice.Bare();
    assert bare[0] in bare && bare[|bare| - 1] in bare;
    TrimPadded(choice.space, bare, "");
    TrimPadded("", bare, "");
    assert choice.space + bare + "" == choice.space + bare && "" + bare + "" == bare;
    assert Candidate(lower, choice.space + bare, index) == Candidate(lower, bare, index);
    if choice.weight.None? {
      PlainEntry(lower, choice.tag, index);
    } else {
      WeightedEntry(lower, choice.tag, choice.weight.value.0, choice.weight.value.1, index);
    }
  }

  lemma {:induction false} EntriesBelow(lower: char -> string, choices: seq<Choice>, index: nat, q: real)
    requires LowersAscii(lower) && AllValid(choices) && forall c :: c in choices ==> c.Rank() <= q
    ensures forall e :: e in Candidates(lower, Parts(choices), index) ==> e.q <= q
    ensures (forall c :: c in choices ==> c.Rank() < q) ==>
      forall e :: e in Candidates(lower, Parts(choices), index) ==> e.q < q
  {
    hide LowersAscii, Candidate;
    if choices != [] {
      assert choices[0] in choices && forall c :: c in choices[1..] ==> c in choices;
      EntriesBelow(lower, choices[1..], index + 1, q);
      ChoiceEntry(lower, choices[0], index);
    }
  }

  lemma {:induction false} PartsConcat(a: seq<Choice>, b: seq<Choice>)
    ensures Parts(a + b) == Parts(a) + Parts(b)
  {
    if a == [] {
      assert a + b == b;
    } else {
      assert (a + b)[1..] == a[1..] + b;
      PartsConcat(a[1..], b);
    }
  }

  lemma PartsOne(choice: Choice)
    ensures Parts([choice]) == [choice.space + choice.Bare()]
  {
    assert [choice][1..] == [];
  }

  lemma CandidatesOne(lower: char -> string, part: string, index: nat)
    ensures Candidates(lower, [part], index) == Candidate(lower, part, index)
  {
    hide Candidate;
    assert [part][1..] == [];
  }

  lemma ScanPasses(s: seq<Entry>, e: Entry, t: seq<Entry>)
    requires forall x :: x in s ==> x.q < e.q
    requires forall x :: x in t ==> x.q <= e.q
    ensures Scan(None, s + ([e] + t)) == Some(e)
  {
    ScanConcat(None, s, [e] + t);
    if s != [] { ScanFindsMember(s); }
    var best := Scan(None, s);
    assert ([e] + t)[0] == e && ([e] + t)[1..] == t;
    assert Scan(best, [e] + t) == Scan(Some(e), t);
    ScanIgnores(e, t);
  }

  /** The entry with the greatest weight above 0, the first of them, decides: its language if that is
      known, whatever its region, and English otherwise. */
  lemma GreatestWeightDecides(lower: char -> string, choices: seq<Choice>, k: nat, language: string, region: string)
    requires LowersAscii(lower) && AllValid(choices) && k < |choices|
    requires choices[k].Rank() > 0.0
    requires forall j :: 0 <= j < k ==> choices[j].Rank() < choices[k].Rank()
    requires forall j :: k < j < |choices| ==> choices[j].Rank() <= choices[k].Rank()
    requires choices[k].tag == language + region && '-' !in language && (region == "" || region[0] == '-')
    ensures Negotiate(lower, Some(Header(choices)))
         == if AsciiLowered(language) in LANGS then AsciiLowered(language) else "en"
  {
    hide LowersAscii, AsciiLowered, Scan, Negotiate, Split, Parts, Header, Candidates, Candidate,
      Choice.Rank, Choice.Valid, AllValid;
    var a, c, b := choices[..k], choices[k], choices[k + 1..];
    Around(choices, k);
    HeaderSplit(choices);
    NegotiateScans(lower, Header(choices));
    TopOf(lower, a, c, b);
    Primary(language, region);
  }

  lemma Around(choices: seq<Choice>, k: nat)
    requires AllValid(choices) && k < |choices|
    requires forall j :: 0 <= j < k ==> choices[j].Rank() < choices[k].Rank()
    requires forall j :: k < j < |choices| ==> choices[j].Rank() <= choices[k].Rank()
    ensures var a, c, b := choices[..k], choices[k], choices[k + 1..];
      && choices == a + ([c] + b) && AllValid(a) && c.Valid() && AllValid(b)
      && (forall x :: x in a ==> x.Rank() < c.Rank()) && (forall x :: x in b ==> x.Rank() <= c.Rank())
  {
    hide Choice.Rank, Choice.Valid;
  }

  lemma PartsAround(a: seq<Choice>, c: Choice, b: seq<Choice>)
    ensures Parts(a + ([c] + b)) == Parts(a) + ([c.space + c.Bare()] + Parts(b))
  {
    hide Parts, Choice.Bare;
    PartsConcat(a, [c] + b);
    PartsConcat([c], b);
    PartsOne(c);
  }

  lemma CandidatesAround(lower: char -> string, a: seq<string>, m: seq<string>, b: seq<string>)
    ensures Candidates(lower, a + (m + b), 0)
         == Candidates(lower, a, 0) + (Candidates(lower, m, |a|) + Candidates(lower, b, |a| + |m|))
  {
    hide Candidates;
    CandidatesConcat(lower, a, m + b, 0);
    CandidatesConcat(lower, m, b, |a|);
  }

  lemma TopOf(lower: char -> string, a: seq<Choice>, c: Choice, b: seq<Choice>)
    requires LowersAscii(lower) && c.Valid() && AllValid(a) && AllValid(b) && c.Rank() > 0.0
    requires forall x :: x in a ==> x.Rank() < c.Rank()
    requires forall x :: x in b ==> x.Rank() <= c.Rank()
    ensures var top := Scan(None, Candidates(lower, Parts(a + ([c] + b)), 0));
      top.Some? && top.value.tag == AsciiLowered(c.tag)
  {
    hide LowersAscii, Candidate, Candidates, Scan, Parts, Choice.Rank, Choice.Valid, Choice.Bare;
    var part, i := c.space + c.Bare(), |Parts(a)|;
    PartsAround(a, c, b);
    CandidatesAround(lower, Parts(a), [part], Parts(b));
    CandidatesOne(lower, part, i);
    ChoiceEntry(lower, c, i);
    EntriesBelow(lower, a, 0, c.Rank());
    EntriesBelow(lower, b, i + 1, c.Rank());
    ScanPasses(Candidates(lower, Parts(a), 0), Entry(AsciiLowered(c.tag), c.Rank(), i), Candidates(lower, Parts(b), i + 1));
  }

  lemma Primary(language: string, region: string)
    requires '-' !in language && (region == "" || region[0] == '-')
    ensures Split(AsciiLowered(language + region), '-')[0] == AsciiLowered(language)
  {
    hide Split;
    LowerAt(language);
    LowerAt(region);
    LowerAt(language + region);
    var l, r := AsciiLowered(language), AsciiLowered(region);
    assert AsciiLowered(language + region) == l + r;
    assert '-' !in l by { forall i | 0 <= i < |l| ensures l[i] != '-' { assert language[i] in language; } }
    SplitSingle(l, '-');
    if region == "" {
      assert l + r == l;
    } else {
      assert l + r == l + ['-'] + r[1..];
      SplitConcat(l, '-', r[1..]);
    }
  }

  lemma {:induction false} NoCandidates(lower: char -> string, choices: seq<Choice>, index: nat)
    requires LowersAscii(lower) && AllValid(choices) && forall c :: c in choices ==> c.Rank() <= 0.0
    ensures Candidates(lower, Parts(choices), index) == []
  {
    hide LowersAscii, Candidate;
    if choices != [] {
      assert choices[0] in choices && forall c :: c in choices[1..] ==> c in choices;
      NoCandidates(lower, choices[1..], index + 1);
      ChoiceEntry(lower, choices[0], index);
    }
  }

  /** Where no entry has a weight above 0 it is English. */
  lemma NoWeightAtAll(lower: char -> string, choices: seq<Choice>)
    requires LowersAscii(lower) && AllValid(choices) && choices != [] && forall c :: c in choices ==> c.Rank() <= 0.0
    ensures Negotiate(lower, Some(Header(choices))) == Negotiate(lower, Some("")) == Negotiate(lower, None) == "en"
  {
    hide LowersAscii, Candidate, Candidates, Negotiate, Split, Parts, Header, Choice.Rank, Choice.Valid;
    HeaderSplit(choices);
    NegotiateScans(lower, Header(choices));
    NoCandidates(lower, choices, 0);
    NothingAsked(lower);
  }

  lemma NothingAsked(lower: char -> string)
    ensures Negotiate(lower, Some("")) == Negotiate(lower, None) == "en"
  {
  }
}
