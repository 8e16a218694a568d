/** `Array.prototype.sort` with a consistent comparator: it is stable, so each element's place is
    known in advance. */
module StableSort {

  /** `before(a, b)`: the comparator is negative for (a, b). */
  ghost predicate StrictWeak<T(!new)>(before: (T, T) -> bool) {
    && (forall a, b :: before(a, b) ==> !before(b, a))
    && (forall a, b, c :: before(a, c) ==> before(a, b) || before(b, c))
  }

  function Insert<T>(before: (T, T) -> bool, x: T, s: seq<T>): (r: seq<T>)
    ensures |r| == |s| + 1
    ensures multiset(r) == multiset{x} + multiset(s)
  {
    if s == [] || !before(s[0], x) then [x] + s
    else
      assert s == [s[0]] + s[1..];
      [s[0]] + Insert(before, x, s[1..])
  }

  function Sort<T>(before: (T, T) -> bool, s: seq<T>): (r: seq<T>)
    ensures |r| == |s|
    ensures multiset(r) == multiset(s)
  {
    if s == [] then []
    else
      assert s == [s[0]] + s[1..];
      Insert(before, s[0], Sort(before, s[1..]))
  }

  ghost predicate Sorted<T>(before: (T, T) -> bool, s: seq<T>) {
    forall i, j :: 0 <= i < j < |s| ==> !before(s[j], s[i])
  }

  /** Elements strictly before x. */
  function CountBefore<T>(before: (T, T) -> bool, x: T, s: seq<T>): (n: nat)
    ensures n <= |s|
  {
    if s == [] then 0 else (if before(s[0], x) then 1 else 0) + CountBefore(before, x, s[1..])
  }

  /** Elements x is not strictly before. */
  function CountNotAfter<T>(before: (T, T) -> bool, x: T, s: seq<T>): (n: nat)
    ensures n <= |s|
  {
    if s == [] then 0 else (if before(x, s[0]) then 0 else 1) + CountNotAfter(before, x, s[1..])
  }

  /** The place of s[i]: after the earlier elements that do not follow it and the later ones that
      precede it. */
  function Rank<T>(before: (T, T) -> bool, s: seq<T>, i: nat): (n: nat)
    requires i < |s|
    ensures n < |s|
  {
    CountNotAfter(before, s[i], s[..i]) + CountBefore(before, s[i], s[i + 1..])
  }

  /** The elements before x are the first k. */
  ghost predicate Leads<T>(before: (T, T) -> bool, x: T, s: seq<T>, k: nat) {
    k <= |s| && forall p :: 0 <= p < |s| ==> (p < k <==> before(s[p], x))
  }

  lemma LeadsOne<T>(before: (T, T) -> bool, x: T, s: seq<T>, k: nat)
    requires s != [] && before(s[0], x) && Leads(before, x, s[1..], k)
    ensures Leads(before, x, s, k + 1)
  {
    forall p | 0 <= p < |s| ensures p < k + 1 <==> before(s[p], x) {
      assert p > 0 ==> s[p] == s[1..][p - 1];
    }
  }

  lemma LeadsNone<T(!new)>(before: (T, T) -> bool, x: T, s: seq<T>)
    requires StrictWeak(before) && Sorted(before, s) && (s != [] ==> !before(s[0], x))
    ensures Leads(before, x, s, 0)
  {
    forall p | 0 <= p < |s| ensures !before(s[p], x) {}
  }

  lemma SpliceOne<T>(x: T, s: seq<T>, k: nat)
    requires k < |s|
    ensures [s[0]] + (s[1..][..k] + [x] + s[1..][k..]) == s[..k + 1] + [x] + s[k + 1..]
  {
  }

  /** In a sorted sequence the elements before x come first, and x goes right behind them. */
  lemma {:induction false} InsertPlace<T(!new)>(before: (T, T) -> bool, x: T, s: seq<T>)
    requires StrictWeak(before) && Sorted(before, s)
    ensures var k := CountBefore(before, x, s);
      Insert(before, x, s) == s[..k] + [x] + s[k..] && Leads(before, x, s, k)
  {
    hide StrictWeak, Leads;
    if s != [] && before(s[0], x) {
      InsertPlace(before, x, s[1..]);
      var k := CountBefore(before, x, s[1..]);
      LeadsOne(before, x, s, k);
      SpliceOne(x, s, k);
    } else {
      LeadsNone(before, x, s);
      NoneBefore(before, x, s);
      assert s[..0] == [] && s[0..] == s;
    }
  }

  lemma {:induction false} NoneBefore<T>(before: (T, T) -> bool, x: T, s: seq<T>)
    requires Leads(before, x, s, 0)
    ensures CountBefore(before, x, s) == 0
  {
    if s != [] { NoneBefore(before, x, s[1..]); }
  }

  lemma {:induction false} SortSorted<T(!new)>(before: (T, T) -> bool, s: seq<T>)
    requires StrictWeak(before)
    ensures Sorted(before, Sort(before, s))
  {
    if s != [] {
      SortSorted(before, s[1..]);
      InsertSorted(before, s[0], Sort(before, s[1..]));
    }
  }

  lemma InsertSorted<T(!new)>(before: (T, T) -> bool, x: T, s: seq<T>)
    requires StrictWeak(before) && Sorted(before, s)
    ensures Sorted(before, Insert(before, x, s))
  {
    hide Insert, CountBefore;
    InsertPlace(before, x, s);
  }

  lemma {:induction false} CountInserted<T>(before: (T, T) -> bool, x: T, y: T, s: seq<T>)
    ensures CountBefore(before, x, Insert(before, y, s)) == CountBefore(before, x, [y] + s)
  {
    assert ([y] + s)[1..] == s;
    if s != [] && before(s[0], y) {
      CountInserted(before, x, y, s[1..]);
      assert ([y] + s[1..])[1..] == s[1..];
    }
  }

  lemma {:induction false} CountSorted<T>(before: (T, T) -> bool, x: T, s: seq<T>)
    ensures CountBefore(before, x, Sort(before, s)) == CountBefore(before, x, s)
  {
    if s != [] {
      CountSorted(before, x, s[1..]);
      var t := Sort(before, s[1..]);
      CountInserted(before, x, s[0], t);
      assert ([s[0]] + t)[1..] == t;
    }
  }

  lemma RankBehindHead<T>(before: (T, T) -> bool, s: seq<T>, i: nat)
    requires 0 < i < |s|
    ensures Rank(before, s, i) == Rank(before, s[1..], i - 1) + (if before(s[i], s[0]) then 0 else 1)
  {
    var t := s[1..];
    assert s[..i][1..] == t[..i - 1] && s[i + 1..] == t[i..];
    assert s[..i][0] == s[0] && s[i] == t[i - 1];
  }

  /** Where sorting puts the head: behind the elements before it. */
  lemma HeadPlaced<T(!new)>(before: (T, T) -> bool, s: seq<T>)
    requires StrictWeak(before) && s != []
    ensures var r, k := Sort(before, s[1..]), Rank(before, s, 0);
      k <= |r| && Sort(before, s) == r[..k] + [s[0]] + r[k..] && Leads(before, s[0], r, k)
  {
    hide StrictWeak, Leads;
    var r := Sort(before, s[1..]);
    SortSorted(before, s[1..]);
    InsertPlace(before, s[0], r);
    CountSorted(before, s[0], s[1..]);
    assert s[..0] == [];
  }

  /** Every element lands at its rank. */
  lemma {:induction false} SortedByRank<T(!new)>(before: (T, T) -> bool, s: seq<T>, i: nat)
    requires StrictWeak(before) && i < |s|
    ensures Sort(before, s)[Rank(before, s, i)] == s[i]
  {
    hide Rank, Sort, StrictWeak;
    var r, k := Sort(before, s[1..]), Rank(before, s, 0);
    HeadPlaced(before, s);
    if i == 0 {
      MovedPast(r, s[0], k, |r|);
    } else {
      SortedByRank(before, s[1..], i - 1);
      RankBehindHead(before, s, i);
      MovedPast(r, s[0], k, Rank(before, s[1..], i - 1));
    }
  }

  lemma MovedPast<T>(r: seq<T>, x: T, k: nat, p: nat)
    requires k <= |r|
    ensures (r[..k] + [x] + r[k..])[k] == x
    ensures p < |r| ==> (r[..k] + [x] + r[k..])[if p < k then p else p + 1] == r[p]
  {
  }

  // ---------------------------------------------------------------- sequences without repetition

  ghost predicate Distinct<T>(s: seq<T>) { forall i, j :: 0 <= i < j < |s| ==> s[i] != s[j] }

  ghost predicate Once<T(!new)>(s: seq<T>) { forall x: T :: multiset(s)[x] <= 1 }

  lemma {:induction false} DistinctCounts<T>(s: seq<T>, x: T)
    requires Distinct(s)
    ensures multiset(s)[x] <= 1
  {
    if s != [] {
      assert s == [s[0]] + s[1..];
      DistinctCounts(s[1..], x);
      assert s[0] !in s[1..];
    }
  }

  /** Two places of the same multiset hold different elements. */
  lemma OnceEach<T(!new)>(s: seq<T>, i: nat, j: nat)
    requires Once(s)
    requires i < j < |s|
    ensures s[i] != s[j]
  {
    assert s == s[..j] + s[j..];
    assert s[i] in s[..j] && s[j] in s[j..];
    assert multiset(s)[s[j]] == multiset(s[..j])[s[j]] + multiset(s[j..])[s[j]];
  }

  lemma SortDistinct<T(!new)>(before: (T, T) -> bool, s: seq<T>)
    requires Distinct(s)
    ensures Once(Sort(before, s)) && Distinct(Sort(before, s))
  {
    hide Sort;
    forall x ensures multiset(Sort(before, s))[x] <= 1 { DistinctCounts(s, x); }
    var r := Sort(before, s);
    forall i, j | 0 <= i < j < |r| ensures r[i] != r[j] { OnceEach(r, i, j); }
  }

  lemma SameElements<T(!new)>(a: seq<T>, b: seq<T>)
    requires multiset(a) == multiset(b)
    ensures forall x :: x in a <==> x in b
  {
    forall x ensures x in a <==> x in b {
      assert x in a <==> x in multiset(a);
    }
  }

  /** Where only equal elements tie, sorting forgets the order it was given. */
  lemma {:induction false} SortedUnique<T(!new)>(before: (T, T) -> bool, a: seq<T>, b: seq<T>)
    requires forall x, y :: !before(x, y) && !before(y, x) ==> x == y
    requires Sorted(before, a) && Sorted(before, b) && multiset(a) == multiset(b)
    ensures a == b
  {
    assert |a| == |multiset(a)| && |b| == |multiset(b)|;
    if a != [] {
      SameElements(a, b);
      NotBelowHead(before, a, b[0]);
      NotBelowHead(before, b, a[0]);
      TailsMatch(a, b);
      SortedUnique(before, a[1..], b[1..]);
      assert a == [a[0]] + a[1..] && b == [b[0]] + b[1..];
    }
  }

  lemma NotBelowHead<T(!new)>(before: (T, T) -> bool, s: seq<T>, x: T)
    requires Sorted(before, s) && x in s
    ensures s[0] == x || !before(x, s[0])
  {
    var i :| 0 <= i < |s| && s[i] == x;
  }

  lemma TailsMatch<T(!new)>(a: seq<T>, b: seq<T>)
    requires a != [] && b != [] && a[0] == b[0] && multiset(a) == multiset(b)
    ensures multiset(a[1..]) == multiset(b[1..])
  {
    assert a == [a[0]] + a[1..] && b == [b[0]] + b[1..];
    assert multiset(a[1..]) == multiset(a) - multiset{a[0]};
    assert multiset(b[1..]) == multiset(b) - multiset{b[0]};
  }
}
