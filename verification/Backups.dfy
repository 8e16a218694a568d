/** src/db.ts: the copies `backupBeforeMigrating` leaves beside the database. A directory is the set
    of its file names; `readdirSync` may list them in any order. */
module Backups {
  import opened Text
  import StableSort

  const KEEP_MIGRATION_BACKUPS: nat := 5

  // ---------------------------------------------------------------- stamps

  /** A clock reading in the years an ISO string writes with four digits. */
  datatype Reading = Reading(year: nat, month: nat, day: nat, hour: nat, minute: nat, second: nat, milli: nat) {
    predicate Valid() {
      year < 10000 && month < 100 && day < 100 && hour < 100 && minute < 100 && second < 100 && milli < 1000
    }

    /** The reading to the second, as one number that grows with time. */
    function Moment(): nat { 1000000 * (10000 * year + 100 * month + day) + 10000 * hour + 100 * minute + second }
  }

  function Fixed(width: nat, n: nat): (s: string)
    ensures |s| == width && AllDigits(s)
  {
    if width == 0 then "" else Fixed(width - 1, n / 10) + [DigitChar(n % 10)]
  }

  /** `toISOString` */
  function Iso(t: Reading): string {
    Fixed(4, t.year) + "-" + Fixed(2, t.month) + "-" + Fixed(2, t.day) + "T" +
    (Fixed(2, t.hour) + ":" + Fixed(2, t.minute) + ":" + Fixed(2, t.second) + "." + Fixed(3, t.milli) + "Z")
  }

  /** `/\.\d+Z$/` at the start of s. */
  predicate IsFraction(s: string) {
    |s| >= 3 && s[0] == '.' && AllDigits(s[1..|s| - 1]) && s[|s| - 1] == 'Z'
  }

  function DropFraction(s: string): string {
    if IsFraction(s) then "Z" else if s == [] then [] else [s[0]] + DropFraction(s[1..])
  }

  predicate IsDashOrColon(c: char) { c == '-' || c == ':' }

  function StampFrom(iso: string): string { DropFraction(Without(IsDashOrColon, iso)) }

  /** `\d{8}T\d{6}Z` */
  predicate IsStamp(s: string) {
    |s| == 16 && AllDigits(s[..8]) && s[8] == 'T' && AllDigits(s[9..15]) && s[15] == 'Z'
  }

  function StampNumber(s: string): nat
    requires IsStamp(s)
  {
    1000000 * NumberOf(s[..8]) + NumberOf(s[9..15])
  }

  // ---------------------------------------------------------------- file names

  const PREFIX := "before-"
  const SUFFIX := ".sqlite"

  predicate IsLineBreak(c: char) { c == '\n' || c == '\r' || c == '\U{2028}' || c == '\U{2029}' }

  /** `/^before-.*\.sqlite$/` */
  predicate IsBackup(file: string) {
    && |file| >= 14 && file[..7] == PREFIX && file[|file| - 7..] == SUFFIX
    && forall c :: c in file[7..|file| - 7] ==> !IsLineBreak(c)
  }

  function StampOf(file: string): (s: string)
  {
    if |file| >= 24 && file[|file| - 7..] == SUFFIX && file[|file| - 24] == '-' && IsStamp(file[|file| - 23..|file| - 7])
    then file[|file| - 23..|file| - 7] else ""
  }

  /** `name.replace(/\.sql$/, '')` */
  function WithoutSql(name: string): string {
    if |name| >= 4 && name[|name| - 4..] == ".sql" then name[..|name| - 4] else name
  }

  function Target(firstPending: string, stamp: string): string {
    PREFIX + WithoutSql(firstPending) + "-" + stamp + SUFFIX
  }

  /** When a copy was made; unstamped names are older than any. */
  function MadeAt(file: string): int {
    if StampOf(file) == "" then -1 else StampNumber(StampOf(file))
  }

  // ---------------------------------------------------------------- retention

  /** `stampOf(b).localeCompare(stampOf(a))` is negative. The strings compared are stamps or empty,
      where collation is the order of the characters. */
  predicate Newer(a: string, b: string) { Below(StampOf(b), StampOf(a)) }

  function BackupsIn(listing: seq<string>): (r: seq<string>)
    ensures forall f :: f in r <==> f in listing && IsBackup(f)
  {
    if listing == [] then []
    else (if IsBackup(listing[0]) then [listing[0]] else []) + BackupsIn(listing[1..])
  }

  function Ranked(listing: seq<string>): seq<string> { StableSort.Sort(Newer, BackupsIn(listing)) }

  function Doomed(listing: seq<string>): seq<string> {
    if |Ranked(listing)| <= KEEP_MIGRATION_BACKUPS then [] else Ranked(listing)[KEEP_MIGRATION_BACKUPS..]
  }

  ghost predicate IsListing(listing: seq<string>, files: set<string>) {
    StableSort.Distinct(listing) && forall f :: f in listing <==> f in files
  }

  function Pruned(files: set<string>, listing: seq<string>): set<string> {
    set f | f in files && f !in Doomed(listing)
  }

  /** How it goes: the directory or VACUUM INTO throws, perhaps leaving part of a file; the mode, the
      check or the listing throws; one of the deletions does; or none of these. */
  datatype Copying = Failed(partial: bool) | Unusable | DeletionFails(after: nat) | Sound

  /** How many of the doomed files are deleted. */
  function Deletions(doomed: nat, copying: Copying): (k: nat) {
    if copying.DeletionFails? && copying.after < doomed then copying.after else doomed
  }

  class BackupDirectory {
    var files: set<string>

    constructor ()
      ensures files == {}
    {
      files := {};
    }

    /** `listing` is what `readdirSync` answers if it is reached. */
    method BackupBeforeMigrating(firstPending: string, iso: string, copying: Copying, listing: seq<string>)
      returns (r: Result<string>)
      requires IsListing(listing, files + {Target(firstPending, StampFrom(iso))})
      modifies this
      ensures var target := Target(firstPending, StampFrom(iso));
        var doomed := Doomed(listing);
        var k := Deletions(|doomed|, copying);
        if copying.Failed? then r.Err? && files == old(files) + if copying.partial then {target} else {}
        else if target in old(files) then r.Err? && files == old(files)
        else if copying.Unusable? then r.Err? && files == old(files) + {target}
        else
          && r == (if k < |doomed| then Err("file could not be deleted") else Ok(target))
          && files == set f | f in old(files) + {target} && f !in doomed[..k]
    {
      hide Target, StampFrom, Doomed;
      var target := Target(firstPending, StampFrom(iso));
      if copying.Failed? {
        if copying.partial { files := files + {target}; }
        return Err("VACUUM INTO failed");
      }
      if target in files { return Err("output file already exists"); }
      files := files + {target};
      if copying.Unusable? { return Err("backup failed its integrity check"); }
      var doomed := Doomed(listing);
      ghost var before := files;
      for i := 0 to |doomed|
        invariant files == set f | f in before && f !in doomed[..i]
        invariant copying.DeletionFails? ==> i <= copying.after
      {
        if copying.DeletionFails? && i == copying.after { return Err("file could not be deleted"); }
        files := files - {doomed[i]};
        assert doomed[..i + 1] == doomed[..i] + [doomed[i]];
      }
      r := Ok(target);
    }
  }

  /** With every deletion made, what is left is Pruned; with fewer, at least that. */
  lemma DeletedSome(files: set<string>, listing: seq<string>, k: nat)
    requires k <= |Doomed(listing)|
    ensures var left := set f | f in files && f !in Doomed(listing)[..k];
      Pruned(files, listing) <= left <= files && (k == |Doomed(listing)| ==> left == Pruned(files, listing))
  {
    hide Doomed;
    var doomed := Doomed(listing);
    assert doomed[..|doomed|] == doomed;
    assert forall f :: f in doomed[..k] ==> f in doomed;
  }

  // ---------------------------------------------------------------- stamp order is time order

  lemma {:induction false} NumberBound(s: string)
    requires AllDigits(s)
    ensures NumberOf(s) < Pow10(|s|)
  {
    if s != [] {
      assert s[|s| - 1] in s;
      NumberBound(s[..|s| - 1]);
    }
  }

  lemma NumberOfHead(s: string)
    requires AllDigits(s) && s != []
    ensures IsDigit(s[0]) && AllDigits(s[1..])
    ensures NumberOf(s) == DigitValue(s[0]) * Pow10(|s| - 1) + NumberOf(s[1..])
  {
    hide NumberOf;
    assert s[0] in s;
    assert s == [s[0]] + s[1..];
    NumberOfConcat([s[0]], s[1..]);
    NumberOfOne(s[0]);
  }

  /** Equally long numerals are ordered as their numbers. */
  lemma {:induction false} BelowNumerals(a: string, b: string, x: string, y: string)
    requires |a| == |b| && AllDigits(a) && AllDigits(b)
    ensures Below(a + x, b + y) <==> NumberOf(a) < NumberOf(b) || (a == b && Below(x, y))
    ensures NumberOf(a) == NumberOf(b) ==> a == b
    decreases |a|
  {
    hide NumberOf, Pow10;
    if a == [] {
      NumberOfOne('0');
      assert a + x == x && b + y == y;
    } else {
      NumberOfHead(a);
      NumberOfHead(b);
      NumberBound(a[1..]);
      NumberBound(b[1..]);
      BelowNumerals(a[1..], b[1..], x, y);
      assert (a + x)[1..] == a[1..] + x && (b + y)[1..] == b[1..] + y;
      HeadDecides(DigitValue(a[0]), DigitValue(b[0]), Pow10(|a| - 1), NumberOf(a[1..]), NumberOf(b[1..]));
      assert a == [a[0]] + a[1..] && b == [b[0]] + b[1..];
    }
  }

  lemma HeadDecides(d: nat, e: nat, p: nat, x: nat, y: nat)
    requires x < p && y < p
    ensures d < e ==> d * p + x < e * p + y
    ensures d > e ==> d * p + x > e * p + y
  {
    if d < e { NextMultiple(d, e, p); } else if d > e { NextMultiple(e, d, p); }
  }

  lemma {:induction false} NextMultiple(d: nat, e: nat, p: nat)
    requires d < e
    ensures d * p + p <= e * p
  {
    assert e * p == (e - 1) * p + p;
    if d < e - 1 { NextMultiple(d, e - 1, p); }
  }

  /** Comparing two stamps as text compares the moments they name. */
  lemma StampOrder(a: string, b: string)
    requires IsStamp(a) && IsStamp(b)
    ensures Below(a, b) <==> StampNumber(a) < StampNumber(b)
  {
    var x, y := a[9..15], b[9..15];
    assert a == a[..8] + (['T'] + (x + ['Z'])) && b == b[..8] + (['T'] + (y + ['Z']));
    BelowNumerals(a[..8], b[..8], ['T'] + (x + ['Z']), ['T'] + (y + ['Z']));
    assert (['T'] + (x + ['Z']))[1..] == x + ['Z'] && (['T'] + (y + ['Z']))[1..] == y + ['Z'];
    BelowNumerals(x, y, ['Z'], ['Z']);
    NumberBound(x);
    NumberBound(y);
    assert Pow10(6) == 1000000;
  }

  lemma NewerIsLater(a: string, b: string)
    ensures Newer(a, b) <==> MadeAt(a) > MadeAt(b)
  {
    if StampOf(a) != "" && StampOf(b) != "" { StampOrder(StampOf(b), StampOf(a)); }
  }

  lemma NewerIsOrder()
    ensures StableSort.StrictWeak(Newer)
  {
    hide Newer, MadeAt;
    forall a, b | Newer(a, b) ensures !Newer(b, a) {
      NewerIsLater(a, b);
      NewerIsLater(b, a);
    }
    forall a, b, c | Newer(a, c) ensures Newer(a, b) || Newer(b, c) {
      NewerIsLater(a, b);
      NewerIsLater(b, c);
      NewerIsLater(a, c);
    }
  }

  // ---------------------------------------------------------------- what a clock reading becomes

  lemma {:induction false} FixedNumber(width: nat, n: nat)
    requires n < Pow10(width)
    ensures NumberOf(Fixed(width, n)) == n
  {
    if width > 0 {
      FixedNumber(width - 1, n / 10);
      assert Fixed(width, n)[..width - 1] == Fixed(width - 1, n / 10);
    }
  }

  lemma DigitsKept(d: string, rest: string)
    requires AllDigits(d)
    ensures Without(IsDashOrColon, d + rest) == d + Without(IsDashOrColon, rest)
  {
    WithoutNothing(IsDashOrColon, d);
    WithoutConcat(IsDashOrColon, d, rest);
  }

  lemma Dropped(c: char, rest: string)
    ensures Without(IsDashOrColon, [c] + rest)
         == if IsDashOrColon(c) then Without(IsDashOrColon, rest) else [c] + Without(IsDashOrColon, rest)
  {
    assert ([c] + rest)[1..] == rest;
  }

  lemma CompactedFraction(f: string)
    requires AllDigits(f)
    ensures Without(IsDashOrColon, ['.'] + (f + ['Z'])) == ['.'] + (f + ['Z'])
  {
    assert !IsDashOrColon('.') && !IsDashOrColon('Z');
    Dropped('Z', "");
    Nothing();
    Piece(f, '.', ['Z']);
  }

  lemma CompactedClock(h: string, mi: string, sec: string, f: string)
    requires AllDigits(h) && AllDigits(mi) && AllDigits(sec) && AllDigits(f)
    ensures Without(IsDashOrColon, ['T'] + (h + ([':'] + (mi + ([':'] + (sec + (['.'] + (f + ['Z']))))))))
         == ['T'] + (h + (mi + (sec + (['.'] + (f + ['Z'])))))
  {
    hide Without, AllDigits;
    assert IsDashOrColon(':') && !IsDashOrColon('T');
    hide IsDashOrColon;
    var v := ['.'] + (f + ['Z']);
    CompactedFraction(f);
    Piece(sec, ':', v);
    Piece(mi, ':', [':'] + (sec + v));
    Piece(h, 'T', [':'] + (mi + ([':'] + (sec + v))));
  }

  lemma CompactedDate(y: string, mo: string, d: string, rest: string)
    requires AllDigits(y) && AllDigits(mo) && AllDigits(d)
    ensures Without(IsDashOrColon, y + (['-'] + (mo + (['-'] + (d + rest)))))
         == y + (mo + (d + Without(IsDashOrColon, rest)))
  {
    hide Without, AllDigits;
    assert IsDashOrColon('-');
    hide IsDashOrColon;
    Piece(d, '-', rest);
    Piece(mo, '-', ['-'] + (d + rest));
    DigitsKept(y, ['-'] + (mo + (['-'] + (d + rest))));
  }

  lemma Piece(d: string, c: char, rest: string)
    requires AllDigits(d)
    ensures Without(IsDashOrColon, [c] + (d + rest))
         == (if IsDashOrColon(c) then d + Without(IsDashOrColon, rest) else [c] + (d + Without(IsDashOrColon, rest)))
  {
    hide Without, AllDigits;
    Dropped(c, d + rest);
    DigitsKept(d, rest);
  }

  lemma Nothing()
    ensures Without(IsDashOrColon, "") == "" && ['Z'] + "" == ['Z']
  {
  }

  lemma {:induction false} FractionDropped(s: string, d: string)
    requires '.' !in s && AllDigits(d) && d != []
    ensures DropFraction(s + (['.'] + (d + ['Z']))) == s + ['Z']
  {
    var whole := s + (['.'] + (d + ['Z']));
    if s == [] {
      assert whole[1..|whole| - 1] == d;
    } else {
      assert s[0] in s;
      assert whole[0] == s[0] && whole[1..] == s[1..] + (['.'] + (d + ['Z']));
      FractionDropped(s[1..], d);
    }
  }

  /** The stamp is the ISO string without hyphens, colons and the fraction. */
  lemma StampCompacts(y: string, mo: string, d: string, h: string, mi: string, sec: string, f: string)
    requires AllDigits(y) && AllDigits(mo) && AllDigits(d) && AllDigits(h) && AllDigits(mi) && AllDigits(sec) && AllDigits(f)
    requires f != ""
    ensures StampFrom(y + "-" + mo + "-" + d + "T" + h + ":" + mi + ":" + sec + "." + f + "Z")
         == y + mo + d + "T" + h + mi + sec + "Z"
  {
    hide Without, DropFraction;
    var v := ['T'] + (h + ([':'] + (mi + ([':'] + (sec + (['.'] + (f + ['Z'])))))));
    CompactedDate(y, mo, d, v);
    CompactedClock(h, mi, sec, f);
    assert y + "-" + mo + "-" + d + "T" + h + ":" + mi + ":" + sec + "." + f + "Z"
        == y + (['-'] + (mo + (['-'] + (d + v))));
    var s := y + mo + d + "T" + h + mi + sec;
    assert y + (mo + (d + (['T'] + (h + (mi + (sec + (['.'] + (f + ['Z'])))))))) == s + (['.'] + (f + ['Z']));
    FractionDropped(s, f);
    assert s + ['Z'] == y + mo + d + "T" + h + mi + sec + "Z";
  }

  function Date(t: Reading): string { Fixed(4, t.year) + (Fixed(2, t.month) + Fixed(2, t.day)) }

  function Clock(t: Reading): string { Fixed(2, t.hour) + (Fixed(2, t.minute) + Fixed(2, t.second)) }

  lemma StampSpelled(t: Reading)
    ensures StampFrom(Iso(t)) == Date(t) + (['T'] + (Clock(t) + ['Z']))
  {
    hide Fixed, StampFrom;
    var y, mo, d, h := Fixed(4, t.year), Fixed(2, t.month), Fixed(2, t.day), Fixed(2, t.hour);
    var mi, sec, f := Fixed(2, t.minute), Fixed(2, t.second), Fixed(3, t.milli);
    StampCompacts(y, mo, d, h, mi, sec, f);
    assert Iso(t) == y + "-" + mo + "-" + d + "T" + h + ":" + mi + ":" + sec + "." + f + "Z";
  }

  lemma PartsNumber(a: nat, b: nat, c: nat, width: nat)
    requires a < Pow10(width) && b < 100 && c < 100
    ensures NumberOf(Fixed(width, a) + (Fixed(2, b) + Fixed(2, c))) == 10000 * a + 100 * b + c
  {
    hide Fixed, NumberOf;
    assert Pow10(2) == 100;
    assert Pow10(4) == 10000;
    FixedNumber(width, a);
    FixedNumber(2, b);
    FixedNumber(2, c);
    NumberOfConcat(Fixed(2, b), Fixed(2, c));
    NumberOfConcat(Fixed(width, a), Fixed(2, b) + Fixed(2, c));
  }

  /** The stamp made from a clock reading is a stamp, and the moment it names is the reading's. */
  lemma StampMoment(t: Reading)
    requires t.Valid()
    ensures IsStamp(StampFrom(Iso(t))) && StampNumber(StampFrom(Iso(t))) == t.Moment()
  {
    hide StampFrom, Iso, NumberOf, Fixed;
    StampSpelled(t);
    var s := StampFrom(Iso(t));
    assert s[..8] == Date(t) && s[9..15] == Clock(t);
    PartsNumber(t.year, t.month, t.day, 4);
    PartsNumber(t.hour, t.minute, t.second, 2);
  }

  /** A copy's own name gives its stamp back. */
  lemma TargetStamped(firstPending: string, stamp: string)
    requires IsStamp(stamp)
    ensures StampOf(Target(firstPending, stamp)) == stamp
    ensures (forall c :: c in firstPending ==> !IsLineBreak(c)) ==> IsBackup(Target(firstPending, stamp))
  {
    hide IsStamp, IsLineBreak;
    StampPlain(stamp);
    var name := WithoutSql(firstPending);
    var f := Target(firstPending, stamp);
    assert f[|f| - 7..] == SUFFIX && f[|f| - 23..|f| - 7] == stamp && f[|f| - 24] == '-';
    assert f[..7] == PREFIX;
    var middle := f[7..|f| - 7];
    assert middle == name + "-" + stamp;
    if forall c :: c in firstPending ==> !IsLineBreak(c) {
      assert forall c :: c in name ==> c in firstPending;
      assert forall c :: c in middle ==> c in name || c in ['-'] + stamp;
    }
  }

  /** The copy is named after the migration without its `.sql`, and the stamp. */
  lemma TargetSpelled(name: string, stamp: string)
    ensures Target(name + ".sql", stamp) == "before-" + name + "-" + stamp + ".sqlite"
    ensures !(".sql" <= name[if |name| < 4 then 0 else |name| - 4..]) ==>
      Target(name, stamp) == "before-" + name + "-" + stamp + ".sqlite"
  {
    assert (name + ".sql")[..|name|] == name;
  }

  /** Which files count as backups. */
  lemma BackupExactly(file: string)
    ensures IsBackup(file) <==>
      exists middle: string :: file == "before-" + middle + ".sqlite" &&
        forall c :: c in middle ==> c != '\n' && c != '\r' && c != '\U{2028}' && c != '\U{2029}'
  {
    if IsBackup(file) {
      var middle := file[7..|file| - 7];
      assert file == "before-" + middle + ".sqlite";
      assert forall c :: c in middle ==> !IsLineBreak(c);
    }
    forall middle: string | file == "before-" + middle + ".sqlite"
      ensures |file| >= 14 && file[7..|file| - 7] == middle && file[..7] == PREFIX && file[|file| - 7..] == SUFFIX
    {
    }
  }

  /** The stamp read from a file's name is the one behind its last hyphen. */
  lemma StampExactly(file: string, stamp: string)
    requires stamp != ""
    ensures StampOf(file) == stamp <==> IsStamp(stamp) && exists front: string :: file == front + "-" + stamp + ".sqlite"
  {
    hide IsStamp;
    if StampOf(file) == stamp {
      assert file == file[..|file| - 24] + "-" + stamp + ".sqlite";
    }
    if IsStamp(stamp) {
      StampPlain(stamp);
      forall front: string | file == front + "-" + stamp + ".sqlite" ensures StampOf(file) == stamp {
        assert file[|file| - 7..] == SUFFIX && file[|file| - 23..|file| - 7] == stamp && file[|file| - 24] == '-';
      }
    }
  }

  lemma StampPlain(stamp: string)
    requires IsStamp(stamp)
    ensures |stamp| == 16 && forall c :: c in ['-'] + stamp ==> !IsLineBreak(c)
  {
    assert stamp == stamp[..8] + [stamp[8]] + stamp[9..15] + [stamp[15]];
  }

  // ---------------------------------------------------------------- what stays

  lemma {:induction false} BackupsDistinct(listing: seq<string>)
    requires StableSort.Distinct(listing)
    ensures StableSort.Distinct(BackupsIn(listing))
  {
    if listing != [] {
      BackupsDistinct(listing[1..]);
      var rest := BackupsIn(listing[1..]);
      forall j | 0 <= j < |rest| ensures rest[j] != listing[0] {
        assert rest[j] in rest;
        assert rest[j] in listing[1..];
      }
    }
  }

  lemma TailHas(s: seq<string>, k: nat, n: nat)
    requires StableSort.Once(s)
    requires k < |s| && n < |s|
    ensures s[k] in s[n..] <==> k >= n
  {
    if k >= n {
      assert s[n..][k - n] == s[k];
    } else {
      forall j | 0 <= j < |s[n..]| ensures s[n..][j] != s[k] { StableSort.OnceEach(s, k, n + j); }
    }
  }

  function NewerIn(s: seq<string>, f: string): set<string> { set g | g in s && MadeAt(g) > MadeAt(f) }

  function AsNewIn(s: seq<string>, f: string): set<string> { set g | g in s && MadeAt(g) >= MadeAt(f) }

  lemma HeadOnce(s: seq<string>)
    requires s != [] && StableSort.Distinct(s)
    ensures s[0] !in s[1..] && forall g :: g in s <==> g == s[0] || g in s[1..]
  {
  }

  lemma HeadCounted(s: seq<string>, f: string)
    requires s != [] && StableSort.Distinct(s)
    ensures |NewerIn(s, f)| == |NewerIn(s[1..], f)| + if MadeAt(s[0]) > MadeAt(f) then 1 else 0
    ensures |AsNewIn(s, f)| == |AsNewIn(s[1..], f)| + if MadeAt(s[0]) >= MadeAt(f) then 1 else 0
  {
    hide MadeAt, StableSort.Distinct;
    HeadOnce(s);
    assert NewerIn(s, f) == NewerIn(s[1..], f) + if MadeAt(s[0]) > MadeAt(f) then {s[0]} else {};
    assert AsNewIn(s, f) == AsNewIn(s[1..], f) + if MadeAt(s[0]) >= MadeAt(f) then {s[0]} else {};
  }

  lemma {:induction false} CountsNewer(s: seq<string>, f: string)
    requires StableSort.Distinct(s)
    ensures StableSort.CountBefore(Newer, f, s) == |NewerIn(s, f)|
    ensures StableSort.CountNotAfter(Newer, f, s) == |AsNewIn(s, f)|
  {
    hide MadeAt, Newer;
    if s == [] {
      assert NewerIn(s, f) == {} && AsNewIn(s, f) == {};
    } else {
      hide NewerIn, AsNewIn;
      CountsNewer(s[1..], f);
      HeadCounted(s, f);
      NewerIsLater(s[0], f);
      NewerIsLater(f, s[0]);
    }
  }

  lemma RankCounts(m: seq<string>, i: nat)
    requires StableSort.Distinct(m) && i < |m|
    ensures StableSort.Rank(Newer, m, i) == |AsNewIn(m[..i], m[i])| + |NewerIn(m[i + 1..], m[i])|
  {
    hide Newer, NewerIn, AsNewIn;
    CountsNewer(m[..i], m[i]);
    CountsNewer(m[i + 1..], m[i]);
  }

  /** A backup is deleted exactly when at least five others are newer, or as new and listed before it. */
  lemma KeptExactly(listing: seq<string>, i: nat)
    requires StableSort.Distinct(listing) && i < |BackupsIn(listing)|
    ensures var m := BackupsIn(listing);
      m[i] in Doomed(listing) <==> |AsNewIn(m[..i], m[i])| + |NewerIn(m[i + 1..], m[i])| >= 5
  {
    hide Newer, IsBackup, StableSort.Rank, BackupsIn, StableSort.Sort, StableSort.StrictWeak, NewerIn, AsNewIn;
    BackupsDistinct(listing);
    RankCounts(BackupsIn(listing), i);
    NewerIsOrder();
    StableSort.SortedByRank(Newer, BackupsIn(listing), i);
    StableSort.SortDistinct(Newer, BackupsIn(listing));
    if |Ranked(listing)| > KEEP_MIGRATION_BACKUPS {
      TailHas(Ranked(listing), StableSort.Rank(Newer, BackupsIn(listing), i), KEEP_MIGRATION_BACKUPS);
    }
  }

  /** The backups left. */
  function Left(files: set<string>, listing: seq<string>): set<string> {
    set f | f in Pruned(files, listing) && IsBackup(f)
  }

  lemma LeftIsFirst(files: set<string>, listing: seq<string>, f: string)
    requires IsListing(listing, files) && |Ranked(listing)| > 5
    ensures f in Left(files, listing) <==> f in Ranked(listing)[..5]
  {
    hide IsBackup, Newer, StableSort.Sort;
    var s, n := Ranked(listing), KEEP_MIGRATION_BACKUPS;
    StableSort.SameElements(BackupsIn(listing), s);
    BackupsDistinct(listing);
    StableSort.SortDistinct(Newer, BackupsIn(listing));
    if f in Left(files, listing) {
      var k :| 0 <= k < |s| && s[k] == f;
      TailHas(s, k, n);
      assert s[..n][k] == f;
    }
    if f in s[..n] {
      var k :| 0 <= k < n && s[..n][k] == f;
      TailHas(s, k, n);
      assert s[k] == f && f in s;
    }
  }

  /** None of the deleted backups is newer than one that is left. */
  lemma NoneNewerDeleted(files: set<string>, listing: seq<string>, kept: string, deleted: string)
    requires IsListing(listing, files)
    requires kept in Left(files, listing) && deleted in files && deleted !in Pruned(files, listing)
    ensures MadeAt(kept) >= MadeAt(deleted)
  {
    hide MadeAt, IsBackup, Newer, StableSort.Sort, StableSort.StrictWeak;
    var s, n := Ranked(listing), KEEP_MIGRATION_BACKUPS;
    LeftIsFirst(files, listing, kept);
    NewerIsOrder();
    StableSort.SortSorted(Newer, BackupsIn(listing));
    var i :| 0 <= i < n && s[..n][i] == kept;
    var j :| 0 <= j < |s[n..]| && s[n..][j] == deleted;
    assert s[i] == kept && s[n + j] == deleted;
    NewerIsLater(deleted, kept);
  }

  lemma LeftCount(files: set<string>, listing: seq<string>)
    requires IsListing(listing, files)
    ensures |Left(files, listing)| <= 5
    ensures |Left(files, listing)| < 5 ==> Pruned(files, listing) == files
  {
    hide IsBackup, StableSort.Sort;
    var s, n := Ranked(listing), KEEP_MIGRATION_BACKUPS;
    BackupsDistinct(listing);
    StableSort.SortDistinct(Newer, BackupsIn(listing));
    if |s| > n {
      forall f ensures f in Left(files, listing) <==> f in s[..n] { LeftIsFirst(files, listing, f); }
      OnceSet(s, n);
    } else {
      StableSort.SameElements(BackupsIn(listing), s);
      assert s[..|s|] == s;
      OnceSet(s, |s|);
    }
    var m := if |s| > n then n else |s|;
    assert Left(files, listing) == Names(s[..m]);
  }

  /** After pruning: every other file is as it was, at most five backups are left, fewer only if
      nothing was deleted, and none of those deleted is newer than one that is left. */
  lemma NewestFiveStay(files: set<string>, listing: seq<string>)
    requires IsListing(listing, files)
    ensures forall f :: f in files && !IsBackup(f) ==> f in Pruned(files, listing)
    ensures |Left(files, listing)| <= 5
    ensures |Left(files, listing)| < 5 ==> Pruned(files, listing) == files
    ensures forall k, d :: k in Left(files, listing) && d in files && d !in Pruned(files, listing) ==> MadeAt(k) >= MadeAt(d)
  {
    hide MadeAt, IsBackup;
    LeftCount(files, listing);
    StableSort.SameElements(BackupsIn(listing), Ranked(listing));
    forall k, d | k in Left(files, listing) && d in files && d !in Pruned(files, listing) ensures MadeAt(k) >= MadeAt(d) {
      NoneNewerDeleted(files, listing, k, d);
    }
  }

  function Names(s: seq<string>): set<string> { set f | f in s }

  lemma {:induction false} OnceSet(s: seq<string>, n: nat)
    requires StableSort.Once(s) && n <= |s|
    ensures |Names(s[..n])| == n
  {
    if n > 0 {
      OnceSet(s, n - 1);
      assert s[..n] == s[..n - 1] + [s[n - 1]];
      assert Names(s[..n]) == Names(s[..n - 1]) + {s[n - 1]};
      if s[n - 1] in s[..n - 1] {
        var i :| 0 <= i < n - 1 && s[..n - 1][i] == s[n - 1];
        StableSort.OnceEach(s, i, n - 1);
        assert false;
      }
    }
  }

  /** The other backups that are not older than f. */
  function Rivals(files: set<string>, f: string): set<string> {
    set g | g in files && IsBackup(g) && g != f && MadeAt(g) >= MadeAt(f)
  }

  lemma SubsetCount<T>(a: set<T>, b: set<T>)
    requires a <= b
    ensures |a| <= |b|
  {
    assert b == a + (b - a);
  }

  /** With fewer than five such others a backup stays; so the newest always does. */
  lemma FewRivals(files: set<string>, listing: seq<string>, f: string)
    requires IsListing(listing, files) && f in files && IsBackup(f)
    requires |Rivals(files, f)| < 5
    ensures f in Pruned(files, listing)
  {
    hide MadeAt, IsBackup;
    NewestFiveStay(files, listing);
    if f !in Pruned(files, listing) {
      assert Left(files, listing) <= Rivals(files, f);
      SubsetCount(Left(files, listing), Rivals(files, f));
      assert false;
    }
  }

  /** With five strictly newer ones it goes, even in the call that made it: the clock went back. */
  lemma FiveNewer(files: set<string>, listing: seq<string>, f: string)
    requires IsListing(listing, files) && f in files && IsBackup(f)
    requires |set g | g in files && IsBackup(g) && MadeAt(g) > MadeAt(f)| >= 5
    ensures f !in Pruned(files, listing)
  {
    hide MadeAt, IsBackup;
    NewestFiveStay(files, listing);
    var newer := set g | g in files && IsBackup(g) && MadeAt(g) > MadeAt(f);
    if f in Pruned(files, listing) {
      assert f in Left(files, listing);
      assert newer + {f} <= Left(files, listing);
      SubsetCount(newer + {f}, Left(files, listing));
      assert false;
    }
  }

  // ---------------------------------------------------------------- over a run of upgrades

  datatype Copy = Copy(target: string, listing: seq<string>)

  function After(files: set<string>, copies: seq<Copy>): set<string>
    decreases |copies|
  {
    if copies == [] then files
    else After(Pruned(files + {copies[0].target}, copies[0].listing), copies[1..])
  }

  ghost predicate Listed(files: set<string>, copies: seq<Copy>)
    decreases |copies|
  {
    copies == [] || (
      var now := files + {copies[0].target};
      IsListing(copies[0].listing, now) && Listed(Pruned(now, copies[0].listing), copies[1..]))
  }

  lemma OneMoreRival(files: set<string>, listing: seq<string>, target: string, f: string)
    ensures |Rivals(Pruned(files + {target}, listing), f)| <= |Rivals(files, f)| + 1
    ensures |Rivals(files + {target}, f)| <= |Rivals(files, f)| + 1
  {
    hide MadeAt, IsBackup, Doomed;
    var before := Rivals(files, f) + {target};
    SubsetCount(Rivals(files + {target}, f), before);
    SubsetCount(Rivals(Pruned(files + {target}, listing), f), before);
    assert |before| <= |Rivals(files, f)| + 1;
  }

  /** A backup that was newest when made outlives the next four copies, whatever the clock does. */
  lemma {:induction false} OutlivesFour(files: set<string>, f: string, copies: seq<Copy>)
    requires f in files && IsBackup(f) && Listed(files, copies)
    requires |Rivals(files, f)| + |copies| < 5
    ensures f in After(files, copies)
    decreases |copies|
  {
    hide MadeAt, IsBackup, Rivals, Doomed;
    if copies != [] {
      OneMoreRival(files, copies[0].listing, copies[0].target, f);
      FewRivals(files + {copies[0].target}, copies[0].listing, f);
      OutlivesFour(Pruned(files + {copies[0].target}, copies[0].listing), f, copies[1..]);
    }
  }

  /** A copy made at a later second than every other stamp has no rivals. */
  lemma LaterClock(files: set<string>, firstPending: string, t: Reading)
    requires t.Valid() && forall c :: c in firstPending ==> !IsLineBreak(c)
    requires forall g :: g in files && IsBackup(g) ==> MadeAt(g) < t.Moment()
    ensures var target := Target(firstPending, StampFrom(Iso(t)));
      IsBackup(target) && MadeAt(target) == t.Moment() && Rivals(files + {target}, target) == {}
  {
    hide IsBackup, IsStamp, StampFrom, Iso, Target, StampOf, IsLineBreak, StampNumber;
    StampMoment(t);
    TargetStamped(firstPending, StampFrom(Iso(t)));
    assert StampFrom(Iso(t)) != "" by { StampPlain(StampFrom(Iso(t))); }
  }

  // ---------------------------------------------------------------- a clock set back

  function Second(k: nat): Reading { Reading(2025, 1, 1, 0, 0, k, 0) }

  function CopyAt(k: nat): string { Target("002.sql", StampFrom(Iso(Second(k)))) }

  lemma CopyMadeAt(k: nat)
    requires k < 60
    ensures IsBackup(CopyAt(k)) && MadeAt(CopyAt(k)) == 20250101000000 + k
  {
    hide IsBackup, MadeAt, Target, StampFrom, Iso;
    LaterClock({}, "002.sql", Second(k));
  }

  /** Five copies were made in the seconds 1 to 5; the clock goes back to second 0, and the copy made
      then is deleted by the call that made it. */
  lemma ClockSetBack(listing: seq<string>)
    requires IsListing(listing, {CopyAt(1), CopyAt(2), CopyAt(3), CopyAt(4), CopyAt(5), CopyAt(0)})
    ensures CopyAt(0) !in Pruned({CopyAt(1), CopyAt(2), CopyAt(3), CopyAt(4), CopyAt(5), CopyAt(0)}, listing)
  {
    hide CopyAt, IsBackup, MadeAt;
    forall k: nat | k < 60 ensures IsBackup(CopyAt(k)) && MadeAt(CopyAt(k)) == 20250101000000 + k { CopyMadeAt(k); }
    var old5 := {CopyAt(1), CopyAt(2), CopyAt(3), CopyAt(4), CopyAt(5)};
    var files := old5 + {CopyAt(0)};
    assert files == {CopyAt(1), CopyAt(2), CopyAt(3), CopyAt(4), CopyAt(5), CopyAt(0)};
    assert (set g | g in files && IsBackup(g) && MadeAt(g) > MadeAt(CopyAt(0))) == old5;
    FiveNewer(files, listing, CopyAt(0));
  }

  /** A sixth copy within one second stays or goes with its place in the listing. */
  lemma SameSecond(m: seq<string>, i: nat)
    requires StableSort.Distinct(m) && i < |m| && forall f :: f in m ==> IsBackup(f) && MadeAt(f) == MadeAt(m[i])
    ensures m[i] in Doomed(m) <==> i >= 5
  {
    hide IsBackup, MadeAt, Doomed;
    AllBackups(m);
    KeptExactly(m, i);
    assert AsNewIn(m[..i], m[i]) == Names(m[..i]) by { assert forall f :: f in m[..i] ==> f in m; }
    assert NewerIn(m[i + 1..], m[i]) == {} by { assert forall f :: f in m[i + 1..] ==> f in m; }
    forall x ensures multiset(m)[x] <= 1 { StableSort.DistinctCounts(m, x); }
    OnceSet(m, i);
  }

  lemma {:induction false} AllBackups(m: seq<string>)
    requires forall f :: f in m ==> IsBackup(f)
    ensures BackupsIn(m) == m
  {
    hide IsBackup;
    if m != [] {
      assert m[0] in m;
      AllBackups(m[1..]);
    }
  }
}
