/** src/db.ts: `migrate` and `transaction` over a database that can be written durably only by
    COMMIT, with every step free to throw and the process free to die at any of them. */
module Migrations {
  import opened Text
  import StableSort

  /** What a database holds: the migration statements in effect, in the order they took effect, and
      the names in schema_migrations, in the order of their rows. */
  datatype Image = Image(content: seq<string>, recorded: seq<string>)

  /** What happens while one migration is applied. A body runs its statements and then the INSERT;
      `done` of them succeed before it fails. A rollback can fail too, and is then ignored. */
  datatype Fate =
    | Clean
    | Unreadable
    | BeginThrows
    | BodyThrows(done: nat, rollsBack: bool)
    | CommitThrows(rollsBack: bool)
    | CrashInBody(done: nat)
    | CrashInCommit(durable: bool)

  /** The steps before the first migration: CREATE TABLE, the SELECT and the directory. */
  datatype SetupFate = Ready | SetupThrows | SetupCrashes

  datatype BackupFate = NoDirectory | Copied | CopyThrows | CopyCrashes

  datatype Step = Completed | StepThrew | StepCrashed

  /** What the caller of `migrate` sees. */
  datatype Outcome = Finished(ran: seq<string>) | Threw | Crashed

  // ---------------------------------------------------------------- what a run should do

  function With(img: Image, script: seq<string>, name: string): Image {
    Image(img.content + script, img.recorded + [name])
  }

  /** One migration: all of it or nothing. */
  function Apply(img: Image, script: seq<string>, name: string, fate: Fate): (Image, Step) {
    match fate
    case Clean => (With(img, script, name), Completed)
    case CrashInBody(_) => (img, StepCrashed)
    case CrashInCommit(durable) => (if durable then With(img, script, name) else img, StepCrashed)
    case _ => (img, StepThrew)
  }

  function Ran(name: string, outcome: Outcome): Outcome {
    match outcome
    case Finished(ran) => Finished([name] + ran)
    case _ => outcome
  }

  function ApplyAll(img: Image, scripts: string -> seq<string>, pending: seq<string>, fates: string -> Fate)
    : (Image, Outcome)
    decreases |pending|
  {
    if pending == [] then (img, Finished([]))
    else
      match Apply(img, scripts(pending[0]), pending[0], fates(pending[0]))
      case (next, Completed) =>
        var (last, outcome) := ApplyAll(next, scripts, pending[1..], fates);
        (last, Ran(pending[0], outcome))
      case (next, StepThrew) => (next, Threw)
      case (next, StepCrashed) => (next, Crashed)
  }

  function NotIn(files: seq<string>, recorded: seq<string>): (r: seq<string>)
    ensures forall f :: f in r <==> f in files && f !in recorded
  {
    if files == [] then []
    else (if files[0] in recorded then [] else [files[0]]) + NotIn(files[1..], recorded)
  }

  predicate IsScript(file: string) { |file| >= 4 && file[|file| - 4..] == ".sql" }

  function Scripts(listing: seq<string>): (r: seq<string>)
    ensures forall f :: f in r ==> f in listing
  {
    if listing == [] then []
    else (if IsScript(listing[0]) then [listing[0]] else []) + Scripts(listing[1..])
  }

  /** `sort()` orders by characters. */
  function Files(listing: seq<string>): seq<string> { StableSort.Sort(Below, Scripts(listing)) }

  /** One start of the program: the directory as listed, and what goes wrong. */
  datatype Launch = Launch(listing: seq<string>, setup: SetupFate, backup: BackupFate, fates: string -> Fate)

  predicate BacksUp(pending: seq<string>, img: Image, backup: BackupFate) {
    pending != [] && img.recorded != [] && backup != NoDirectory
  }

  /** A copy is taken, and succeeds. */
  predicate Takes(img: Image, launch: Launch) {
    && launch.setup == Ready && launch.backup == Copied
    && BacksUp(NotIn(Files(launch.listing), img.recorded), img, launch.backup)
  }

  function Launched(img: Image, scripts: string -> seq<string>, launch: Launch): (Image, Outcome) {
    var pending := NotIn(Files(launch.listing), img.recorded);
    if launch.setup == SetupThrows then (img, Threw)
    else if launch.setup == SetupCrashes then (img, Crashed)
    else if BacksUp(pending, img, launch.backup) && launch.backup == CopyThrows then (img, Threw)
    else if BacksUp(pending, img, launch.backup) && launch.backup == CopyCrashes then (img, Crashed)
    else ApplyAll(img, scripts, pending, launch.fates)
  }

  /** A copy: the migration it is named after, and what the database held. */
  datatype Copy = Copy(firstPending: string, image: Image)

  /** The copies a start takes. */
  function CopiesTaken(img: Image, launch: Launch): seq<Copy> {
    if Takes(img, launch) then [Copy(NotIn(Files(launch.listing), img.recorded)[0], img)] else []
  }

  // ---------------------------------------------------------------- the program

  class Database {
    var committed: Image
    /** The open transaction's view; None outside one. */
    var working: Option<Image>
    var backups: seq<Copy>

    constructor ()
      ensures committed == Image([], []) && working == None && backups == []
    {
      committed, working, backups := Image([], []), None, [];
    }

    /** A new connection after the program ended: what was not committed is gone. */
    method Reopen()
      modifies this`working
      ensures working == None
    {
      working := None;
    }

    /** `BEGIN IMMEDIATE`: no transaction starts inside another. */
    method Begin(throws: bool) returns (ok: bool)
      modifies this`working
      ensures ok <==> !throws && old(working).None?
      ensures working == if ok then Some(committed) else old(working)
    {
      if throws || working.Some? { return false; }
      working := Some(committed);
      ok := true;
    }

    method Commit(throws: bool)
      requires working.Some?
      modifies this`working, this`committed
      ensures if throws then working == old(working) && committed == old(committed)
              else working == None && committed == old(working).value
    {
      if !throws { committed, working := working.value, None; }
    }

    method Rollback(succeeds: bool)
      modifies this`working
      ensures working == if succeeds then None else old(working)
    {
      if succeeds { working := None; }
    }

    /** The transaction's body: the script's statements, then the INSERT, whose PRIMARY KEY refuses
        a name already there. */
    method Body(script: seq<string>, name: string, fate: Fate) returns (step: Step)
      requires working.Some?
      modifies this`working
      ensures working.Some?
      ensures step == Completed ==> working == Some(With(old(working).value, script, name))
      ensures step == (
        if fate.CrashInBody? then StepCrashed
        else if fate.BodyThrows? || name in old(working).value.recorded then StepThrew
        else Completed)
    {
      var start := working.value;
      assert start.content + script[..0] == start.content;
      for i := 0 to |script|
        invariant working == Some(Image(start.content + script[..i], start.recorded))
        invariant fate.BodyThrows? || fate.CrashInBody? ==> i <= fate.done
      {
        if fate.BodyThrows? && fate.done == i { return StepThrew; }
        if fate.CrashInBody? && fate.done == i { return StepCrashed; }
        assert start.content + script[..i + 1] == start.content + script[..i] + [script[i]];
        working := Some(Image(working.value.content + [script[i]], start.recorded));
      }
      assert script[..|script|] == script;
      if fate.CrashInBody? { return StepCrashed; }
      if fate.BodyThrows? || name in start.recorded { return StepThrew; }
      working := Some(With(start, script, name));
      step := Completed;
    }

    method Transaction(script: seq<string>, name: string, fate: Fate) returns (step: Step)
      requires working.None? && name !in committed.recorded && fate != Unreadable
      modifies this`working, this`committed
      ensures (committed, step) == Apply(old(committed), script, name, fate)
      ensures step == Completed ==> working == None
      ensures step == StepThrew ==> (working == None <==> fate.BeginThrows? || fate.rollsBack)
    {
      var began := Begin(fate.BeginThrows?);
      if !began { return StepThrew; }
      step := Body(script, name, fate);
      if step == Completed && !fate.CrashInCommit? {
        Commit(fate.CommitThrows?);
        if fate.CommitThrows? { step := StepThrew; }
      } else if step == Completed {
        if fate.durable { Commit(false); }
        return StepCrashed;
      }
      if step == StepThrew {
        Rollback((fate.BodyThrows? || fate.CommitThrows?) && fate.rollsBack);
      }
    }

    /** The loop of `migrate`. */
    method ApplyEach(scripts: string -> seq<string>, files: seq<string>, fates: string -> Fate)
      returns (outcome: Outcome)
      requires working.None? && StableSort.Distinct(files)
      modifies this`working, this`committed
      ensures (committed, outcome) == ApplyAll(old(committed), scripts, NotIn(files, old(committed).recorded), fates)
      ensures outcome.Finished? ==> working == None
    {
      hide ApplyAll, Apply, Before, NotIn, With, StableSort.Distinct;
      var applied := committed.recorded;
      var ran := [];
      ghost var start := committed;
      assert files[0..] == files && files[..0] == [];
      BeforeNone(ApplyAll(start, scripts, NotIn(files, applied), fates));
      for i := 0 to |files|
        invariant working == None
        invariant forall f :: f in committed.recorded ==> f in applied || f in files[..i]
        invariant ApplyAll(start, scripts, NotIn(files, applied), fates)
               == Before(ran, ApplyAll(committed, scripts, NotIn(files[i..], applied), fates))
      {
        var file := files[i];
        NotInFrom(files, i, applied);
        assert files[..i + 1] == files[..i] + [file];
        if file in applied { continue; }
        var fate := fates(file);
        BeforeOne(ran, file, committed, scripts, NotIn(files[i + 1..], applied), fates);
        ApplyFate(committed, scripts(file), file, fate);
        StillNew(files, i);
        if fate == Unreadable { return Threw; }
        var step := Transaction(scripts(file), file, fate);
        if step == StepThrew { return Threw; }
        if step == StepCrashed { return Crashed; }
        ran := ran + [file];
      }
      NotInEnd(files, applied);
      ApplyNone(committed, scripts, fates);
      BeforeFinished(ran, committed);
      outcome := Finished(ran);
    }

    /** `migrate` on a connection just opened. */
    method Migrate(scripts: string -> seq<string>, launch: Launch) returns (outcome: Outcome)
      requires working.None? && StableSort.Distinct(launch.listing)
      modifies this
      ensures (committed, outcome) == Launched(old(committed), scripts, launch)
      ensures outcome.Finished? ==> working == None
      ensures backups == old(backups) + CopiesTaken(old(committed), launch)
      ensures outcome.Finished? ==>
        Ascending(outcome.ran) && forall f :: f in outcome.ran <==> IsPending(old(committed), launch, f)
    {
      hide Files, ApplyAll, NotIn, StandsBefore, IsPending;
      ghost var due := AscendingOrder(committed, scripts, launch);
      if launch.setup == SetupThrows { return Threw; }
      if launch.setup == SetupCrashes { return Crashed; }
      var applied := committed.recorded;
      var files := Files(launch.listing);
      FilesDistinct(launch.listing);
      var pending := NotIn(files, applied);
      if pending != [] && applied != [] && launch.backup != NoDirectory {
        if launch.backup == CopyThrows { return Threw; }
        if launch.backup == CopyCrashes { return Crashed; }
        backups := backups + [Copy(pending[0], committed)];
      }
      outcome := ApplyEach(scripts, files, launch.fates);
    }
  }

  lemma StillNew(files: seq<string>, i: nat)
    requires StableSort.Distinct(files) && i < |files|
    ensures files[i] !in files[..i]
  {
  }

  /** A run that had already applied `ran`. */
  function Before(ran: seq<string>, end: (Image, Outcome)): (Image, Outcome) {
    if end.1.Finished? then (end.0, Finished(ran + end.1.ran)) else end
  }

  lemma NotInFrom(files: seq<string>, i: nat, applied: seq<string>)
    requires i < |files|
    ensures NotIn(files[i..], applied)
         == (if files[i] in applied then NotIn(files[i + 1..], applied) else [files[i]] + NotIn(files[i + 1..], applied))
  {
    assert files[i..][1..] == files[i + 1..];
  }

  lemma NotInEnd(files: seq<string>, applied: seq<string>)
    ensures NotIn(files[|files|..], applied) == []
  {
  }

  lemma BeforeNone(end: (Image, Outcome))
    ensures Before([], end) == end
  {
    if end.1.Finished? { assert [] + end.1.ran == end.1.ran; }
  }

  lemma BeforeFinished(ran: seq<string>, img: Image)
    ensures Before(ran, (img, Finished([]))) == (img, Finished(ran))
  {
    assert ran + [] == ran;
  }

  lemma ApplyNone(img: Image, scripts: string -> seq<string>, fates: string -> Fate)
    ensures ApplyAll(img, scripts, [], fates) == (img, Finished([]))
  {
  }

  /** The parts of Apply the loop looks at. */
  lemma ApplyFate(img: Image, script: seq<string>, name: string, fate: Fate)
    ensures Apply(img, script, name, fate).1 == Completed ==> Apply(img, script, name, fate).0.recorded == img.recorded + [name]
    ensures fate == Unreadable ==> Apply(img, script, name, fate) == (img, StepThrew)
  {
  }

  lemma BeforeOne(ran: seq<string>, file: string, img: Image, scripts: string -> seq<string>,
                  rest: seq<string>, fates: string -> Fate)
    ensures var (next, step) := Apply(img, scripts(file), file, fates(file));
      Before(ran, ApplyAll(img, scripts, [file] + rest, fates)) ==
        if step == Completed then Before(ran + [file], ApplyAll(next, scripts, rest, fates))
        else (next, if step == StepThrew then Threw else Crashed)
  {
    assert ([file] + rest)[1..] == rest;
    var (next, step) := Apply(img, scripts(file), file, fates(file));
    var (last, outcome) := ApplyAll(next, scripts, rest, fates);
    if outcome.Finished? { assert ran + ([file] + outcome.ran) == ran + [file] + outcome.ran; }
  }

  lemma {:induction false} ScriptsDistinct(listing: seq<string>)
    requires StableSort.Distinct(listing)
    ensures StableSort.Distinct(Scripts(listing))
  {
    if listing != [] {
      ScriptsDistinct(listing[1..]);
      var rest := Scripts(listing[1..]);
      forall j | 0 <= j < |rest| ensures rest[j] != listing[0] {
        assert rest[j] in rest && rest[j] in listing[1..];
      }
    }
  }

  lemma FilesDistinct(listing: seq<string>)
    requires StableSort.Distinct(listing)
    ensures StableSort.Distinct(Files(listing))
  {
    ScriptsDistinct(listing);
    StableSort.SortDistinct(Below, Scripts(listing));
  }

  // ---------------------------------------------------------------- the files do not depend on the listing

  lemma {:induction false} BelowTotal(a: string, b: string)
    ensures !(Below(a, b) && Below(b, a))
    ensures !Below(a, b) && !Below(b, a) ==> a == b
  {
    if a != [] && b != [] {
      BelowTotal(a[1..], b[1..]);
      assert a == [a[0]] + a[1..] && b == [b[0]] + b[1..];
    }
  }

  lemma {:induction false} BelowBetween(a: string, b: string, c: string)
    requires Below(a, c)
    ensures Below(a, b) || Below(b, c)
  {
    if a != [] && b != [] && a[0] == b[0] == c[0] { BelowBetween(a[1..], b[1..], c[1..]); }
  }

  lemma BelowIsOrder()
    ensures StableSort.StrictWeak(Below)
    ensures forall a, b :: !Below(a, b) && !Below(b, a) ==> a == b
  {
    hide Below;
    forall a, b ensures !(Below(a, b) && Below(b, a)) && (!Below(a, b) && !Below(b, a) ==> a == b) { BelowTotal(a, b); }
    forall a, b, c | Below(a, c) ensures Below(a, b) || Below(b, c) { BelowBetween(a, b, c); }
  }

  lemma {:induction false} ScriptCounts(listing: seq<string>, f: string)
    ensures multiset(Scripts(listing))[f] == if IsScript(f) then multiset(listing)[f] else 0
  {
    hide IsScript;
    if listing != [] {
      ScriptCounts(listing[1..], f);
      assert listing == [listing[0]] + listing[1..];
    }
  }

  /** The same names in another order are applied in the same order. */
  lemma FilesSame(a: seq<string>, b: seq<string>)
    requires multiset(a) == multiset(b)
    ensures Files(a) == Files(b)
  {
    hide Below, IsScript, Scripts;
    forall f ensures multiset(Scripts(a))[f] == multiset(Scripts(b))[f] {
      ScriptCounts(a, f);
      ScriptCounts(b, f);
    }
    assert multiset(Scripts(a)) == multiset(Scripts(b));
    BelowIsOrder();
    StableSort.SortSorted(Below, Scripts(a));
    StableSort.SortSorted(Below, Scripts(b));
    StableSort.SortedUnique(Below, Files(a), Files(b));
  }

  /** The characters agree up to a place where a ends or has the smaller one. */
  ghost predicate StandsBefore(a: string, b: string) {
    exists k: nat :: k <= |a| && k < |b| && a[..k] == b[..k] && (k == |a| || a[k] < b[k])
  }

  lemma StandsTail(a: string, b: string)
    requires a != "" && b != "" && a[0] == b[0]
    ensures StandsBefore(a, b) <==> StandsBefore(a[1..], b[1..])
  {
    var s, t := a[1..], b[1..];
    if StandsBefore(s, t) {
      var k: nat :| k <= |s| && k < |t| && s[..k] == t[..k] && (k == |s| || s[k] < t[k]);
      assert a[..k + 1] == [a[0]] + s[..k] && b[..k + 1] == [b[0]] + t[..k];
    }
    if StandsBefore(a, b) {
      var k: nat :| k <= |a| && k < |b| && a[..k] == b[..k] && (k == |a| || a[k] < b[k]);
      assert k > 0;
      assert s[..k - 1] == a[..k][1..] && t[..k - 1] == b[..k][1..];
    }
  }

  lemma StandsHead(a: string, b: string)
    requires a == "" || b == "" || a[0] != b[0]
    ensures StandsBefore(a, b) <==> b != "" && (a == "" || a[0] < b[0])
  {
    assert a[..0] == b[..0];
    if a != "" && b != "" {
      forall k: nat | 0 < k <= |a| && k < |b| ensures a[..k] != b[..k] { assert a[..k][0] == a[0] && b[..k][0] == b[0]; }
    }
  }

  lemma {:induction false} BelowStands(a: string, b: string)
    ensures Below(a, b) <==> StandsBefore(a, b)
  {
    hide StandsBefore;
    if a != "" && b != "" && a[0] == b[0] {
      StandsTail(a, b);
      BelowStands(a[1..], b[1..]);
    } else {
      StandsHead(a, b);
    }
  }

  /** From a to b scripts were only added, behind those there were: two directories, the older first. */
  ghost predicate ComesFirst(a: seq<string>, b: seq<string>) {
    && StableSort.Distinct(a) && StableSort.Distinct(b)
    && (forall f :: f in a && IsScript(f) ==> f in b)
    && (forall f, g :: f in a && IsScript(f) && g in b && IsScript(g) && g !in a ==> StandsBefore(f, g))
  }

  ghost predicate Ascending(names: seq<string>) {
    forall i, j :: 0 <= i < j < |names| ==> StandsBefore(names[i], names[j])
  }

  lemma FilesAscend(listing: seq<string>)
    requires StableSort.Distinct(listing)
    ensures Ascending(Files(listing))
  {
    hide Below, StandsBefore, Scripts, StableSort.Sort;
    var files := Files(listing);
    BelowIsOrder();
    StableSort.SortSorted(Below, Scripts(listing));
    FilesDistinct(listing);
    forall i, j | 0 <= i < j < |files| ensures StandsBefore(files[i], files[j]) { BelowStands(files[i], files[j]); }
  }

  lemma {:induction false} NotInAscends(files: seq<string>, recorded: seq<string>)
    requires Ascending(files)
    ensures Ascending(NotIn(files, recorded))
  {
    hide StandsBefore;
    if files != [] {
      NotInAscends(files[1..], recorded);
      var rest := NotIn(files[1..], recorded);
      forall j | 0 <= j < |rest| ensures StandsBefore(files[0], rest[j]) {
        assert rest[j] in rest && rest[j] in files[1..];
      }
    }
  }

  /** The names of scripts a start finds that are not recorded. */
  predicate IsPending(img: Image, launch: Launch, f: string) {
    f in launch.listing && |f| >= 4 && f[|f| - 4..] == ".sql" && f !in img.recorded
  }

  lemma PendingExactly(img: Image, launch: Launch, f: string)
    ensures f in NotIn(Files(launch.listing), img.recorded) <==> IsPending(img, launch, f)
  {
    hide Files, NotIn;
    IsFile(launch.listing, f);
  }

  lemma IsFile(listing: seq<string>, f: string)
    ensures f in Files(listing) <==> f in listing && IsScript(f)
  {
    hide IsScript, StableSort.Sort;
    ScriptCounts(listing, f);
    assert f in listing <==> f in multiset(listing);
    StableSort.SameElements(Files(listing), Scripts(listing));
    assert f in Scripts(listing) <==> f in multiset(Scripts(listing));
  }

  lemma AscendingSorted(names: seq<string>)
    requires Ascending(names)
    ensures StableSort.Sorted(Below, names)
  {
    hide Below, StandsBefore;
    forall i, j | 0 <= i < j < |names| ensures !Below(names[j], names[i]) {
      BelowStands(names[j], names[i]);
      OneWay(names[i], names[j]);
    }
  }

  lemma AscendingConcat(a: seq<string>, b: seq<string>)
    requires Ascending(a) && Ascending(b) && forall f, g :: f in a && g in b ==> StandsBefore(f, g)
    ensures Ascending(a + b)
  {
    hide StandsBefore;
    forall i, j | 0 <= i < j < |a + b| ensures StandsBefore((a + b)[i], (a + b)[j]) {
      if i < |a| <= j { assert a[i] in a && b[j - |a|] in b; }
    }
  }

  lemma SameDistinct(a: seq<string>, b: seq<string>)
    requires StableSort.Distinct(a) && StableSort.Distinct(b) && forall f :: f in a <==> f in b
    ensures multiset(a) == multiset(b)
  {
    forall f ensures multiset(a)[f] == multiset(b)[f] {
      StableSort.DistinctCounts(a, f);
      StableSort.DistinctCounts(b, f);
      assert f in a <==> f in multiset(a);
      assert f in b <==> f in multiset(b);
    }
  }

  lemma FilesFirst(a: seq<string>, b: seq<string>)
    requires ComesFirst(a, b)
    ensures Files(a) <= Files(b)
  {
    hide Files, NotIn, IsScript, StandsBefore, Below, StableSort.Distinct, Ascending;
    var first, all := Files(a), Files(b);
    var rest := NotIn(all, first);
    forall f ensures (f in first <==> f in a && IsScript(f)) && (f in all <==> f in b && IsScript(f)) {
      IsFile(a, f);
      IsFile(b, f);
    }
    FilesAscend(a);
    FilesAscend(b);
    NotInAscends(all, first);
    AscendingConcat(first, rest);
    FilesDistinct(a);
    FilesDistinct(b);
    NotInDistinct(all, first);
    DistinctAppend(first, rest, |rest|);
    assert rest[..|rest|] == rest;
    SameDistinct(first + rest, all);
    AscendingSorted(first + rest);
    AscendingSorted(all);
    BelowIsOrder();
    StableSort.SortedUnique(Below, first + rest, all);
  }

  // ---------------------------------------------------------------- how far a run gets

  function Statements(scripts: string -> seq<string>, names: seq<string>): seq<string>
    decreases |names|
  {
    if names == [] then [] else scripts(names[0]) + Statements(scripts, names[1..])
  }

  lemma {:induction false} StatementsConcat(scripts: string -> seq<string>, a: seq<string>, b: seq<string>)
    ensures Statements(scripts, a + b) == Statements(scripts, a) + Statements(scripts, b)
    decreases |a|
  {
    if a == [] {
      assert a + b == b;
    } else {
      assert (a + b)[1..] == a[1..] + b;
      StatementsConcat(scripts, a[1..], b);
    }
  }

  /** img with those migrations in effect too. */
  function Extended(img: Image, scripts: string -> seq<string>, names: seq<string>): Image {
    Image(img.content + Statements(scripts, names), img.recorded + names)
  }

  lemma ExtendedTwice(img: Image, scripts: string -> seq<string>, a: seq<string>, b: seq<string>)
    ensures Extended(Extended(img, scripts, a), scripts, b) == Extended(img, scripts, a + b)
  {
    var x, y := Statements(scripts, a), Statements(scripts, b);
    StatementsConcat(scripts, a, b);
    assert (img.content + x) + y == img.content + (x + y);
    assert (img.recorded + a) + b == img.recorded + (a + b);
  }

  /** How many of the pending migrations a run makes durable. */
  function Progress(pending: seq<string>, fates: string -> Fate): (k: nat)
    ensures k <= |pending|
    decreases |pending|
  {
    if pending == [] then 0
    else if fates(pending[0]) == Clean then 1 + Progress(pending[1..], fates)
    else if fates(pending[0]) == CrashInCommit(true) then 1
    else 0
  }

  /** A run ends normally exactly when nothing goes wrong with any of its migrations. */
  lemma {:induction false} FinishesExactly(img: Image, scripts: string -> seq<string>, pending: seq<string>,
                                           fates: string -> Fate)
    ensures ApplyAll(img, scripts, pending, fates).1.Finished? <==> forall f :: f in pending ==> fates(f) == Clean
    decreases |pending|
  {
    if pending != [] {
      var name, rest := pending[0], pending[1..];
      assert pending == [name] + rest;
      assert name in pending;
      FinishesExactly(With(img, scripts(name), name), scripts, rest, fates);
    }
  }

  /** Where a run stops, at the first migration something goes wrong with: what is durable then, and
      what the caller sees. */
  lemma {:induction false} StopsExactly(img: Image, scripts: string -> seq<string>, before: seq<string>, name: string,
                                        after: seq<string>, fates: string -> Fate)
    requires (forall f :: f in before ==> fates(f) == Clean) && fates(name) != Clean
    ensures var done := before + if fates(name) == CrashInCommit(true) then [name] else [];
      ApplyAll(img, scripts, before + ([name] + after), fates)
        == (Extended(img, scripts, done), if fates(name).CrashInBody? || fates(name).CrashInCommit? then Crashed else Threw)
    decreases |before|
  {
    hide Extended, With;
    var pending := before + ([name] + after);
    if before == [] {
      assert pending == [name] + after && pending[1..] == after;
      assert [] + [name] == [name];
      ExtendedByNone(img, scripts);
      ExtendedByOne(img, scripts, name);
    } else {
      var first, rest := before[0], before[1..];
      assert first in before && forall f :: f in rest ==> f in before;
      assert pending[0] == first && pending[1..] == rest + ([name] + after);
      StopsExactly(With(img, scripts(first), first), scripts, rest, name, after, fates);
      var done := rest + if fates(name) == CrashInCommit(true) then [name] else [];
      ExtendedByOne(img, scripts, first);
      ExtendedTwice(img, scripts, [first], done);
      assert [first] + done == before + if fates(name) == CrashInCommit(true) then [name] else [];
    }
  }

  /** A run makes the first few pending migrations durable, and all of them if it ends normally. */
  lemma {:induction false} ApplyAllProgresses(img: Image, scripts: string -> seq<string>, pending: seq<string>,
                                              fates: string -> Fate)
    ensures var (last, outcome) := ApplyAll(img, scripts, pending, fates);
      && last == Extended(img, scripts, pending[..Progress(pending, fates)])
      && (outcome.Finished? ==> outcome.ran == pending && Progress(pending, fates) == |pending|)
    decreases |pending|
  {
    hide Extended, With, Statements;
    if pending == [] {
      ExtendedByNone(img, scripts);
    } else {
      var name, rest := pending[0], pending[1..];
      var k := Progress(pending, fates);
      ExtendedByOne(img, scripts, name);
      if fates(name) == Clean {
        var next := With(img, scripts(name), name);
        ApplyAllProgresses(next, scripts, rest, fates);
        ExtendedTwice(img, scripts, [name], rest[..k - 1]);
        assert [name] + rest[..k - 1] == pending[..k] && [name] + rest == pending;
      } else {
        assert pending[..0] == [] && pending[..1] == [name];
        ExtendedByNone(img, scripts);
      }
    }
  }

  lemma ExtendedByNone(img: Image, scripts: string -> seq<string>)
    ensures Extended(img, scripts, []) == img
  {
    assert img.content + [] == img.content && img.recorded + [] == img.recorded;
  }

  lemma ExtendedByOne(img: Image, scripts: string -> seq<string>, name: string)
    ensures Extended(img, scripts, [name]) == With(img, scripts(name), name)
  {
    assert [name][1..] == [];
    assert Statements(scripts, [name]) == scripts(name) + [];
  }

  /** Any start, whatever goes wrong, makes the first few pending migrations durable, whole and in
      order; it ends normally only after all of them. */
  lemma LaunchProgresses(img: Image, scripts: string -> seq<string>, launch: Launch) returns (k: nat)
    ensures var pending := NotIn(Files(launch.listing), img.recorded);
      var (last, outcome) := Launched(img, scripts, launch);
      && k <= |pending| && last == Extended(img, scripts, pending[..k])
      && (outcome.Finished? ==> outcome.ran == pending && k == |pending|)
  {
    hide Extended, ApplyAll, Files, NotIn;
    var pending := NotIn(Files(launch.listing), img.recorded);
    ApplyAllProgresses(img, scripts, pending, launch.fates);
    var (last, outcome) := Launched(img, scripts, launch);
    k := Progress(pending, launch.fates);
    if launch.setup != Ready
       || (BacksUp(pending, img, launch.backup) && (launch.backup == CopyThrows || launch.backup == CopyCrashes)) {
      k := 0;
      assert pending[..0] == [];
      ExtendedByNone(img, scripts);
    }
  }

  /** In which order a start applies the migrations, however it ends: the ones it makes durable are
      pending scripts in ascending order of their names, none is passed over, and a start that ends
      normally applies and returns them all. */
  lemma AscendingOrder(img: Image, scripts: string -> seq<string>, launch: Launch) returns (ran: seq<string>)
    requires StableSort.Distinct(launch.listing)
    ensures var (last, outcome) := Launched(img, scripts, launch);
      && last.recorded == img.recorded + ran && last.content == img.content + Statements(scripts, ran)
      && Ascending(ran) && (forall f :: f in ran ==> IsPending(img, launch, f))
      && (forall f, g :: f in ran && IsPending(img, launch, g) && StandsBefore(g, f) ==> g in ran)
      && (outcome.Finished? ==> outcome.ran == ran && forall f :: f in ran <==> IsPending(img, launch, f))
  {
    hide Launched, Files, NotIn, IsPending, StandsBefore, Statements;
    var pending := NotIn(Files(launch.listing), img.recorded);
    var k := LaunchProgresses(img, scripts, launch);
    ran := pending[..k];
    FilesAscend(launch.listing);
    NotInAscends(Files(launch.listing), img.recorded);
    forall f ensures f in pending <==> IsPending(img, launch, f) { PendingExactly(img, launch, f); }
    forall f, g | f in ran && g in pending && StandsBefore(g, f) ensures g in ran {
      var i :| 0 <= i < k && ran[i] == f;
      var j :| 0 <= j < |pending| && pending[j] == g;
      if j >= k {
        assert StandsBefore(pending[i], pending[j]);
        OneWay(f, g);
      } else {
        assert ran[j] == g;
      }
    }
    assert k == |pending| ==> ran == pending;
  }

  lemma OneWay(a: string, b: string)
    ensures !(StandsBefore(a, b) && StandsBefore(b, a))
  {
    BelowStands(a, b);
    BelowStands(b, a);
    BelowTotal(a, b);
  }

  // ---------------------------------------------------------------- over whole histories

  /** The recorded names are exactly the migrations in effect, each once. */
  ghost predicate Consistent(img: Image, scripts: string -> seq<string>) {
    img.content == Statements(scripts, img.recorded) && StableSort.Distinct(img.recorded)
  }

  /** Starting the program again and again, from one committed state to the next. */
  function History(img: Image, scripts: string -> seq<string>, launches: seq<Launch>): Image
    decreases |launches|
  {
    if launches == [] then img else History(Launched(img, scripts, launches[0]).0, scripts, launches[1..])
  }

  lemma {:induction false} NotInDistinct(files: seq<string>, recorded: seq<string>)
    requires StableSort.Distinct(files)
    ensures StableSort.Distinct(NotIn(files, recorded))
  {
    if files != [] {
      NotInDistinct(files[1..], recorded);
      var rest := NotIn(files[1..], recorded);
      forall j | 0 <= j < |rest| ensures rest[j] != files[0] {
        assert rest[j] in rest && rest[j] in files[1..];
      }
    }
  }

  lemma DistinctAppend(a: seq<string>, b: seq<string>, k: nat)
    requires StableSort.Distinct(a) && StableSort.Distinct(b) && k <= |b|
    requires forall x :: x in b ==> x !in a
    ensures StableSort.Distinct(a + b[..k])
  {
    forall i, j | 0 <= i < j < |a + b[..k]| ensures (a + b[..k])[i] != (a + b[..k])[j] {
      if i < |a| <= j { assert b[j - |a|] in b; }
    }
  }

  lemma LaunchConsistent(img: Image, scripts: string -> seq<string>, launch: Launch)
    requires Consistent(img, scripts) && StableSort.Distinct(launch.listing)
    ensures Consistent(Launched(img, scripts, launch).0, scripts)
  {
    hide Launched, Files, NotIn, Statements;
    var pending := NotIn(Files(launch.listing), img.recorded);
    var k := LaunchProgresses(img, scripts, launch);
    StatementsConcat(scripts, img.recorded, pending[..k]);
    FilesDistinct(launch.listing);
    NotInDistinct(Files(launch.listing), img.recorded);
    DistinctAppend(img.recorded, pending, k);
  }

  /** After any number of starts, with any releases' files and any failures. */
  lemma {:induction false} HistoryConsistent(img: Image, scripts: string -> seq<string>, launches: seq<Launch>)
    requires Consistent(img, scripts)
    requires forall l :: l in launches ==> StableSort.Distinct(l.listing)
    ensures Consistent(History(img, scripts, launches), scripts)
    decreases |launches|
  {
    hide Consistent, Launched;
    if launches != [] {
      assert launches[0] in launches && forall l :: l in launches[1..] ==> l in launches;
      LaunchConsistent(img, scripts, launches[0]);
      HistoryConsistent(Launched(img, scripts, launches[0]).0, scripts, launches[1..]);
    }
  }

  /** What a start with nothing going wrong makes of img. */
  function Upgraded(img: Image, scripts: string -> seq<string>, files: seq<string>): Image {
    Extended(img, scripts, NotIn(files, img.recorded))
  }

  lemma {:induction false} StillPending(files: seq<string>, recorded: seq<string>, k: nat)
    requires StableSort.Distinct(files) && k <= |NotIn(files, recorded)|
    ensures NotIn(files, recorded + NotIn(files, recorded)[..k]) == NotIn(files, recorded)[k..]
  {
    hide NotIn;
    var pending := NotIn(files, recorded);
    if files == [] {
      NotInEnd(files, recorded);
      NotInEnd(files, recorded + pending[..k]);
      assert files[|files|..] == files;
    } else if k == 0 {
      assert recorded + pending[..0] == recorded;
    } else {
      var rest := NotIn(files[1..], recorded);
      NotInFrom(files, 0, recorded);
      NotInFrom(files, 0, recorded + pending[..k]);
      assert files[0..] == files;
      if files[0] in recorded {
        StillPending(files[1..], recorded, k);
      } else {
        StillPending(files[1..], recorded, k - 1);
        assert pending[..k] == [files[0]] + rest[..k - 1] && pending[k..] == rest[k - 1..];
        assert files[0] in recorded + pending[..k];
        SameMembers(files[1..], recorded + pending[..k], recorded + rest[..k - 1], files[0]);
      }
    }
  }

  /** A recorded name that is not among the files makes no difference. */
  lemma {:induction false} SameMembers(files: seq<string>, a: seq<string>, b: seq<string>, extra: string)
    requires extra !in files && forall x :: x != extra ==> (x in a <==> x in b)
    ensures NotIn(files, a) == NotIn(files, b)
  {
    if files != [] {
      assert files[0] in files;
      SameMembers(files[1..], a, b, extra);
    }
  }

  lemma {:induction false} NotInConcat(a: seq<string>, b: seq<string>, recorded: seq<string>)
    ensures NotIn(a + b, recorded) == NotIn(a, recorded) + NotIn(b, recorded)
    decreases |a|
  {
    if a == [] {
      assert a + b == b;
    } else {
      assert (a + b)[1..] == a[1..] + b;
      NotInConcat(a[1..], b, recorded);
    }
  }

  /** A start with the first of these files takes nothing from what the next one has to reach. */
  lemma FilesAbsorbed(img: Image, scripts: string -> seq<string>, launch: Launch, files: seq<string>)
    requires StableSort.Distinct(files) && Files(launch.listing) <= files
    ensures var (last, outcome) := Launched(img, scripts, launch);
      && Upgraded(last, scripts, files) == Upgraded(img, scripts, files)
      && (outcome.Finished? && Files(launch.listing) == files ==>
            last == Upgraded(img, scripts, files) && NotIn(files, last.recorded) == [])
  {
    hide Launched, Files, NotIn, Statements, Extended;
    var own := Files(launch.listing);
    var pending := NotIn(files, img.recorded);
    var k := LaunchProgresses(img, scripts, launch);
    NotInConcat(own, files[|own|..], img.recorded);
    assert own + files[|own|..] == files;
    assert NotIn(own, img.recorded)[..k] == pending[..k];
    StillPending(files, img.recorded, k);
    ExtendedTwice(img, scripts, pending[..k], pending[k..]);
    assert pending[..k] + pending[k..] == pending;
    assert Extended(img, scripts, pending[..k]).recorded == img.recorded + pending[..k] by { ExtendedRecords(img, scripts, pending[..k]); }
    assert k == |pending| ==> pending[..k] == pending && pending[k..] == [];
  }

  lemma ExtendedRecords(img: Image, scripts: string -> seq<string>, names: seq<string>)
    ensures Extended(img, scripts, names).recorded == img.recorded + names
  {
  }

  lemma {:induction false} HistoryAbsorbed(img: Image, scripts: string -> seq<string>, launches: seq<Launch>,
                                           listing: seq<string>)
    requires StableSort.Distinct(listing) && forall l :: l in launches ==> ComesFirst(l.listing, listing)
    ensures Upgraded(History(img, scripts, launches), scripts, Files(listing)) == Upgraded(img, scripts, Files(listing))
    decreases |launches|
  {
    hide Launched, Files, Upgraded, ComesFirst;
    if launches != [] {
      assert launches[0] in launches && forall l :: l in launches[1..] ==> l in launches;
      FilesFirst(launches[0].listing, listing);
      FilesDistinct(listing);
      FilesAbsorbed(img, scripts, launches[0], Files(listing));
      HistoryAbsorbed(Launched(img, scripts, launches[0]).0, scripts, launches[1..], listing);
    }
  }

  /** A start that nothing disturbs. */
  function Undisturbed(listing: seq<string>): Launch { Launch(listing, Ready, NoDirectory, (name: string) => Clean) }

  lemma UndisturbedReaches(img: Image, scripts: string -> seq<string>, listing: seq<string>)
    requires StableSort.Distinct(listing)
    ensures Launched(img, scripts, Undisturbed(listing)).0 == Upgraded(img, scripts, Files(listing))
    ensures Launched(img, scripts, Undisturbed(listing)).1.Finished?
  {
    hide Launched, Files, Upgraded;
    FilesDistinct(listing);
    UndisturbedFinishes(img, scripts, listing);
    FilesAbsorbed(img, scripts, Undisturbed(listing), Files(listing));
  }

  /** A start of this release or of an older one, whatever became of it, takes nothing from what an
      undisturbed start would reach; one of this release that ends normally has reached it. */
  lemma LaunchAbsorbed(img: Image, scripts: string -> seq<string>, launch: Launch, listing: seq<string>)
    requires ComesFirst(launch.listing, listing)
    ensures var (last, outcome) := Launched(img, scripts, launch);
      var reached := Launched(img, scripts, Undisturbed(listing)).0;
      && Launched(last, scripts, Undisturbed(listing)).0 == reached
      && (outcome.Finished? && multiset(launch.listing) == multiset(listing) ==> last == reached)
  {
    hide Launched, Files, Upgraded;
    FilesFirst(launch.listing, listing);
    FilesDistinct(listing);
    FilesAbsorbed(img, scripts, launch, Files(listing));
    UndisturbedReaches(img, scripts, listing);
    UndisturbedReaches(Launched(img, scripts, launch).0, scripts, listing);
    if multiset(launch.listing) == multiset(listing) { FilesSame(launch.listing, listing); }
  }

  /** However many starts failed or died before, of this release or of older ones, the one that
      completes leaves the database a single undisturbed start would have left, with every script
      recorded; whatever starts after it changes nothing, and returns [] if it gets as far as the files. */
  lemma CompletingStart(img: Image, scripts: string -> seq<string>, earlier: seq<Launch>, last: Launch, next: Launch)
    requires ComesFirst(next.listing, last.listing)
    requires forall l :: l in earlier ==> ComesFirst(l.listing, last.listing)
    requires Launched(History(img, scripts, earlier), scripts, last).1.Finished?
    ensures var end := Launched(History(img, scripts, earlier), scripts, last).0;
      && Launched(img, scripts, Undisturbed(last.listing)).0 == end
      && (forall f :: f in last.listing && IsScript(f) ==> f in end.recorded)
      && Launched(end, scripts, next).0 == end
      && (next.setup == Ready ==> Launched(end, scripts, next).1 == Finished([]))
  {
    hide Launched, Files, Upgraded, NotIn, IsScript, StandsBefore;
    var files := Files(last.listing);
    FilesDistinct(last.listing);
    HistoryAbsorbed(img, scripts, earlier, last.listing);
    FilesAbsorbed(History(img, scripts, earlier), scripts, last, files);
    UndisturbedReaches(img, scripts, last.listing);
    var end := Launched(History(img, scripts, earlier), scripts, last).0;
    var own := Files(next.listing);
    FilesFirst(next.listing, last.listing);
    NotInConcat(own, files[|own|..], end.recorded);
    assert own + files[|own|..] == files;
    NothingToDo(end, scripts, next);
    forall f | f in last.listing && IsScript(f) ensures f in end.recorded {
      IsFile(last.listing, f);
      assert f !in NotIn(files, end.recorded);
    }
  }

  lemma UndisturbedFinishes(img: Image, scripts: string -> seq<string>, listing: seq<string>)
    ensures Launched(img, scripts, Undisturbed(listing)).1.Finished?
  {
    hide Files, NotIn, ApplyAll;
    FinishesExactly(img, scripts, NotIn(Files(listing), img.recorded), Undisturbed(listing).fates);
  }

  lemma NothingToDo(img: Image, scripts: string -> seq<string>, launch: Launch)
    requires NotIn(Files(launch.listing), img.recorded) == []
    ensures Launched(img, scripts, launch).0 == img
    ensures launch.setup == Ready ==> Launched(img, scripts, launch).1 == Finished([])
  {
    hide Files, NotIn;
  }

  /** Exactly when a start takes a copy, after which migration it is named, and that a database with
      something in it changes only after one was taken, where copies are kept. */
  lemma CopyExactly(img: Image, scripts: string -> seq<string>, launch: Launch)
    requires StableSort.Distinct(launch.listing)
    ensures var copies := CopiesTaken(img, launch);
      && (copies != [] <==>
            launch.setup == Ready && launch.backup == Copied && img.recorded != [] && exists f :: IsPending(img, launch, f))
      && (copies != [] ==>
            var first := copies[0].firstPending;
            && copies == [Copy(first, img)] && IsPending(img, launch, first)
            && forall f :: IsPending(img, launch, f) ==> f == first || StandsBefore(first, f))
      && (Launched(img, scripts, launch).0 != img && img.recorded != [] && launch.backup != NoDirectory ==> copies != [])
  {
    hide Files, NotIn, StandsBefore, IsPending;
    var pending := NotIn(Files(launch.listing), img.recorded);
    FilesAscend(launch.listing);
    NotInAscends(Files(launch.listing), img.recorded);
    forall f ensures f in pending <==> IsPending(img, launch, f) { PendingExactly(img, launch, f); }
    ApplyNone(img, scripts, launch.fates);
    if pending != [] {
      assert pending[0] in pending;
      forall f | f in pending ensures f == pending[0] || StandsBefore(pending[0], f) {
        var i :| 0 <= i < |pending| && pending[i] == f;
      }
    }
  }
}
