/** public/admin-upload.js: the counters that decide when the page reloads, under any interleaving of
    the uploads' callbacks and the user's clicks. */
module UploadQueue {

  /** A row's buttons. */
  datatype Row = Row(cancelShown: bool, retryShown: bool)

  datatype Counters = Counters(active: int, succeeded: nat, reloads: nat, rows: seq<Row>)

  /** `AbortSettles`: the promise that `upload.abort(true)` returned during that attempt is fulfilled
      or rejected; either way the row does the same. */
  datatype Event =
    | Enqueue(tooLarge: bool)
    | OnError(row: nat)
    | OnSuccess(row: nat)
    | ClickCancel(row: nat)
    | AbortSettles(row: nat, attempt: nat)
    | ClickRetry(row: nat)

  predicate Concerns(event: Event, rows: nat) { event.Enqueue? || event.row < rows }

  /** The events whose handler ends in `settle`. */
  predicate Settles(event: Event) { event.OnError? || event.OnSuccess? || event.AbortSettles? }

  // ---------------------------------------------------------------- what each callback does

  function Settled(c: Counters): Counters {
    var active := c.active - 1;
    c.(active := active, reloads := c.reloads + (if active == 0 && c.succeeded > 0 then 1 else 0))
  }

  function Step(c: Counters, event: Event): (r: Counters)
    requires Concerns(event, |c.rows|)
  {
    match event
    case Enqueue(tooLarge) =>
      if tooLarge then c.(rows := c.rows + [Row(false, false)])
      else c.(active := c.active + 1, rows := c.rows + [Row(true, false)])
    case OnError(i) => Settled(c.(rows := c.rows[i := Row(false, true)]))
    case OnSuccess(i) => Settled(c.(rows := c.rows[i := Row(false, false)], succeeded := c.succeeded + 1))
    case ClickCancel(i) => c
    case AbortSettles(i, _) => Settled(c.(rows := c.rows[i := c.rows[i].(cancelShown := false)]))
    case ClickRetry(i) => c.(active := c.active + 1, rows := c.rows[i := Row(true, false)])
  }

  class Page {
    var active: int
    var succeeded: nat
    var reloads: nat
    var rows: seq<Row>

    ghost function Now(): Counters
      reads this
    {
      Counters(active, succeeded, reloads, rows)
    }

    constructor ()
      ensures Now() == Counters(0, 0, 0, [])
    {
      active, succeeded, reloads, rows := 0, 0, 0, [];
    }

    method Settle()
      modifies this`active, this`reloads
      ensures Now() == Settled(old(Now()))
    {
      active := active - 1;
      if active == 0 && succeeded > 0 { reloads := reloads + 1; }
    }

    /** Returns the new row's place. */
    method AddFile(size: nat, maxFileBytes: nat) returns (i: nat)
      modifies this
      ensures Now() == Step(old(Now()), Enqueue(size > maxFileBytes)) && i == old(|rows|)
    {
      i := |rows|;
      if size > maxFileBytes {
        rows := rows + [Row(false, false)];
        return;
      }
      rows := rows + [Row(true, false)];
      active := active + 1;
    }

    method Failed(i: nat)
      requires i < |rows|
      modifies this
      ensures Now() == Step(old(Now()), OnError(i))
    {
      rows := rows[i := Row(false, true)];
      Settle();
    }

    method Succeeded(i: nat)
      requires i < |rows|
      modifies this
      ensures Now() == Step(old(Now()), OnSuccess(i))
    {
      rows := rows[i := Row(false, false)];
      succeeded := succeeded + 1;
      Settle();
    }

    method Aborted(i: nat, ghost attempt: nat)
      requires i < |rows|
      modifies this
      ensures Now() == Step(old(Now()), AbortSettles(i, attempt))
    {
      rows := rows[i := rows[i].(cancelShown := false)];
      Settle();
    }

    method Retry(i: nat)
      requires i < |rows|
      modifies this
      ensures Now() == Step(old(Now()), ClickRetry(i))
    {
      rows := rows[i := Row(true, false)];
      active := active + 1;
    }
  }

  // ---------------------------------------------------------------- the uploads themselves

  /** A file's latest attempt, whether it is under way, the attempts of open abort promises, and
      whether the latest attempt ended in an error. */
  datatype Upload = Upload(running: bool, attempt: nat, aborts: multiset<nat>, failed: bool)

  /** `extra` counts the calls of `settle` that ended no attempt; `reloadedOver` lists how many
      attempts were under way at each reload. */
  datatype World = World(page: Counters, uploads: seq<Upload>, extra: nat, reloadedOver: seq<nat>)

  function Running(uploads: seq<Upload>): (n: nat) {
    if uploads == [] then 0 else (if uploads[0].running then 1 else 0) + Running(uploads[1..])
  }

  /** A button can be clicked while it is shown, and a promise settles once. What the upload library
      reports, and when, is left open. */
  predicate Possible(w: World, event: Event) {
    && |w.uploads| == |w.page.rows| && Concerns(event, |w.uploads|)
    && match event
       case ClickCancel(i) => w.page.rows[i].cancelShown
       case ClickRetry(i) => w.page.rows[i].retryShown
       case AbortSettles(i, attempt) => attempt in w.uploads[i].aborts
       case _ => true
  }

  function UploadsAfter(uploads: seq<Upload>, event: Event): seq<Upload>
    requires Concerns(event, |uploads|)
  {
    match event
    case Enqueue(tooLarge) => uploads + [Upload(!tooLarge, 0, multiset{}, false)]
    case OnError(i) => uploads[i := uploads[i].(running := false, failed := true)]
    case OnSuccess(i) => uploads[i := uploads[i].(running := false, failed := false)]
    case ClickCancel(i) => uploads[i := uploads[i].(aborts := uploads[i].aborts + multiset{uploads[i].attempt})]
    case AbortSettles(i, attempt) =>
      uploads[i := uploads[i].(running := uploads[i].running && attempt != uploads[i].attempt,
                               aborts := uploads[i].aborts - multiset{attempt})]
    case ClickRetry(i) => uploads[i := uploads[i].(running := true, attempt := uploads[i].attempt + 1, failed := false)]
  }

  /** A settle that ends no attempt. */
  predicate IsExtra(w: World, event: Event)
    requires Possible(w, event)
  {
    Settles(event) && var u := w.uploads[event.row];
      !(u.running && (event.AbortSettles? ==> event.attempt == u.attempt))
  }

  function Next(w: World, event: Event): (r: World)
    requires Possible(w, event)
  {
    var page := Step(w.page, event);
    var uploads := UploadsAfter(w.uploads, event);
    World(page, uploads, w.extra + (if IsExtra(w, event) then 1 else 0),
          if page.reloads > w.page.reloads then w.reloadedOver + [Running(uploads)] else w.reloadedOver)
  }

  ghost predicate PossibleAll(w: World, events: seq<Event>)
    decreases |events|
  {
    events == [] || (Possible(w, events[0]) && PossibleAll(Next(w, events[0]), events[1..]))
  }

  function After(w: World, events: seq<Event>): World
    requires PossibleAll(w, events)
    decreases |events|
  {
    if events == [] then w else After(Next(w, events[0]), events[1..])
  }

  const FRESH := World(Counters(0, 0, 0, []), [], 0, [])

  lemma {:induction false} RunningUpdated(uploads: seq<Upload>, i: nat, u: Upload)
    requires i < |uploads|
    ensures Running(uploads[i := u]) + (if uploads[i].running then 1 else 0)
         == Running(uploads) + (if u.running then 1 else 0)
  {
    if i > 0 {
      assert uploads[i := u][1..] == uploads[1..][i - 1 := u];
      RunningUpdated(uploads[1..], i - 1, u);
    } else {
      assert uploads[i := u][1..] == uploads[1..];
    }
  }

  lemma {:induction false} RunningAppended(uploads: seq<Upload>, u: Upload)
    ensures Running(uploads + [u]) == Running(uploads) + (if u.running then 1 else 0)
  {
    if uploads == [] {
      assert [u][1..] == [];
    } else {
      assert (uploads + [u])[1..] == uploads[1..] + [u];
      RunningAppended(uploads[1..], u);
    }
  }

  /** The counter against the truth, and a row without an upload under way offers only what fits. */
  ghost predicate Balanced(w: World) {
    && |w.uploads| == |w.page.rows|
    && w.page.active == Running(w.uploads) - w.extra
    && |w.reloadedOver| == w.page.reloads
    && (forall n :: n in w.reloadedOver ==> n <= w.extra)
    && forall i :: 0 <= i < |w.uploads| ==> (w.page.rows[i].retryShown ==> !w.uploads[i].running)
  }

  lemma NextRunning(w: World, event: Event)
    requires Balanced(w) && Possible(w, event)
    ensures Next(w, event).page.active == Running(Next(w, event).uploads) - Next(w, event).extra
  {
    hide Running;
    if event.Enqueue? {
      RunningAppended(w.uploads, Upload(!event.tooLarge, 0, multiset{}, false));
    } else {
      RunningUpdated(w.uploads, event.row, UploadsAfter(w.uploads, event)[event.row]);
    }
  }

  lemma NextBalanced(w: World, event: Event)
    requires Balanced(w) && Possible(w, event)
    ensures Balanced(Next(w, event))
  {
    hide Running;
    NextRunning(w, event);
  }

  lemma {:induction false} StaysBalanced(w: World, events: seq<Event>)
    requires Balanced(w) && PossibleAll(w, events)
    ensures Balanced(After(w, events))
    decreases |events|
  {
    hide Balanced;
    if events != [] {
      NextBalanced(w, events[0]);
      StaysBalanced(Next(w, events[0]), events[1..]);
    }
  }

  /** The uploads that were reported successful. */
  function Successes(events: seq<Event>): nat {
    if events == [] then 0 else (if events[0].OnSuccess? then 1 else 0) + Successes(events[1..])
  }

  lemma {:induction false} SuccessesCounted(w: World, events: seq<Event>)
    requires PossibleAll(w, events)
    ensures After(w, events).page.succeeded == w.page.succeeded + Successes(events)
    decreases |events|
  {
    hide Running, Possible;
    if events != [] { SuccessesCounted(Next(w, events[0]), events[1..]); }
  }

  /** A fresh page satisfies all of it. */
  lemma FreshIsTidy()
    ensures Tidy(FRESH)
  {
  }

  lemma CountedRight(w: World)
    requires Balanced(w)
    ensures w.page.active == Running(w.uploads) - w.extra
    ensures forall n :: n in w.reloadedOver ==> n <= w.extra
  {
  }

  /** At every moment of every interleaving, `active` is the number of attempts under way less the
      settles that ended none; so it is that number exactly as long as there was no such settle.
      `succeeded` is the number of successes reported. */
  lemma CounterIsExact(events: seq<Event>)
    requires PossibleAll(FRESH, events)
    ensures var end := After(FRESH, events);
      && Balanced(end)
      && end.page.active == Running(end.uploads) - end.extra
      && (end.page.active == Running(end.uploads) <==> end.extra == 0)
      && end.page.succeeded == Successes(events)
  {
    hide Balanced, Possible, Next;
    SuccessesCounted(FRESH, events);
    FreshIsTidy();
    StaysBalanced(FRESH, events);
    CountedRight(After(FRESH, events));
  }

  /** When the page reloads: exactly at a settle that leaves as many attempts under way as there were
      settles too many, after a success. */
  lemma ReloadsExactly(w: World, event: Event)
    requires Balanced(w) && Possible(w, event)
    ensures var r := Next(w, event);
      (r.page.reloads > w.page.reloads) <==>
        (Settles(event) && Running(r.uploads) == r.extra && r.page.succeeded > 0)
  {
    hide Running;
    NextRunning(w, event);
  }

  // ---------------------------------------------------------------- one ending per attempt

  /** The library reports nothing once an abort was asked for, and Cancel is clicked once. */
  predicate Orderly(w: World, event: Event)
    requires Possible(w, event)
  {
    match event
    case OnError(i) => w.uploads[i].running && w.uploads[i].aborts == multiset{}
    case OnSuccess(i) => w.uploads[i].running && w.uploads[i].aborts == multiset{}
    case ClickCancel(i) => w.uploads[i].aborts == multiset{}
    case _ => true
  }

  ghost predicate OrderlyAll(w: World, events: seq<Event>)
    requires PossibleAll(w, events)
    decreases |events|
  {
    events == [] || (Orderly(w, events[0]) && OrderlyAll(Next(w, events[0]), events[1..]))
  }

  /** Open aborts belong to an attempt under way, one at most; Cancel is shown while the upload runs,
      and Retry when it has failed. */
  predicate TidyRow(u: Upload, row: Row) {
    && u.aborts <= (if u.running then multiset{u.attempt} else multiset{})
    && (row.cancelShown <==> u.running)
    && (row.retryShown <==> u.failed)
    && (u.failed ==> !u.running)
  }

  ghost predicate Tidy(w: World) {
    && Balanced(w) && w.extra == 0
    && forall i :: 0 <= i < |w.uploads| ==> TidyRow(w.uploads[i], w.page.rows[i])
  }

  lemma NoneExtra(w: World, event: Event)
    requires Tidy(w) && Possible(w, event) && Orderly(w, event)
    ensures !IsExtra(w, event)
  {
    if event.AbortSettles? { assert TidyRow(w.uploads[event.row], w.page.rows[event.row]); }
  }

  lemma NextRowTidy(w: World, event: Event)
    requires Tidy(w) && Possible(w, event) && Orderly(w, event) && !event.Enqueue?
    ensures TidyRow(Next(w, event).uploads[event.row], Next(w, event).page.rows[event.row])
  {
    hide Running;
    assert TidyRow(w.uploads[event.row], w.page.rows[event.row]);
  }

  lemma NextTidy(w: World, event: Event)
    requires Tidy(w) && Possible(w, event) && Orderly(w, event)
    ensures Tidy(Next(w, event))
  {
    hide Running, Balanced, IsExtra, Orderly, TidyRow;
    assert |w.uploads| == |w.page.rows|;
    NextBalanced(w, event);
    NoneExtra(w, event);
    if event.Enqueue? {
      assert TidyRow(Upload(!event.tooLarge, 0, multiset{}, false), Row(!event.tooLarge, false)) by { NewRowTidy(!event.tooLarge); }
    } else {
      NextRowTidy(w, event);
    }
  }

  lemma NewRowTidy(started: bool)
    ensures TidyRow(Upload(started, 0, multiset{}, false), Row(started, false))
  {
  }

  lemma {:induction false} StaysTidy(w: World, events: seq<Event>)
    requires Tidy(w) && PossibleAll(w, events) && OrderlyAll(w, events)
    ensures Tidy(After(w, events))
    decreases |events|
  {
    hide Tidy, Orderly;
    if events != [] {
      NextTidy(w, events[0]);
      StaysTidy(Next(w, events[0]), events[1..]);
    }
  }

  lemma RowsShown(w: World)
    requires Tidy(w)
    ensures |w.page.rows| == |w.uploads|
    ensures forall i :: 0 <= i < |w.uploads| ==> w.page.rows[i] == Row(w.uploads[i].running, w.uploads[i].failed)
  {
    forall i | 0 <= i < |w.uploads| ensures w.page.rows[i] == Row(w.uploads[i].running, w.uploads[i].failed) {
      assert TidyRow(w.uploads[i], w.page.rows[i]);
    }
  }

  /** Then, over any number of files, retries included: the counter is right, each row shows Cancel
      exactly while its upload runs and Retry exactly when it has failed, no reload happens while
      anything is under way, and the settle that drains the queue after a success reloads. */
  lemma OrderlyUploads(events: seq<Event>)
    requires PossibleAll(FRESH, events) && OrderlyAll(FRESH, events)
    ensures var end := After(FRESH, events);
      && end.page.active == Running(end.uploads)
      && (forall n :: n in end.reloadedOver ==> n == 0)
      && |end.page.rows| == |end.uploads|
      && (forall i :: 0 <= i < |end.uploads| ==>
            end.page.rows[i] == Row(end.uploads[i].running, end.uploads[i].failed))
      && forall last :: Possible(end, last) && Orderly(end, last) && Settles(last) ==>
           ((Next(end, last).page.reloads > end.page.reloads) <==>
              (Running(Next(end, last).uploads) == 0 && Next(end, last).page.succeeded > 0))
  {
    hide Running, Balanced, Possible, Next, Orderly, TidyRow;
    FreshIsTidy();
    StaysTidy(FRESH, events);
    var end := After(FRESH, events);
    CountedRight(end);
    RowsShown(end);
    forall last | Possible(end, last) && Orderly(end, last) && Settles(last)
      ensures (Next(end, last).page.reloads > end.page.reloads) <==>
                (Running(Next(end, last).uploads) == 0 && Next(end, last).page.succeeded > 0)
    {
      ReloadsExactly(end, last);
      NextTidy(end, last);
    }
  }

  // ---------------------------------------------------------------- two clicks on Cancel

  lemma Preceded(w: World, event: Event, events: seq<Event>)
    requires Possible(w, event) && PossibleAll(Next(w, event), events)
    ensures PossibleAll(w, [event] + events)
    ensures After(w, [event] + events) == After(Next(w, event), events)
  {
    assert ([event] + events)[1..] == events;
  }

  /** Two rows, one of a file just finished and one whose Cancel is shown, and a third under way. */
  const BUSY := World(
    Counters(2, 1, 0, [Row(false, false), Row(true, false), Row(true, false)]),
    [Upload(false, 0, multiset{}, false), Upload(true, 0, multiset{}, false), Upload(true, 0, multiset{}, false)], 0, [])

  /** n files added, all under way. */
  function Started(n: nat): World {
    World(Counters(n, 0, 0, seq(n, _ => Row(true, false))), seq(n, _ => Upload(true, 0, multiset{}, false)), 0, [])
  }

  lemma OneMoreStarted(n: nat)
    ensures Started(0) == FRESH
    ensures Possible(Started(n), Enqueue(false)) && Next(Started(n), Enqueue(false)) == Started(n + 1)
  {
    hide Running;
  }

  lemma FirstSucceeds()
    ensures Possible(Started(3), OnSuccess(0)) && Next(Started(3), OnSuccess(0)) == BUSY
  {
    hide Running;
  }

  lemma BusyIsReached()
    ensures PossibleAll(FRESH, [Enqueue(false)] + ([Enqueue(false)] + ([Enqueue(false)] + ([OnSuccess(0)] + []))))
    ensures After(FRESH, [Enqueue(false)] + ([Enqueue(false)] + ([Enqueue(false)] + ([OnSuccess(0)] + [])))) == BUSY
  {
    hide Possible, Next, Started;
    OneMoreStarted(0);
    OneMoreStarted(1);
    OneMoreStarted(2);
    FirstSucceeds();
    Preceded(Started(3), OnSuccess(0), []);
    Preceded(Started(2), Enqueue(false), [OnSuccess(0)] + []);
    Preceded(Started(1), Enqueue(false), [Enqueue(false)] + ([OnSuccess(0)] + []));
    Preceded(Started(0), Enqueue(false), [Enqueue(false)] + ([Enqueue(false)] + ([OnSuccess(0)] + [])));
  }

  /** Cancel of the second row is clicked twice before the first abort settles; the second abort
      settles as well, and the page reloads with the third file under way. */
  lemma TwoClicksReloadTooEarly()
    ensures var events := [ClickCancel(1)] + ([ClickCancel(1)] + ([AbortSettles(1, 0)] + ([AbortSettles(1, 0)] + [])));
      && PossibleAll(BUSY, events)
      && After(BUSY, events).page.active == 0 && Running(After(BUSY, events).uploads) == 1
      && After(BUSY, events).extra == 1 && After(BUSY, events).reloadedOver == [1]
  {
    hide Running;
    var w1 := Next(BUSY, ClickCancel(1));
    var w2 := Next(w1, ClickCancel(1));
    var w3 := Next(w2, AbortSettles(1, 0));
    var w4 := Next(w3, AbortSettles(1, 0));
    var none := multiset{};
    assert w4.uploads == [Upload(false, 0, none, false), Upload(false, 0, none, false), Upload(true, 0, none, false)];
    OneRunning(Upload(false, 0, none, false), Upload(false, 0, none, false), Upload(true, 0, none, false));
    Preceded(w3, AbortSettles(1, 0), []);
    Preceded(w2, AbortSettles(1, 0), [AbortSettles(1, 0)] + []);
    Preceded(w1, ClickCancel(1), [AbortSettles(1, 0)] + ([AbortSettles(1, 0)] + []));
    Preceded(BUSY, ClickCancel(1), [ClickCancel(1)] + ([AbortSettles(1, 0)] + ([AbortSettles(1, 0)] + [])));
  }

  lemma OneRunning(a: Upload, b: Upload, c: Upload)
    requires !a.running && !b.running && c.running
    ensures Running([a, b, c]) == 1
  {
    assert [a, b, c][1..] == [b, c] && [b, c][1..] == [c] && [c][1..] == [];
    assert Running([b, c]) == Running([c]);
  }
}
