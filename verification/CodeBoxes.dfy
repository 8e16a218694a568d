/** public/otp.js: the row of one-digit boxes a code is typed, pasted or filled into; and what the
    server makes of the posted form (`codeFromBody`, `normalizeCode`). */
module CodeBoxes {
  import opened Text

  predicate IsNotDigit(c: char) { !IsDigit(c) }

  /** `replace(/\D+/g, '')` */
  function DigitsOf(text: string): string { Without(IsNotDigit, text) }

  /** The browser changes a box before `input`, to any text at all; `Focus` is the user's own. */
  datatype Event =
    | BeforeInput(box: nat, isPaste: bool, data: string)
    | Input(box: nat, value: string)
    | Keydown(box: nat, key: Key)
    | Paste(box: nat, text: Option<string>)
    | Focus(box: nat)

  datatype Key = Backspace | ArrowLeft | ArrowRight | Delete | OtherKey

  /** `posted` lists the forms submitted, each as the boxes then stood. */
  datatype State = State(boxes: seq<string>, bulk: seq<bool>, caret: nat, submitted: bool, posted: seq<seq<string>>)

  predicate IsDigitBox(box: string) { |box| == 1 && IsDigit(box[0]) }

  predicate Complete(boxes: seq<string>) { forall k :: 0 <= k < |boxes| ==> |boxes[k]| == 1 }

  function Min(a: nat, b: nat): nat { if a < b then a else b }

  // ---------------------------------------------------------------- what each handler does

  function Filled(boxes: seq<string>, start: nat, digits: string): (r: seq<string>)
    requires start <= |boxes|
    ensures |r| == |boxes|
    decreases |digits|
  {
    if digits == [] || start == |boxes| then boxes
    else Filled(boxes[start := [digits[0]]], start + 1, digits[1..])
  }

  function CaretAfter(n: nat, start: nat, digits: string): (i: nat)
    requires n > 0
    ensures i < n
  {
    Min(Min(start + |digits|, n), n - 1)
  }

  function Submitted(s: State, hasForm: bool): State {
    if hasForm && !s.submitted && Complete(s.boxes) then s.(submitted := true, posted := s.posted + [s.boxes]) else s
  }

  predicate Shaped(s: State) { |s.boxes| >= 2 && |s.bulk| == |s.boxes| && s.caret < |s.boxes| }

  function Step(s: State, event: Event, hasForm: bool): (r: State)
    requires Shaped(s) && event.box < |s.boxes|
    ensures Shaped(r) && |r.boxes| == |s.boxes|
  {
    var i, n := event.box, |s.boxes|;
    match event
    case BeforeInput(_, isPaste, data) => s.(bulk := s.bulk[i := isPaste || |DigitsOf(data)| > 1])
    case Input(_, value) =>
      var digits := DigitsOf(value);
      if digits == "" then s.(boxes := s.boxes[i := ""], bulk := s.bulk[i := false])
      else if s.bulk[i] then
        Submitted(s.(boxes := Filled(s.boxes[i := ""], i, digits), bulk := s.bulk[i := false],
                     caret := CaretAfter(n, i, digits)), hasForm)
      else
        Submitted(s.(boxes := s.boxes[i := [digits[|digits| - 1]]], caret := Min(i + 1, n - 1)), hasForm)
    case Keydown(_, key) =>
      if key == Backspace && s.boxes[i] == "" && i > 0 then s.(boxes := s.boxes[i - 1 := ""], caret := i - 1)
      else if key == ArrowLeft && i > 0 then s.(caret := i - 1)
      else if key == ArrowRight && i < n - 1 then s.(caret := i + 1)
      else if key == Delete then s.(boxes := s.boxes[i := ""])
      else s
    case Paste(_, text) =>
      if text.None? || DigitsOf(text.value) == "" then s
      else
        var digits := DigitsOf(text.value);
        var start := if |digits| >= n then 0 else i;
        Submitted(s.(boxes := Filled(s.boxes, start, digits), caret := CaretAfter(n, start, digits)), hasForm)
    case Focus(_) => s.(caret := i)
  }

  class Group {
    const boxes: array<string>
    const bulk: array<bool>
    const hasForm: bool
    var caret: nat
    var submitted: bool
    var posted: seq<seq<string>>

    ghost predicate Valid()
      reads this, boxes, bulk
    {
      bulk.Length == boxes.Length >= 2 && caret < boxes.Length
    }

    ghost function Now(): State
      reads this, boxes, bulk
    {
      State(boxes[..], bulk[..], caret, submitted, posted)
    }

    constructor (n: nat, hasForm: bool)
      requires n >= 2
      ensures Valid() && fresh(boxes) && fresh(bulk) && this.hasForm == hasForm
      ensures Now() == Untouched(n)
    {
      boxes := new string[n](_ => "");
      bulk := new bool[n](_ => false);
      this.hasForm := hasForm;
      caret, submitted, posted := 0, false, [];
      new;
      assert boxes[..] == Untouched(n).boxes && bulk[..] == Untouched(n).bulk;
    }

    method Fill(start: nat, digits: string) returns (at: nat)
      requires Valid() && start < boxes.Length
      modifies boxes
      ensures Valid() && boxes[..] == Filled(old(boxes[..]), start, digits)
      ensures at == CaretAfter(boxes.Length, start, digits)
    {
      var i, d := start, 0;
      while d < |digits| && i < boxes.Length
        invariant d <= |digits| && i == start + d <= boxes.Length
        invariant Filled(boxes[..], i, digits[d..]) == Filled(old(boxes[..]), start, digits)
      {
        ghost var before := boxes[..];
        boxes[i] := [digits[d]];
        assert boxes[..] == before[i := [digits[d]]];
        assert digits[d..][1..] == digits[d + 1..];
        d, i := d + 1, i + 1;
      }
      at := Min(i, boxes.Length - 1);
    }

    method MaybeSubmit()
      requires Valid()
      modifies this`submitted, this`posted
      ensures Now() == Submitted(old(Now()), hasForm)
    {
      if !hasForm || submitted { return; }
      var k := 0;
      while k < boxes.Length
        invariant k <= boxes.Length && forall j :: 0 <= j < k ==> |boxes[j]| == 1
      {
        if |boxes[k]| != 1 {
          assert boxes[..][k] == boxes[k];
          return;
        }
        k := k + 1;
      }
      submitted := true;
      posted := posted + [boxes[..]];
    }

    method OnBeforeInput(index: nat, isPaste: bool, data: string)
      requires Valid() && index < boxes.Length
      modifies bulk
      ensures Valid() && Now() == Step(old(Now()), BeforeInput(index, isPaste, data), hasForm)
    {
      bulk[index] := isPaste || |DigitsOf(data)| > 1;
    }

    /** `value` is what the browser has put into the box. */
    method OnInput(index: nat, value: string)
      requires Valid() && index < boxes.Length
      modifies this, boxes, bulk
      ensures Valid() && Now() == Step(old(Now()), Input(index, value), hasForm)
    {
      hide DigitsOf, Filled, CaretAfter, Submitted;
      boxes[index] := value;
      var digits := DigitsOf(boxes[index]);
      if digits == "" {
        boxes[index] := "";
        bulk[index] := false;
        assert boxes[..] == old(boxes[..])[index := ""];
        return;
      }
      if bulk[index] {
        bulk[index] := false;
        boxes[index] := "";
        assert boxes[..] == old(boxes[..])[index := ""];
        caret := Fill(index, digits);
      } else {
        boxes[index] := [digits[|digits| - 1]];
        assert boxes[..] == old(boxes[..])[index := [digits[|digits| - 1]]];
        caret := Min(index + 1, boxes.Length - 1);
      }
      MaybeSubmit();
    }

    method OnKeydown(index: nat, key: Key)
      requires Valid() && index < boxes.Length
      modifies this`caret, boxes
      ensures Valid() && Now() == Step(old(Now()), Keydown(index, key), hasForm)
    {
      assert boxes[..][index] == boxes[index];
      if key == Backspace && boxes[index] == "" && index > 0 {
        boxes[index - 1] := "";
        caret := index - 1;
      } else if key == ArrowLeft && index > 0 {
        caret := index - 1;
      } else if key == ArrowRight && index < boxes.Length - 1 {
        caret := index + 1;
      } else if key == Delete {
        boxes[index] := "";
      }
    }

    method OnPaste(index: nat, text: Option<string>)
      requires Valid() && index < boxes.Length
      modifies this, boxes
      ensures Valid() && Now() == Step(old(Now()), Paste(index, text), hasForm)
    {
      hide DigitsOf, Filled, CaretAfter, Submitted;
      if text.None? { return; }
      var digits := DigitsOf(text.value);
      if digits == "" { return; }
      caret := Fill(if |digits| >= boxes.Length then 0 else index, digits);
      MaybeSubmit();
    }

    method OnFocus(index: nat)
      requires Valid() && index < boxes.Length
      modifies this`caret
      ensures Valid() && Now() == Step(old(Now()), Focus(index), hasForm)
    {
      caret := index;
    }
  }

  function Untouched(n: nat): State {
    State(seq(n, _ => ""), seq(n, _ => false), 0, false, [])
  }

  // ---------------------------------------------------------------- every sequence of events

  predicate Runnable(n: nat, events: seq<Event>) { forall e :: e in events ==> e.box < n }

  function Run(s: State, events: seq<Event>, hasForm: bool): State
    requires Shaped(s) && Runnable(|s.boxes|, events)
    decreases |events|
  {
    if events == [] then s
    else
      assert events[0] in events && forall e :: e in events[1..] ==> e in events;
      Run(Step(s, events[0], hasForm), events[1..], hasForm)
  }

  predicate Tidy(boxes: seq<string>) { forall k :: 0 <= k < |boxes| ==> boxes[k] == "" || IsDigitBox(boxes[k]) }

  predicate AllFull(boxes: seq<string>) { forall k :: 0 <= k < |boxes| ==> IsDigitBox(boxes[k]) }

  /** Every box empty or one digit, and at most one form posted, with every box full. */
  ghost predicate Safe(s: State, hasForm: bool) {
    && Shaped(s) && Tidy(s.boxes)
    && |s.posted| == (if s.submitted then 1 else 0)
    && (forall p :: p in s.posted ==> |p| == |s.boxes| && AllFull(p))
    && (s.submitted ==> hasForm)
  }

  lemma DigitsAreDigits(text: string)
    ensures AllDigits(DigitsOf(text))
  {
  }

  lemma {:induction false} FilledAt(boxes: seq<string>, start: nat, digits: string, k: nat)
    requires start <= |boxes| && k < |boxes|
    ensures Filled(boxes, start, digits)[k]
         == if start <= k < start + |digits| then [digits[k - start]] else boxes[k]
    decreases |digits|
  {
    if digits != [] && start < |boxes| {
      FilledAt(boxes[start := [digits[0]]], start + 1, digits[1..], k);
    }
  }

  lemma FilledTidy(boxes: seq<string>, start: nat, digits: string)
    requires start <= |boxes| && Tidy(boxes) && AllDigits(digits)
    ensures Tidy(Filled(boxes, start, digits))
  {
    var r := Filled(boxes, start, digits);
    forall k | 0 <= k < |r| ensures r[k] == "" || IsDigitBox(r[k]) {
      FilledAt(boxes, start, digits, k);
      if start <= k < start + |digits| { assert digits[k - start] in digits; }
    }
  }

  lemma SubmittedSafe(s: State, hasForm: bool)
    requires Safe(s, hasForm)
    ensures Safe(Submitted(s, hasForm), hasForm)
  {
    var r := Submitted(s, hasForm);
    if r != s {
      assert forall k :: 0 <= k < |s.boxes| ==> s.boxes[k] != "";
      assert AllFull(s.boxes);
      assert r.posted == s.posted + [s.boxes] == [s.boxes];
    }
  }

  lemma InputSafe(s: State, i: nat, value: string, hasForm: bool)
    requires Safe(s, hasForm) && i < |s.boxes|
    ensures Safe(Step(s, Input(i, value), hasForm), hasForm)
  {
    hide DigitsOf, Filled, CaretAfter, Submitted;
    var digits, n := DigitsOf(value), |s.boxes|;
    DigitsAreDigits(value);
    if digits != "" {
      if s.bulk[i] {
        FilledTidy(s.boxes[i := ""], i, digits);
        SubmittedSafe(s.(boxes := Filled(s.boxes[i := ""], i, digits), bulk := s.bulk[i := false],
                         caret := CaretAfter(n, i, digits)), hasForm);
      } else {
        assert digits[|digits| - 1] in digits;
        SubmittedSafe(s.(boxes := s.boxes[i := [digits[|digits| - 1]]], caret := Min(i + 1, n - 1)), hasForm);
      }
    }
  }

  lemma PasteSafe(s: State, i: nat, text: string, hasForm: bool)
    requires Safe(s, hasForm) && i < |s.boxes|
    ensures Safe(Step(s, Paste(i, Some(text)), hasForm), hasForm)
  {
    hide DigitsOf, Filled, CaretAfter, Submitted;
    var digits, n := DigitsOf(text), |s.boxes|;
    DigitsAreDigits(text);
    if digits != "" {
      var start := if |digits| >= n then 0 else i;
      FilledTidy(s.boxes, start, digits);
      SubmittedSafe(s.(boxes := Filled(s.boxes, start, digits), caret := CaretAfter(n, start, digits)), hasForm);
    }
  }

  lemma StepSafe(s: State, event: Event, hasForm: bool)
    requires Safe(s, hasForm) && event.box < |s.boxes|
    ensures Safe(Step(s, event, hasForm), hasForm)
  {
    match event
    case Input(i, value) =>
      hide Step, Safe;
      InputSafe(s, i, value, hasForm);
    case Paste(i, text) =>
      if text.Some? { PasteSafe(s, i, text.value, hasForm); }
    case Keydown(i, key) =>
      hide Step, Safe;
    case _ =>
  }

  /** Over any events at all, from the row as it is served. */
  lemma {:induction false} RunSafe(s: State, events: seq<Event>, hasForm: bool)
    requires Safe(s, hasForm) && Runnable(|s.boxes|, events)
    ensures Safe(Run(s, events, hasForm), hasForm) && |Run(s, events, hasForm).boxes| == |s.boxes|
    decreases |events|
  {
    hide Step, Tidy, AllFull;
    if events != [] {
      assert events[0] in events && forall e :: e in events[1..] ==> e in events;
      StepSafe(s, events[0], hasForm);
      RunSafe(Step(s, events[0], hasForm), events[1..], hasForm);
    }
  }

  // ---------------------------------------------------------------- what the server reads

  /** The `code` of a posted body: absent or not a text, one text, or an array whose parts that are
      no text are None. */
  datatype Field = Absent | Single(text: string) | Several(parts: seq<Option<string>>)

  function JoinedParts(parts: seq<Option<string>>): string {
    if parts == [] then "" else (if parts[0].Some? then parts[0].value else "") + JoinedParts(parts[1..])
  }

  function CodeFromBody(code: Field): (r: string)
  {
    var joined := match code
      case Absent => ""
      case Single(text) => text
      case Several(parts) => JoinedParts(parts);
    joined[..Min(|joined|, 64)]
  }

  predicate IsSpaceOrDash(c: char) { IsSpace(c) || c == '-' }

  function NormalizeCode(raw: string): string { Without(IsSpaceOrDash, raw) }

  /** The body a browser posts for the boxes. */
  function Posted(boxes: seq<string>): Field { Several(seq(|boxes|, i requires 0 <= i < |boxes| => Some(boxes[i]))) }

  function Boxed(digits: string): seq<string> { seq(|digits|, i requires 0 <= i < |digits| => [digits[i]]) }

  lemma {:induction false} JoinedBoxes(digits: string)
    ensures JoinedParts(Posted(Boxed(digits)).parts) == digits
  {
    if digits != [] {
      JoinedBoxes(digits[1..]);
      assert Posted(Boxed(digits)).parts[1..] == Posted(Boxed(digits[1..])).parts;
      assert digits == [digits[0]] + digits[1..];
    } else {
      assert Posted(Boxed(digits)).parts == [];
    }
  }

  /** Full boxes read, from left to right, as the code the server compares. */
  lemma ServerReads(digits: string)
    requires AllDigits(digits) && |digits| <= 64
    ensures NormalizeCode(CodeFromBody(Posted(Boxed(digits)))) == digits
  {
    JoinedBoxes(digits);
    assert digits[..|digits|] == digits;
    WithoutNothing(IsSpaceOrDash, digits);
  }

  /** A code sent as one text is read without the white space and hyphens in it. */
  lemma TypedCodeReads(text: string, code: string)
    requires |text| <= 64 && Interspersed(c => IsSpace(c) || c == '-', text, code)
    ensures NormalizeCode(CodeFromBody(Single(text))) == code
  {
    WithoutInterspersed(c => IsSpace(c) || c == '-', IsSpaceOrDash, text, code);
    assert text[..|text|] == text;
  }

  lemma {:induction false} JoinedConcat(a: seq<Option<string>>, b: seq<Option<string>>)
    ensures JoinedParts(a + b) == JoinedParts(a) + JoinedParts(b)
  {
    if a == [] {
      assert a + b == b;
    } else {
      assert (a + b)[1..] == a[1..] + b;
      JoinedConcat(a[1..], b);
    }
  }

  lemma JoinedNone(a: seq<Option<string>>, b: seq<Option<string>>)
    ensures JoinedParts(a + [None] + b) == JoinedParts(a + b)
  {
    assert ([None] + b)[1..] == b;
    JoinedConcat(a, [None] + b);
    JoinedConcat(a, b);
    assert a + [None] + b == a + ([None] + b);
    assert "" + JoinedParts(b) == JoinedParts(b);
  }

  lemma JoinedOne(text: string)
    ensures JoinedParts([Some(text)]) == text
  {
    assert [Some(text)][1..] == [];
    assert text + "" == text;
  }

  /** Fields that are no text count as empty, one text counts as itself, and nothing is read behind
      the 64th character. */
  lemma BodyRead(a: seq<Option<string>>, b: seq<Option<string>>, text: string)
    ensures CodeFromBody(Several(a + [None] + b)) == CodeFromBody(Several(a + b))
    ensures CodeFromBody(Several([Some(text)])) == CodeFromBody(Single(text))
    ensures CodeFromBody(Single(text)) <= text && |CodeFromBody(Single(text))| == if |text| < 64 then |text| else 64
    ensures CodeFromBody(Absent) == ""
  {
    hide JoinedParts;
    JoinedNone(a, b);
    JoinedOne(text);
  }

  function Spelled(boxes: seq<string>): (digits: string)
    requires AllFull(boxes)
    ensures |digits| == |boxes|
  {
    seq(|boxes|, i requires 0 <= i < |boxes| => boxes[i][0])
  }

  lemma SpelledBoxed(boxes: seq<string>)
    requires AllFull(boxes)
    ensures AllDigits(Spelled(boxes)) && Boxed(Spelled(boxes)) == boxes
  {
    var digits := Spelled(boxes);
    forall c | c in digits ensures IsDigit(c) {
      var k :| 0 <= k < |digits| && digits[k] == c;
      assert IsDigitBox(boxes[k]);
    }
    forall k | 0 <= k < |boxes| ensures Boxed(digits)[k] == boxes[k] { assert IsDigitBox(boxes[k]); }
  }

  /** Whatever led up to it, what is posted by itself reads as one digit per box, in order. */
  lemma PostedCode(n: nat, events: seq<Event>, hasForm: bool)
    requires 2 <= n <= 64 && Runnable(n, events)
    ensures var end := Run(Untouched(n), events, hasForm);
      && Safe(end, hasForm)
      && forall p :: p in end.posted ==>
           AllFull(p) && |p| == n && NormalizeCode(CodeFromBody(Posted(p))) == Spelled(p)
  {
    hide Run, NormalizeCode, CodeFromBody, Posted, Boxed, Spelled;
    assert Safe(Untouched(n), hasForm);
    RunSafe(Untouched(n), events, hasForm);
    var end := Run(Untouched(n), events, hasForm);
    forall p | p in end.posted
      ensures AllFull(p) && |p| == n && NormalizeCode(CodeFromBody(Posted(p))) == Spelled(p)
    {
      SpelledBoxed(p);
      ServerReads(Spelled(p));
    }
  }

  // ---------------------------------------------------------------- pasting and typing a code

  lemma FilledWhole(boxes: seq<string>, digits: string)
    requires |digits| >= |boxes|
    ensures Filled(boxes, 0, digits) == Boxed(digits[..|boxes|])
  {
    hide Filled;
    var r := Filled(boxes, 0, digits);
    forall k | 0 <= k < |boxes| ensures r[k] == Boxed(digits[..|boxes|])[k] { FilledAt(boxes, 0, digits, k); }
  }

  /** In any state, pasting a text with at least as many digits as there are boxes, into any box,
      makes the row spell its first digits, whatever stands between them, and posts it unless
      something was posted before. */
  lemma PasteSpells(s: State, box: nat, text: string, hasForm: bool)
    requires Shaped(s) && box < |s.boxes| <= 64 && |DigitsOf(text)| >= |s.boxes|
    ensures var code := DigitsOf(text)[..|s.boxes|];
      var r := Step(s, Paste(box, Some(text)), hasForm);
      && r.boxes == Boxed(code)
      && NormalizeCode(CodeFromBody(Posted(r.boxes))) == code
      && r.submitted == (s.submitted || hasForm)
      && r.posted == (if hasForm && !s.submitted then s.posted + [Boxed(code)] else s.posted)
  {
    hide DigitsOf, Filled, NormalizeCode, CodeFromBody, Posted;
    var digits := DigitsOf(text);
    var code := digits[..|s.boxes|];
    DigitsAreDigits(text);
    assert forall c :: c in code ==> c in digits;
    FilledWhole(s.boxes, digits);
    ServerReads(code);
  }

  /** Digits d written from box `start` on: one in each box while both last, the other boxes as they
      were, and the caret behind the last one written, or in it at the end of the row. */
  ghost predicate Spread(before: seq<string>, start: nat, d: string, after: State) {
    var n := |before|;
    && |after.boxes| == n
    && (forall k :: 0 <= k < n ==> after.boxes[k] == if start <= k < start + |d| then [d[k - start]] else before[k])
    && after.caret == if start + |d| < n then start + |d| else n - 1
  }

  /** The form goes out once, when every box holds one character. */
  ghost predicate PostedOnce(before: State, after: State, hasForm: bool) {
    if hasForm && !before.submitted && (forall k :: 0 <= k < |after.boxes| ==> |after.boxes[k]| == 1)
    then after.submitted && after.posted == before.posted + [after.boxes]
    else after.submitted == before.submitted && after.posted == before.posted
  }

  lemma FilledSpread(s: State, start: nat, d: string, t: State)
    requires start < |s.boxes| && d != "" && t.caret == CaretAfter(|s.boxes|, start, d)
    requires t.boxes == Filled(s.boxes, start, d)
    ensures Spread(s.boxes, start, d, t)
  {
    hide Filled;
    forall k | 0 <= k < |s.boxes| ensures t.boxes[k] == if start <= k < start + |d| then [d[k - start]] else s.boxes[k] {
      FilledAt(s.boxes, start, d, k);
    }
  }

  lemma {:induction false} FilledOver(boxes: seq<string>, start: nat, x: string, d: string)
    requires start < |boxes| && d != ""
    ensures Filled(boxes[start := x], start, d) == Filled(boxes, start, d)
  {
    assert boxes[start := x][start := [d[0]]] == boxes[start := [d[0]]];
  }

  /** A box told beforehand of a paste, or of two digits or more, spreads what it is then given over
      the row from itself on; a whole code dropped into the first box is the code the server reads. */
  lemma BulkInputSpreads(s: State, i: nat, isPaste: bool, data: string, value: string, hasForm: bool)
    requires Shaped(s) && i < |s.boxes| && DigitsOf(value) != "" && (isPaste || |DigitsOf(data)| >= 2)
    ensures var d, n := DigitsOf(value), |s.boxes|;
      var r := Step(Step(s, BeforeInput(i, isPaste, data), hasForm), Input(i, value), hasForm);
      && Spread(s.boxes, i, d, r) && PostedOnce(s, r, hasForm) && r.bulk == s.bulk[i := false]
      && (i == 0 && n <= |d| && n <= 64 ==>
            && NormalizeCode(CodeFromBody(Posted(r.boxes))) == d[..n] && r.boxes == Boxed(d[..n])
            && (hasForm && !s.submitted ==> r.posted == s.posted + [Boxed(d[..n])]))
  {
    hide DigitsOf, Filled, CaretAfter, NormalizeCode, CodeFromBody, Posted;
    var d, n := DigitsOf(value), |s.boxes|;
    var r := Step(Step(s, BeforeInput(i, isPaste, data), hasForm), Input(i, value), hasForm);
    FilledOver(s.boxes, i, "", d);
    FilledSpread(s, i, d, r);
    assert s.bulk[i := true][i := false] == s.bulk[i := false];
    if i == 0 && n <= |d| && n <= 64 {
      DigitsAreDigits(value);
      assert forall c :: c in d[..n] ==> c in d;
      FilledWhole(s.boxes, d);
      ServerReads(d[..n]);
    }
  }

  /** A paste does the same from the first box on if it has a digit for every box, and from the box it
      went into if it has fewer. */
  lemma PasteSpreads(s: State, i: nat, text: string, hasForm: bool)
    requires Shaped(s) && i < |s.boxes| && DigitsOf(text) != ""
    ensures var d := DigitsOf(text);
      var r := Step(s, Paste(i, Some(text)), hasForm);
      && Spread(s.boxes, if |d| >= |s.boxes| then 0 else i, d, r) && PostedOnce(s, r, hasForm) && r.bulk == s.bulk
  {
    hide DigitsOf, Filled, CaretAfter;
    var d := DigitsOf(text);
    FilledSpread(s, if |d| >= |s.boxes| then 0 else i, d, Step(s, Paste(i, Some(text)), hasForm));
  }

  /** Text without a digit empties the box it was put into, and pasting it does nothing. */
  lemma NoDigitsKept(s: State, i: nat, text: string, hasForm: bool)
    requires Shaped(s) && i < |s.boxes| && forall c :: c in text ==> !('0' <= c <= '9')
    ensures Step(s, Input(i, text), hasForm) == s.(boxes := s.boxes[i := ""], bulk := s.bulk[i := false])
    ensures Step(s, Paste(i, Some(text)), hasForm) == Step(s, Paste(i, None), hasForm) == s
  {
    AllRemoved(IsNotDigit, text);
  }

  /** Typing one digit into the box with the caret: the browser leaves it there, perhaps next to
      what the box held. */
  function Typed(s: State, c: char, left: string, hasForm: bool): State
    requires Shaped(s)
  {
    var t := Step(s, BeforeInput(s.caret, false, [c]), hasForm);
    Step(t, Input(s.caret, left + [c]), hasForm)
  }

  function TypedAll(s: State, digits: string, hasForm: bool): State
    requires Shaped(s)
    decreases |digits|
  {
    if digits == [] then s else TypedAll(Typed(s, digits[0], s.boxes[s.caret], hasForm), digits[1..], hasForm)
  }

  lemma LastDigitWins(left: string, c: char)
    requires IsDigit(c)
    ensures var digits := DigitsOf(left + [c]);
      digits != [] && digits[|digits| - 1] == c && |DigitsOf([c])| == 1
  {
    WithoutConcat(IsNotDigit, left, [c]);
    assert [c][1..] == [];
  }

  lemma TypedOne(s: State, c: char, left: string, hasForm: bool)
    requires Shaped(s) && IsDigit(c)
    ensures Typed(s, c, left, hasForm)
         == Submitted(s.(boxes := s.boxes[s.caret := [c]], bulk := s.bulk[s.caret := false],
                         caret := Min(s.caret + 1, |s.boxes| - 1)), hasForm)
  {
    hide DigitsOf, Filled, CaretAfter, Submitted;
    LastDigitWins(left, c);
  }

  /** Typing the rest of a code, one digit a box, spells it; the form goes out with the last digit. */
  lemma {:induction false} TypingSpells(s: State, digits: string)
    requires Shaped(s) && AllDigits(digits) && digits != [] && s.caret + |digits| == |s.boxes|
    requires !s.submitted && AllFull(s.boxes[..s.caret]) && s.boxes[|s.boxes| - 1] == ""
    ensures var r := TypedAll(s, digits, true);
      && r.boxes == s.boxes[..s.caret] + Boxed(digits)
      && r.submitted && r.posted == s.posted + [r.boxes]
    decreases |digits|
  {
    hide Typed, Step;
    var c, rest, left := digits[0], digits[1..], s.boxes[s.caret];
    assert c in digits && forall d :: d in rest ==> d in digits;
    TypedOne(s, c, left, true);
    var t := Typed(s, c, left, true);
    assert t.boxes == s.boxes[s.caret := [c]];
    assert t.boxes[..s.caret + 1] == s.boxes[..s.caret] + [[c]];
    assert Boxed(digits) == [[c]] + Boxed(rest);
    if rest == [] {
      assert Boxed(rest) == [];
      assert t.boxes == s.boxes[..s.caret] + [[c]];
      assert TypedAll(s, digits, true) == t;
    } else {
      assert !Complete(s.boxes[s.caret := [c]]) by { assert |s.boxes[s.caret := [c]][|s.boxes| - 1]| == 0; }
      TypingSpells(t, rest);
    }
  }

  lemma PastedFresh(digits: string, box: nat)
    requires AllDigits(digits) && |digits| >= 2 && box < |digits|
    ensures var pasted := Step(Untouched(|digits|), Paste(box, Some(digits)), true);
      pasted.boxes == Boxed(digits) && pasted.posted == [Boxed(digits)]
  {
    hide Filled;
    var s := Untouched(|digits|);
    WithoutNothing(IsNotDigit, digits);
    FilledWhole(s.boxes, digits);
    assert digits[..|digits|] == digits;
    assert Complete(Boxed(digits));
  }

  /** On a fresh row, typing a code and pasting it end in the same boxes and post the same form. */
  lemma TypingIsPasting(digits: string, box: nat)
    requires AllDigits(digits) && |digits| >= 2 && box < |digits|
    ensures var typed := TypedAll(Untouched(|digits|), digits, true);
      var pasted := Step(Untouched(|digits|), Paste(box, Some(digits)), true);
      && typed.boxes == pasted.boxes == Boxed(digits)
      && typed.posted == pasted.posted == [Boxed(digits)]
  {
    hide TypedAll, Step;
    var s := Untouched(|digits|);
    TypingSpells(s, digits);
    assert s.boxes[..0] + Boxed(digits) == Boxed(digits);
    PastedFresh(digits, box);
  }

  // ---------------------------------------------------------------- taking it back

  /** In a row not yet full, Backspace in the empty box a digit moved on to undoes typing it, and so
      does going back with the arrow and pressing Delete. */
  lemma BackspaceUndoesTyping(s: State, c: char, hasForm: bool)
    requires Shaped(s) && IsDigit(c) && s.caret + 1 < |s.boxes|
    requires s.boxes[s.caret] == s.boxes[s.caret + 1] == "" && !s.bulk[s.caret]
    ensures Step(Typed(s, c, "", hasForm), Keydown(s.caret + 1, Backspace), hasForm) == s
    ensures var back := Step(Typed(s, c, "", hasForm), Keydown(s.caret + 1, ArrowLeft), hasForm);
      Step(back, Keydown(s.caret, Delete), hasForm) == s
  {
    hide Typed;
    TypedOne(s, c, "", hasForm);
    var boxes := s.boxes[s.caret := [c]];
    assert |boxes[s.caret + 1]| == 0;
    assert boxes[s.caret := ""] == s.boxes;
  }

  /** The arrows move the caret one box and back, and change nothing else. */
  lemma ArrowsUndo(s: State, hasForm: bool)
    requires Shaped(s)
    ensures s.caret > 0 ==>
      var l := Step(s, Keydown(s.caret, ArrowLeft), hasForm);
      l == s.(caret := s.caret - 1) && Step(l, Keydown(l.caret, ArrowRight), hasForm) == s
    ensures s.caret == 0 ==> Step(s, Keydown(0, ArrowLeft), hasForm) == s
    ensures s.caret == |s.boxes| - 1 ==> Step(s, Keydown(s.caret, ArrowRight), hasForm) == s
  {
  }
}
