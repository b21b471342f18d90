/**
 What the operations of the history do, as functions of its state, and what whole runs of them keep.
 Nothing here asks the record to be sound: an undo is followed wherever the code goes.
 */
module Records {
  import opened Positions
  import opened Texts
  import opened Changes
  import opened HistoryLog
  import opened Wrappers

  // ----- edits that need not fit the text

  /** An edit as a record holds it. */
  predicate EditForm(c: Change) {
    0 <= c.from.line && 0 <= c.from.ch && 0 <= c.to.ch && Cmp(c.from, c.to) <= 0
  }

  /** The part of an edit that is made on this text (makeChangeSingleDoc): its ends are cut, and so is its text behind the last line. */
  function Fitted(d: seq<string>, c: Change): (r: Change)
    requires |d| > 0 && EditForm(c) && |c.text| > 0 && c.from.line < |d|
    ensures ValidChange(d, r) && (ValidChange(d, c) ==> r == c)
  {
    Change(ClipPos(d, c.from), ClipPos(d, c.to), if c.to.line < |d| then c.text else [c.text[0]])
  }

  /** The text after an edit, which does nothing if it starts behind the last line. */
  function Applied(d: seq<string>, c: Change): (e: seq<string>)
    requires |d| > 0 && EditForm(c) && |c.text| > 0
    ensures |e| > 0 && (ValidChange(d, c) ==> e == Splice(d, c))
  {
    if c.from.line < |d| then Splice(d, Fitted(d, c)) else d
  }

  /** What an edit that need not fit does: nothing behind the last line, and over the end of the document only its first line goes in. */
  lemma AppliedIs(d: seq<string>, c: Change)
    requires |d| > 0 && EditForm(c) && |c.text| > 0
    ensures c.from.line >= |d| ==> Applied(d, c) == d
    ensures c.from.line < |d| ==> var a, b := ClipPos(d, c.from), ClipPos(d, c.to);
      && ValidPos(d, a) && ValidPos(d, b) && |Before(d, a)| > 0 && |After(d, b)| > 0
      && Applied(d, c) == Cat(Before(d, a), if c.to.line < |d| then Cat(c.text, After(d, b)) else [c.text[0]])
  {
    if c.from.line < |d| {
      var r := Fitted(d, c);
      SpliceCat(d, r);
      if c.to.line >= |d| {
        assert After(d, r.to) == [""] && c.text[0] + "" == c.text[0];
      }
    }
  }

  /** The edit recorded to take it back (historyChangeFromChange). */
  function TakingBack(d: seq<string>, c: Change): (r: Change)
    requires |d| > 0 && EditForm(c) && |c.text| > 0
    ensures EditForm(r) && (ValidChange(d, c) ==> r == Inverse(d, c))
  {
    Change(c.from, ChangeEnd(c), if c.from.line < |d| then Between(d, ClipPos(d, c.from), ClipPos(d, c.to)) else [])
  }

  /** The text after carrying out edits, and the edits that take them back. */
  datatype Reversal = Reversal(text: seq<string>, back: seq<Change>)

  /** Carrying out edits from the last to the first; the code throws at an edit without text. */
  function Reverted(text: seq<string>, cs: seq<Change>, back: seq<Change>): (r: Option<Reversal>)
    requires |text| > 0 && forall c :: c in cs ==> EditForm(c)
    ensures r.Some? ==> |r.value.text| > 0 && |r.value.back| == |back| + |cs|
    ensures r.Some? && (forall c :: c in back ==> EditForm(c)) ==> forall c :: c in r.value.back ==> EditForm(c)
    decreases |cs|
  {
    if cs == [] then Some(Reversal(text, back))
    else if Last(cs).text == [] then None
    else Reverted(Applied(text, Last(cs)), cs[..|cs| - 1], back + [TakingBack(text, Last(cs))])
  }

  // ----- stacks of entries

  /** The stack has a selection below every event, and its events hold edits. */
  predicate Shaped<S>(s: seq<Entry<S>>) {
    forall i :: 0 <= i < |s| && s[i].Event? ==>
      i > 0 && s[i - 1].Selection? && |s[i].changes| > 0 && s[i].generation > 0 && forall c :: c in s[i].changes ==> EditForm(c)
  }

  /** pushSelectionToHistory: put a selection on the stack, unless it is on top already. */
  function Pushed<S(==)>(s: seq<Entry<S>>, sel: S): (r: seq<Entry<S>>)
    ensures r != [] && Last(r) == Selection(sel) && (Shaped(s) ==> Shaped(r))
  {
    if s != [] && Last(s) == Selection(sel) then s else s + [Selection(sel)]
  }

  /** clearSelectionEvents: the stack without the selections on top. */
  function Dropped<S>(s: seq<Entry<S>>): (r: seq<Entry<S>>)
    ensures r <= s && (r == [] || Last(r).Event?) && (forall i :: |r| <= i < |s| ==> s[i].Selection?)
    ensures Shaped(s) ==> Shaped(r)
  {
    if s != [] && Last(s).Selection? then Dropped(s[..|s| - 1]) else s
  }

  /** An edit may join the last event if that is on top or under one selection, or, within the same operation, anywhere. */
  predicate Mergeable<S>(s: seq<Entry<S>>, force: bool) {
    if force then Events(s) > 0
    else (|s| > 0 && Last(s).Event?) || (|s| > 1 && s[|s| - 2].Event?)
  }

  /** lastChangeEvent: the stack with the event to join on top, if there is one. */
  function Joinable<S>(s: seq<Entry<S>>, force: bool): (r: seq<Entry<S>>)
    ensures r <= s && (forall i :: |r| <= i < |s| ==> s[i].Selection?) && (Shaped(s) ==> Shaped(r))
    ensures Mergeable(s, force) ==> r != [] && Last(r).Event?
  {
    if force then (EventOrNone(s); Dropped(s))
    else if s != [] && Last(s).Event? then s
    else if |s| > 1 && s[|s| - 2].Event? then s[..|s| - 1]
    else s
  }

  lemma EventOrNone<S>(s: seq<Entry<S>>)
    ensures Events(s) > 0 <==> Dropped(s) != []
  {
    EventsBelow(s, |Dropped(s)|);
    assert s[..|Dropped(s)|] == Dropped(s);
  }

  /** An event with one more edit, or with its last inverse edit made longer. */
  function Joined<S>(event: Entry<S>, d: seq<string>, c: Change): (r: Entry<S>)
    requires event.Event? && |event.changes| > 0 && ValidChange(d, c)
    ensures r.Event? && r.generation == event.generation
    ensures |r.changes| == |event.changes| + if c.from == c.to == Last(event.changes).to then 0 else 1
  {
    var a := Last(event.changes);
    if c.from == c.to && c.from == a.to then event.(changes := event.changes[..|event.changes| - 1] + [a.(to := ChangeEnd(c))])
    else event.(changes := event.changes + [Inverse(d, c)])
  }

  /** The stack with an event on top, and a selection below it. */
  function WithEvent<S(==)>(s: seq<Entry<S>>, sel: S, event: Entry<S>): seq<Entry<S>> {
    (if s == [] || Last(s).Event? then Pushed(s, sel) else s) + [event]
  }

  /** The stack without its oldest entries: as many as are over the limit, and an event together with the selection below it. */
  function Truncated<S>(s: seq<Entry<S>>, undoDepth: Option<nat>): (r: seq<Entry<S>>)
    ensures |r| <= |s| && (undoDepth.None? ==> r == s)
    decreases |s|
  {
    if undoDepth.None? || |s| <= undoDepth.value then s
    else if |s| > 1 && s[1].Event? then Truncated(s[2..], undoDepth)
    else Truncated(s[1..], undoDepth)
  }

  /** What is left is the end of the stack, and no more has gone than had to. */
  lemma {:induction false} TruncatedIs<S>(s: seq<Entry<S>>, undoDepth: Option<nat>)
    ensures Truncated(s, undoDepth) == s[|s| - |Truncated(s, undoDepth)|..]
    ensures undoDepth.Some? ==>
      |Truncated(s, undoDepth)| <= undoDepth.value && (|Truncated(s, undoDepth)| < |s| ==> undoDepth.value < |Truncated(s, undoDepth)| + 2)
    decreases |s|
  {
    if undoDepth.Some? && |s| > undoDepth.value {
      var k := if |s| > 1 && s[1].Event? then 2 else 1;
      TruncatedIs(s[k..], undoDepth);
      TailOfTail(s, k, |Truncated(s, undoDepth)|);
    }
  }

  lemma TailOfTail<T>(s: seq<T>, k: nat, n: nat)
    requires k <= |s| && n <= |s| - k
    ensures s[k..][|s[k..]| - n..] == s[|s| - n..]
  {
  }

  lemma {:induction false} TruncatedShaped<S>(s: seq<Entry<S>>, undoDepth: Option<nat>)
    requires Shaped(s)
    ensures Shaped(Truncated(s, undoDepth))
    decreases |s|
  {
    hide Shaped;
    if undoDepth.Some? && |s| > undoDepth.value {
      var k := if |s| > 1 && s[1].Event? then 2 else 1;
      ShapedTail(s, k);
      TruncatedShaped(s[k..], undoDepth);
    }
  }

  lemma ShapedTail<S>(s: seq<Entry<S>>, k: nat)
    requires Shaped(s) && |s| > 0 && k == if |s| > 1 && s[1].Event? then 2 else 1
    ensures Shaped(s[k..])
  {
  }

  /** The record of an edit, without the selection after it. */
  function Recorded<S(==)>(s: seq<Entry<S>>, d: seq<string>, c: Change, sel: S, generation: nat, wantsMerge: bool, sameOp: bool, undoDepth: Option<nat>): seq<Entry<S>>
    requires Shaped(s) && ValidChange(d, c)
  {
    if wantsMerge && Mergeable(s, sameOp) then
      var j := Joinable(s, sameOp);
      j[..|j| - 1] + [Joined(Last(j), d, c)]
    else
      Truncated(WithEvent(if wantsMerge then Joinable(s, sameOp) else s, sel, Event([Inverse(d, c)], generation)), undoDepth)
  }

  /** Two stacks after the selections on top of one have gone to the other; `after` is the last one moved. */
  datatype Shift<S> = Shift(from: seq<Entry<S>>, to: seq<Entry<S>>, after: S)

  function Shifted<S(==)>(from: seq<Entry<S>>, to: seq<Entry<S>>, after: S): (r: Shift<S>)
    ensures r.from == Dropped(from) && (Shaped(to) ==> Shaped(r.to))
    decreases |from|
  {
    if from != [] && Last(from).Selection? then Shifted(from[..|from| - 1], Pushed(to, Last(from).sel), Last(from).sel)
    else Shift(from, to, after)
  }

  /** An event on its way from one stack to the other, with the text and the selection it leads to. */
  datatype Trip<S> = Trip(from: seq<Entry<S>>, to: seq<Entry<S>>, event: Entry<S>, text: seq<string>, sel: S)

  function Travelled<S(==)>(s: seq<Entry<S>>, l: seq<Entry<S>>, text: seq<string>, sel: S, generation: nat): (r: Option<Trip<S>>)
    requires |text| > 0 && Shaped(s) && Dropped(s) != []
  {
    var m := Shifted(s, l, sel);
    var event, below := Last(m.from), m.from[..|m.from| - 1];
    match Reverted(text, event.changes, [])
    case None => None
    case Some(r) => Some(Trip(below, Pushed(m.to, m.after) + [Event(r.back, generation)], event, r.text, Last(below).sel))
  }

  /** The stack with a selection in the place of the entry on top; an empty stack stays empty. */
  function WithTop<S>(s: seq<Entry<S>>, t: S): (r: seq<Entry<S>>)
    ensures Shaped(s) ==> Shaped(r)
  {
    if s == [] then s else s[..|s| - 1] + [Selection(t)]
  }

  // ----- the state of an editor and its steps

  datatype State<S> = State(
    text: seq<string>, sel: S, done: seq<Entry<S>>, undone: seq<Entry<S>>, undoDepth: Option<nat>,
    generation: nat, maxGeneration: nat, cleanGeneration: nat,
    lastOp: Option<nat>, lastSelOp: Option<nat>, lastOrigin: string, lastSelOrigin: string, lastModTime: int, lastSelTime: int)

  predicate StartsWith(origin: string, c: char) {
    origin != "" && origin[0] == c
  }

  predicate Ready<S>(st: State<S>) {
    |st.text| > 0 && st.generation > 0 && Shaped(st.done) && Shaped(st.undone)
  }

  /** Does the record invite this edit into its last event? */
  predicate WantsMerge<S>(st: State<S>, op: Option<nat>, origin: string, now: int, delay: int) {
    || (op.Some? && st.lastOp == op)
    || (st.lastOrigin == origin && origin != "" && ((StartsWith(origin, '+') && st.lastModTime > now - delay) || StartsWith(origin, '*')))
  }

  /** Does the record invite this selection to take the place of the entry on top? */
  predicate ReplacesTop<S>(st: State<S>, op: Option<nat>, origin: string, alike: bool, now: int, delay: int) {
    || (op.Some? && st.lastSelOp == op)
    || (origin != "" && st.lastSelOrigin == origin
        && ((st.lastModTime == st.lastSelTime && st.lastOrigin == origin)
            || StartsWith(origin, '*')
            || (StartsWith(origin, '+') && alike && now - st.lastSelTime <= delay)))
  }

  predicate IsNothing(c: Change) {
    c.text == [""] && c.from == c.to
  }

  /** addChangeToHistory */
  function Noted<S(==)>(st: State<S>, c: Change, selAfter: S, op: Option<nat>, origin: string, now: int, delay: int): State<S>
    requires Shaped(st.done) && ValidChange(st.text, c)
  {
    st.(
      undone := [],
      done := Recorded(st.done, st.text, c, st.sel, st.generation, WantsMerge(st, op, origin, now, delay), op.Some? && st.lastOp == op, st.undoDepth)
              + [Selection(selAfter)],
      generation := st.maxGeneration + 1, maxGeneration := st.maxGeneration + 1,
      lastOp := op, lastSelOp := op, lastOrigin := origin, lastSelOrigin := origin, lastModTime := now, lastSelTime := now)
  }

  /** makeChangeInner: the edit is recorded and made, unless it changes nothing. */
  function Edited<S(==)>(st: State<S>, c: Change, selAfter: S, op: Option<nat>, origin: string, now: int, delay: int): State<S>
    requires Shaped(st.done) && ValidChange(st.text, c)
  {
    if IsNothing(c) then st
    else Noted(st, c, selAfter, op, origin, now, delay).(text := Splice(st.text, c), sel := selAfter)
  }

  /** makeChangeFromHistory, undoing; None where the code throws. */
  function Undone<S(==)>(st: State<S>): Option<State<S>>
    requires |st.text| > 0 && Shaped(st.done)
  {
    if Dropped(st.done) == [] then Some(st)
    else match Travelled(st.done, st.undone, st.text, st.sel, st.generation)
      case None => None
      case Some(t) => Some(st.(text := t.text, sel := t.sel, done := t.from, undone := t.to, generation := t.event.generation,
                               lastOrigin := "", lastSelOrigin := ""))
  }

  /** makeChangeFromHistory, redoing. */
  function Redone<S(==)>(st: State<S>): Option<State<S>>
    requires |st.text| > 0 && Shaped(st.undone)
  {
    if Dropped(st.undone) == [] then Some(st)
    else match Travelled(st.undone, st.done, st.text, st.sel, st.generation)
      case None => None
      case Some(t) => Some(st.(text := t.text, sel := t.sel, undone := t.from, done := t.to, generation := t.event.generation,
                               lastOrigin := "", lastSelOrigin := ""))
  }

  /** addSelectionToHistory; `alike` says that the selection has as many ranges as the one on top and is empty if that one is. */
  function Selected<S(==)>(st: State<S>, t: S, op: Option<nat>, origin: string, alike: bool, clearRedo: bool, now: int, delay: int): State<S> {
    st.(done := if ReplacesTop(st, op, origin, alike, now, delay) then WithTop(st.done, t) else Pushed(st.done, t),
        undone := if clearRedo then Dropped(st.undone) else st.undone,
        lastSelTime := now, lastSelOrigin := origin, lastSelOp := op)
  }

  /** setSelectionReplaceHistory */
  function Reselected<S(==)>(st: State<S>, t: S, op: Option<nat>, origin: string, alike: bool, clearRedo: bool, now: int, delay: int): State<S> {
    if st.done != [] && Last(st.done).Selection? then st.(done := WithTop(st.done, t), sel := t)
    else Selected(st, t, op, origin, alike, clearRedo, now, delay).(sel := t)
  }

  /** changeGeneration(true) */
  function Closed<S>(st: State<S>): State<S> {
    st.(lastOp := None, lastSelOp := None, lastOrigin := "")
  }

  /** markClean */
  function Marked<S>(st: State<S>): State<S> {
    Closed(st).(cleanGeneration := st.generation)
  }

  type Lines = s: seq<string> | |s| > 0 witness [""]

  /** What can be done to a document with a history. */
  datatype Action<S> =
    | Replace(from: Pos, to: Pos, lines: Lines, selAfter: S, op: Option<nat>, origin: string, now: int, delay: int)
    | Select(sel: S, op: Option<nat>, origin: string, alike: bool, clearRedo: bool, now: int, delay: int)
    | Reselect(sel: S, op: Option<nat>, origin: string, alike: bool, clearRedo: bool, now: int, delay: int)
    | GoBack
    | GoForth
    | Close
    | Mark

  /** replaceRange: the edit between two positions, in either order and cut to the text. */
  function Replacement(d: seq<string>, from: Pos, to: Pos, lines: Lines): (c: Change)
    requires |d| > 0
    ensures ValidChange(d, c)
  {
    var a, b := ClipPos(d, from), ClipPos(d, to);
    if Cmp(b, a) < 0 then Change(b, a, lines) else Change(a, b, lines)
  }

  /** For positions of the text in their order it is the edit between them; the order does not matter, and other positions are cut. */
  lemma ReplacementIs(d: seq<string>, from: Pos, to: Pos, lines: Lines)
    requires |d| > 0
    ensures ValidPos(d, from) && ValidPos(d, to) && Cmp(from, to) <= 0 ==> Replacement(d, from, to, lines) == Change(from, to, lines)
    ensures Replacement(d, from, to, lines) == Replacement(d, to, from, lines)
    ensures Replacement(d, from, to, lines) == Replacement(d, ClipPos(d, from), ClipPos(d, to), lines)
  {
    ClipPosIsRetraction(d, from, to);
    ClipPosIsRetraction(d, to, from);
  }

  /** One action; None where the code throws. */
  function Step<S(==)>(st: State<S>, a: Action<S>): (r: Option<State<S>>)
    requires Ready(st)
  {
    match a
    case Replace(from, to, lines, selAfter, op, origin, now, delay) =>
      Some(Edited(st, Replacement(st.text, from, to, lines), selAfter, op, origin, now, delay))
    case Select(t, op, origin, alike, clearRedo, now, delay) =>
      Some(Selected(st, t, op, origin, alike, clearRedo, now, delay).(sel := t))
    case Reselect(t, op, origin, alike, clearRedo, now, delay) =>
      Some(Reselected(st, t, op, origin, alike, clearRedo, now, delay))
    case GoBack => Undone(st)
    case GoForth => Redone(st)
    case Close => Some(Closed(st))
    case Mark => Some(Marked(st))
  }

  // ----- what the steps keep: the shape of the record

  lemma {:induction false} DroppedEvent<S>(s: seq<Entry<S>>)
    requires Shaped(s) && Dropped(s) != []
    ensures var n := |Dropped(s)|; n > 1 && Dropped(s)[n - 2].Selection? && Last(Dropped(s)) == s[n - 1] && s[n - 1].Event?
    ensures var event := Last(Dropped(s)); |event.changes| > 0 && event.generation > 0 && forall c :: c in event.changes ==> EditForm(c)
    ensures Shaped(Dropped(s)[..|Dropped(s)| - 1])
  {
  }

  lemma ShapedSnoc<S>(s: seq<Entry<S>>, cs: seq<Change>, generation: nat)
    requires Shaped(s) && s != [] && Last(s).Selection? && |cs| > 0 && generation > 0 && forall c :: c in cs ==> EditForm(c)
    ensures Shaped(s + [Event(cs, generation)])
  {
  }

  lemma JoinedShaped<S>(s: seq<Entry<S>>, d: seq<string>, c: Change)
    requires Shaped(s) && s != [] && Last(s).Event? && ValidChange(d, c)
    ensures Shaped(s[..|s| - 1] + [Joined(Last(s), d, c)])
  {
    var a := Last(Last(s).changes);
    assert a in Last(s).changes;
    assert EditForm(Inverse(d, c)) && Cmp(c.from, ChangeEnd(c)) <= 0;
    var t := s[..|s| - 1];
    assert Shaped(t) && t != [] && Last(t).Selection?;
    ShapedSnoc(t, Joined(Last(s), d, c).changes, Last(s).generation);
  }

  lemma RecordedShaped<S>(s: seq<Entry<S>>, d: seq<string>, c: Change, sel: S, generation: nat, wantsMerge: bool, sameOp: bool, undoDepth: Option<nat>)
    requires Shaped(s) && ValidChange(d, c) && generation > 0
    ensures Shaped(Recorded(s, d, c, sel, generation, wantsMerge, sameOp, undoDepth))
  {
    hide Shaped, Joinable, Truncated;
    var j := if wantsMerge then Joinable(s, sameOp) else s;
    if wantsMerge && Mergeable(s, sameOp) {
      JoinedShaped(j, d, c);
    } else {
      WithEventShaped(j, d, c, sel, generation);
      TruncatedShaped(WithEvent(j, sel, Event([Inverse(d, c)], generation)), undoDepth);
    }
  }

  lemma WithEventShaped<S>(s: seq<Entry<S>>, d: seq<string>, c: Change, sel: S, generation: nat)
    requires Shaped(s) && ValidChange(d, c) && generation > 0
    ensures Shaped(WithEvent(s, sel, Event([Inverse(d, c)], generation)))
  {
    hide Shaped;
    InverseForm(d, c);
    ShapedSnoc(if s == [] || Last(s).Event? then Pushed(s, sel) else s, [Inverse(d, c)], generation);
  }

  lemma ShapedSelect<S>(s: seq<Entry<S>>, sel: S)
    requires Shaped(s)
    ensures Shaped(s + [Selection(sel)])
  {
  }

  lemma TravelledShaped<S>(s: seq<Entry<S>>, l: seq<Entry<S>>, text: seq<string>, sel: S, generation: nat)
    requires |text| > 0 && Shaped(s) && Shaped(l) && Dropped(s) != [] && generation > 0
    ensures var t := Travelled(s, l, text, sel, generation);
      t.Some? ==> |t.value.text| > 0 && Shaped(t.value.from) && Shaped(t.value.to) && t.value.event.Event? && t.value.event.generation > 0
  {
    hide Shaped, Reverted, Shifted;
    DroppedEvent(s);
    var m := Shifted(s, l, sel);
    var r := Reverted(text, Last(m.from).changes, []);
    if r.Some? {
      ShapedSnoc(Pushed(m.to, m.after), r.value.back, generation);
    }
  }

  /** Every step leaves the record in shape. */
  lemma StepReady<S>(st: State<S>, a: Action<S>)
    requires Ready(st)
    ensures Step(st, a).Some? ==> Ready(Step(st, a).value)
  {
    hide Shaped, Travelled, Recorded, Dropped;
    match a
    case Replace(from, to, lines, selAfter, op, origin, now, delay) =>
      EditedReady(st, Replacement(st.text, from, to, lines), selAfter, op, origin, now, delay);
    case GoBack =>
      if Dropped(st.done) != [] { TravelledShaped(st.done, st.undone, st.text, st.sel, st.generation); }
    case GoForth =>
      if Dropped(st.undone) != [] { TravelledShaped(st.undone, st.done, st.text, st.sel, st.generation); }
    case _ =>
  }

  lemma EditedReady<S>(st: State<S>, c: Change, selAfter: S, op: Option<nat>, origin: string, now: int, delay: int)
    requires Ready(st) && ValidChange(st.text, c)
    ensures Ready(Edited(st, c, selAfter, op, origin, now, delay))
  {
    hide Shaped, Recorded;
    RecordedShaped(st.done, st.text, c, st.sel, st.generation, WantsMerge(st, op, origin, now, delay), op.Some? && st.lastOp == op, st.undoDepth);
    ShapedSelect(Recorded(st.done, st.text, c, st.sel, st.generation, WantsMerge(st, op, origin, now, delay), op.Some? && st.lastOp == op, st.undoDepth), selAfter);
    ShapedNone<S>();
  }

  lemma ShapedNone<S>()
    ensures Shaped<S>([])
  {
  }

  // ----- what the steps keep: the texts the record stands for

  lemma {:induction false} DroppedStack<S>(s: seq<Entry<S>>, d: seq<string>, ts: seq<seq<string>>, gens: map<nat, seq<string>>)
    requires Stack(s, d, ts, gens)
    ensures Stack(Dropped(s), d, ts, gens) && (Dropped(s) != [] <==> ts != [])
  {
    StackEvents(s, d, ts, gens);
    if s != [] && Last(s).Selection? {
      StackPop(s, d, ts, gens);
      DroppedStack(s[..|s| - 1], d, ts, gens);
    }
  }

  lemma JoinableStack<S>(s: seq<Entry<S>>, force: bool, d: seq<string>, ts: seq<seq<string>>, gens: map<nat, seq<string>>)
    requires Stack(s, d, ts, gens)
    ensures Stack(Joinable(s, force), d, ts, gens)
  {
    hide Stack;
    if force {
      DroppedStack(s, d, ts, gens);
    } else if !(s != [] && Last(s).Event?) && |s| > 1 && s[|s| - 2].Event? {
      StackPop(s, d, ts, gens);
    }
  }

  /** An event with one more edit leads from the new text to where it led before. */
  lemma JoinedStack<S>(s: seq<Entry<S>>, d: seq<string>, c: Change, ts: seq<seq<string>>, gens: map<nat, seq<string>>)
    requires Stack(s, d, ts, gens) && ValidChange(d, c) && s != [] && Last(s).Event? && |Last(s).changes| > 0
    ensures Stack(s[..|s| - 1] + [Joined(Last(s), d, c)], Splice(d, c), ts, gens)
  {
    hide Stack, Undoes;
    var event := Last(s);
    StackTop(s, d, ts, gens);
    if c.from == c.to && c.from == Last(event.changes).to {
      UndoesLonger(event.changes, d, Last(ts), c);
    } else {
      UndoesMore(event.changes, d, Last(ts), c);
    }
    StackChange(s, d, Splice(d, c), ts, gens, Joined(event, d, c));
  }

  lemma StackPushed<S>(s: seq<Entry<S>>, d: seq<string>, ts: seq<seq<string>>, gens: map<nat, seq<string>>, sel: S)
    requires Stack(s, d, ts, gens)
    ensures Stack(Pushed(s, sel), d, ts, gens)
  {
    StackSelect(s, d, ts, gens, sel);
  }

  lemma WithEventStack<S>(s: seq<Entry<S>>, d: seq<string>, c: Change, sel: S, generation: nat, ts: seq<seq<string>>, gens: map<nat, seq<string>>)
    requires Stack(s, d, ts, gens) && ValidChange(d, c) && 0 < generation && generation in gens && gens[generation] == d
    ensures Stack(WithEvent(s, sel, Event([Inverse(d, c)], generation)), Splice(d, c), ts + [d], gens)
  {
    hide Stack, Undoes;
    StackPushed(s, d, ts, gens, sel);
    OneEdit(d, c);
    StackPush(if s == [] || Last(s).Event? then Pushed(s, sel) else s, d, ts, gens, [Inverse(d, c)], generation, Splice(d, c));
  }

  /** Dropping the oldest entries leaves where the others lead. */
  lemma {:induction false} TruncatedLeads<S>(s: seq<Entry<S>>, undoDepth: Option<nat>, d: seq<string>, ts: seq<seq<string>>, gens: map<nat, seq<string>>)
    returns (dropped: nat)
    requires Stack(s, d, ts, gens)
    ensures dropped <= |ts| && Stack(Truncated(s, undoDepth), d, ts[dropped..], gens)
    ensures undoDepth.None? ==> dropped == 0
    decreases |s|
  {
    hide Stack;
    dropped := 0;
    if undoDepth.Some? && |s| > undoDepth.value {
      if |s| > 1 && s[1].Event? {
        StackShiftEvent(s, d, ts, gens);
        var n := TruncatedLeads(s[2..], undoDepth, d, ts[1..], gens);
        dropped := n + 1;
        DropDrop(ts, n);
      } else {
        StackShift(s, d, ts, gens);
        dropped := TruncatedLeads(s[1..], undoDepth, d, ts, gens);
      }
    }
  }

  /** The same under an event, which stays for a limit above one. */
  lemma TruncatedStack<S>(s: seq<Entry<S>>, undoDepth: Option<nat>, d: seq<string>, ts: seq<seq<string>>, gens: map<nat, seq<string>>)
    returns (dropped: nat)
    requires Shaped(s) && Stack(s, d, ts, gens) && s != [] && Last(s).Event?
    ensures dropped <= |ts| && Stack(Truncated(s, undoDepth), d, ts[dropped..], gens)
    ensures undoDepth.None? ==> dropped == 0
    ensures var r := Truncated(s, undoDepth);
      if undoDepth.None? || undoDepth.value > 1 then r != [] && Last(r) == Last(s) && dropped < |ts| else r == [] && ts[dropped..] == []
  {
    hide Stack, Shaped, Truncated;
    dropped := TruncatedLeads(s, undoDepth, d, ts, gens);
    TruncatedTop(s, undoDepth);
    StackEvents(Truncated(s, undoDepth), d, ts[dropped..], gens);
  }

  lemma DropDrop<T>(s: seq<T>, n: nat)
    requires 0 < |s| && n < |s|
    ensures s[1..][n..] == s[n + 1..]
  {
  }

  /** An event under a selection, on top of the stack, that leads back to this generation. */
  predicate EventOnTop<S>(s: seq<Entry<S>>, generation: nat) {
    |s| > 1 && Last(s).Selection? && s[|s| - 2].Event? && s[|s| - 2].generation == generation
  }

  /** How the record of an edit that leads from `text` to `d` looks: undoing it leads back to `text`, or further if it was merged. */
  ghost predicate IsRecorded<S>(s: seq<Entry<S>>, d: seq<string>, ts: seq<seq<string>>, gens: map<nat, seq<string>>,
                                text: seq<string>, before: seq<seq<string>>, generation: nat, merged: bool, dropped: nat, undoDepth: Option<nat>) {
    && Stack(s, d, ts, gens)
    && (if merged then dropped == 0 && ts == before else dropped <= |before| + 1 && ts == (before + [text])[dropped..])
    && (undoDepth.None? ==> dropped == 0)
    && (!merged ==> if undoDepth.None? || undoDepth.value > 1 then EventOnTop(s, generation) && dropped <= |before| else ts == [])
  }

  lemma RecordedStack<S>(s: seq<Entry<S>>, d: seq<string>, c: Change, sel: S, selAfter: S, generation: nat, wantsMerge: bool, sameOp: bool,
                         undoDepth: Option<nat>, ts: seq<seq<string>>, gens: map<nat, seq<string>>)
    returns (ts': seq<seq<string>>, dropped: nat)
    requires Shaped(s) && Stack(s, d, ts, gens) && ValidChange(d, c) && 0 < generation && generation in gens && gens[generation] == d
    ensures IsRecorded(Recorded(s, d, c, sel, generation, wantsMerge, sameOp, undoDepth) + [Selection(selAfter)], Splice(d, c), ts', gens,
                       d, ts, generation, wantsMerge && Mergeable(s, sameOp), dropped, undoDepth)
  {
    hide Stack, Shaped, Joinable, Joined, Mergeable, Truncated, WithEvent;
    var j := if wantsMerge then Joinable(s, sameOp) else s;
    if wantsMerge {
      JoinableStack(s, sameOp, d, ts, gens);
    }
    ts', dropped := ts, 0;
    if wantsMerge && Mergeable(s, sameOp) {
      TopChanges(j);
      JoinedStack(j, d, c, ts, gens);
    } else {
      ts', dropped := NewEventStack(j, d, c, sel, generation, undoDepth, ts, gens);
    }
    StackSelect(Recorded(s, d, c, sel, generation, wantsMerge, sameOp, undoDepth), Splice(d, c), ts', gens, selAfter);
  }

  lemma TopChanges<S>(s: seq<Entry<S>>)
    requires Shaped(s) && s != [] && Last(s).Event?
    ensures |Last(s).changes| > 0
  {
  }

  /** A new event and the limit. */
  lemma NewEventStack<S>(s: seq<Entry<S>>, d: seq<string>, c: Change, sel: S, generation: nat,
                         undoDepth: Option<nat>, ts: seq<seq<string>>, gens: map<nat, seq<string>>)
    returns (ts': seq<seq<string>>, dropped: nat)
    requires Shaped(s) && Stack(s, d, ts, gens) && ValidChange(d, c) && 0 < generation && generation in gens && gens[generation] == d
    ensures var r := Truncated(WithEvent(s, sel, Event([Inverse(d, c)], generation)), undoDepth);
      && Stack(r, Splice(d, c), ts', gens) && dropped <= |ts| + 1 && ts' == (ts + [d])[dropped..] && (undoDepth.None? ==> dropped == 0)
      && if undoDepth.None? || undoDepth.value > 1 then r != [] && Last(r) == Event([Inverse(d, c)], generation) && dropped <= |ts| else ts' == []
  {
    hide Stack, Shaped, Truncated;
    var event: Entry<S> := Event([Inverse(d, c)], generation);
    WithEventStack(s, d, c, sel, generation, ts, gens);
    WithEventShaped(s, d, c, sel, generation);
    dropped := TruncatedStack(WithEvent(s, sel, event), undoDepth, Splice(d, c), ts + [d], gens);
    ts' := (ts + [d])[dropped..];
  }

  lemma {:induction false} ShiftedStack<S>(from: seq<Entry<S>>, to: seq<Entry<S>>, after: S,
                                           d: seq<string>, ts: seq<seq<string>>, us: seq<seq<string>>, gens: map<nat, seq<string>>)
    requires Stack(from, d, ts, gens) && Stack(to, d, us, gens)
    ensures Stack(Shifted(from, to, after).from, d, ts, gens) && Stack(Shifted(from, to, after).to, d, us, gens)
    decreases |from|
  {
    hide Stack;
    if from != [] && Last(from).Selection? {
      StackPop(from, d, ts, gens);
      StackPushed(to, d, us, gens, Last(from).sel);
      ShiftedStack(from[..|from| - 1], Pushed(to, Last(from).sel), Last(from).sel, d, ts, us, gens);
    }
  }

  /** Edits that lead somewhere can be carried out, and what is recorded leads back. */
  lemma {:induction false} RevertedUndoes(text: seq<string>, cs: seq<Change>, back: seq<Change>, text0: seq<string>, d0: seq<string>)
    requires |text| > 0 && Undoes(cs, text, d0) && Undoes(back, text, text0) && forall c :: c in cs ==> EditForm(c)
    ensures var r := Reverted(text, cs, back); r.Some? && r.value.text == d0 && Undoes(r.value.back, d0, text0)
    decreases |cs|
  {
    if cs != [] {
      var c := Last(cs);
      UndoesMore(back, text, text0, c);
      RevertedUndoes(Splice(text, c), cs[..|cs| - 1], back + [Inverse(text, c)], text0, d0);
    }
  }

  /** The topmost event of a stack has this generation. */
  ghost predicate Leads<S>(s: seq<Entry<S>>, generation: nat) {
    exists i :: 0 <= i < |s| && s[i].Event? && s[i].generation == generation && forall j :: i < j < |s| ==> s[j].Selection?
  }

  lemma LeadsOnTop<S>(s: seq<Entry<S>>, generation: nat, g: nat)
    requires EventOnTop(s, generation) && Leads(s, g)
    ensures g == generation
  {
  }

  /** One event goes from the stack `s` to the stack `l`, and the text goes with it. */
  lemma TravelledStack<S>(s: seq<Entry<S>>, l: seq<Entry<S>>, text: seq<string>, sel: S, generation: nat,
                          ts: seq<seq<string>>, us: seq<seq<string>>, gens: map<nat, seq<string>>)
    requires |text| > 0 && Shaped(s) && Dropped(s) != [] && Stack(s, text, ts, gens) && Stack(l, text, us, gens)
    requires 0 < generation && generation in gens && gens[generation] == text
    ensures |ts| > 0 && Travelled(s, l, text, sel, generation).Some?
    ensures var t := Travelled(s, l, text, sel, generation).value;
      && t.text == Last(ts) && |t.text| > 0 && t.event.Event? && Undoes(t.event.changes, text, t.text)
      && Stack(t.from, t.text, ts[..|ts| - 1], gens) && Stack(t.to, t.text, us + [text], gens)
      && 0 < t.event.generation && t.event.generation in gens && gens[t.event.generation] == t.text
      && Leads(s, t.event.generation) && t.from != [] && Last(t.from) == Selection(t.sel) && t.to != [] && Last(t.to).Event?
  {
    hide Stack, Undoes, Reverted, Shifted, Shaped;
    DroppedEvent(s);
    DroppedStack(s, text, ts, gens);
    ShiftedStack(s, l, sel, text, ts, us, gens);
    var m := Shifted(s, l, sel);
    StackTop(m.from, text, ts, gens);
    StackPushed(m.to, text, us, gens, m.after);
    UndoesNone(text);
    RevertedUndoes(text, Last(m.from).changes, [], text, Last(ts));
    var r := Reverted(text, Last(m.from).changes, []).value;
    StackPush(Pushed(m.to, m.after), text, us, gens, r.back, generation, r.text);
  }

  lemma UndoesNone(d: seq<string>)
    ensures Undoes([], d, d)
  {
  }

  // ----- used by the methods

  lemma RevertedStep(text: seq<string>, cs: seq<Change>, f: nat, back: seq<Change>)
    requires |text| > 0 && f < |cs| && forall c :: c in cs ==> EditForm(c)
    ensures EditForm(cs[f]) && Reverted(text, cs[..f + 1], back)
      == if cs[f].text == [] then None else Reverted(Applied(text, cs[f]), cs[..f], back + [TakingBack(text, cs[f])])
  {
    assert cs[..f + 1][..f] == cs[..f] && Last(cs[..f + 1]) == cs[f];
  }

  lemma RevertedEnd(text: seq<string>, cs: seq<Change>, back: seq<Change>)
    requires |text| > 0
    ensures Reverted(text, cs[..0], back) == Some(Reversal(text, back))
  {
  }

  lemma InverseForm(d: seq<string>, c: Change)
    requires ValidChange(d, c)
    ensures EditForm(Inverse(d, c))
  {
    SpliceCut(d, c);
  }

  lemma TopOverSelection<S>(s: seq<Entry<S>>)
    requires Shaped(s) && s != [] && Last(s).Event?
    ensures |s| > 1 && s[0].Selection? && (s[1].Event? ==> |s| == 2 || |s| > 3)
  {
  }

  /** The event on top stays for a limit above one, and otherwise nothing does. */
  lemma {:induction false} TruncatedTop<S>(s: seq<Entry<S>>, undoDepth: Option<nat>)
    requires Shaped(s) && s != [] && Last(s).Event?
    ensures var r := Truncated(s, undoDepth); if undoDepth.None? || undoDepth.value > 1 then r != [] && Last(r) == Last(s) else r == []
    decreases |s|
  {
    TopOverSelection(s);
    if undoDepth.Some? && |s| > undoDepth.value {
      var k := if s[1].Event? then 2 else 1;
      ShapedTail(s, k);
      if k < |s| {
        TruncatedTop(s[k..], undoDepth);
      }
    }
  }

  lemma TravelledEvent<S>(s: seq<Entry<S>>, l: seq<Entry<S>>, text: seq<string>, sel: S, generation: nat)
    requires |text| > 0 && Shaped(s) && Dropped(s) != []
    ensures var t := Travelled(s, l, text, sel, generation);
      t.Some? ==> t.value.event == Last(Dropped(s)) && t.value.event.Event? && t.value.event.generation > 0
  {
    DroppedEvent(s);
  }
}
