/**
 What a user sees of the history: which edits one undo takes back together, which selections take
 the place of the one before, and which selection an undo and a redo lead to.
 */
module Keystrokes {
  import opened Positions
  import opened Texts
  import opened Changes
  import opened HistoryLog
  import opened Records
  import opened Runs
  import opened Wrappers

  /** The record may hold an event. */
  predicate Room(undoDepth: Option<nat>) {
    undoDepth.None? || undoDepth.value > 1
  }

  // ----- which edits are taken back together

  /** The record of an edit ends with its event. */
  lemma RecordedTop<S>(s: seq<Entry<S>>, d: seq<string>, c: Change, sel: S, generation: nat, wantsMerge: bool, sameOp: bool, undoDepth: Option<nat>)
    requires Shaped(s) && ValidChange(d, c) && generation > 0 && Room(undoDepth)
    ensures var r := Recorded(s, d, c, sel, generation, wantsMerge, sameOp, undoDepth); r != [] && Last(r).Event?
  {
    hide Shaped, Joinable, Joined, Truncated, Mergeable;
    if !(wantsMerge && Mergeable(s, sameOp)) {
      var j := if wantsMerge then Joinable(s, sameOp) else s;
      WithEventShaped(j, d, c, sel, generation);
      TruncatedTop(WithEvent(j, sel, Event([Inverse(d, c)], generation)), undoDepth);
    }
  }

  lemma EventUnderOne<S>(s: seq<Entry<S>>, sel: S, force: bool)
    requires s != [] && Last(s).Event?
    ensures Mergeable(s + [Selection(sel)], force)
  {
    EventsAt(s + [Selection(sel)], |s| - 1);
  }

  /** Right after an edit there is an event to merge the next one into. */
  lemma EditMergeable<S>(st: State<S>, c: Change, selAfter: S, op: Option<nat>, origin: string, now: int, delay: int, force: bool)
    requires Ready(st) && ValidChange(st.text, c) && !IsNothing(c) && Room(st.undoDepth)
    ensures Mergeable(Edited(st, c, selAfter, op, origin, now, delay).done, force)
  {
    hide Shaped, Recorded, Mergeable, WantsMerge, Room;
    var merge, same := WantsMerge(st, op, origin, now, delay), op.Some? && st.lastOp == op;
    RecordedTop(st.done, st.text, c, st.sel, st.generation, merge, same, st.undoDepth);
    EventUnderOne(Recorded(st.done, st.text, c, st.sel, st.generation, merge, same, st.undoDepth), selAfter, force);
  }

  /** What one undo after an edit leads to. */
  lemma UndoneEdit<S>(st: State<S>, c: Change, selAfter: S, op: Option<nat>, origin: string, now: int, delay: int,
                      ts: seq<seq<string>>, us: seq<seq<string>>, gens: map<nat, seq<string>>)
    returns (ts': seq<seq<string>>, gens': map<nat, seq<string>>)
    requires Sound(st, ts, us, gens) && ValidChange(st.text, c) && !IsNothing(c) && Room(st.undoDepth)
    ensures var e := Edited(st, c, selAfter, op, origin, now, delay);
      && Sound(e, ts', [], gens') && ts' != [] && Undone(e).Some? && Undone(e).value.text == Last(ts')
      && if WantsMerge(st, op, origin, now, delay) && Mergeable(st.done, op.Some? && st.lastOp == op) then ts' == ts else Last(ts') == st.text
  {
    hide Stack, Shaped, Recorded, Mergeable, WantsMerge, Undone, Undoes, Leads, Edited, ValidChange;
    var dropped;
    ts', gens', dropped := EditedSound(st, c, selAfter, op, origin, now, delay, ts, us, gens);
    var e := Edited(st, c, selAfter, op, origin, now, delay);
    EditEvents(st, c, selAfter, op, origin, now, delay, ts', gens');
    UndoneSound(e, ts', [], gens');
  }

  lemma EditEvents<S>(st: State<S>, c: Change, selAfter: S, op: Option<nat>, origin: string, now: int, delay: int,
                      ts: seq<seq<string>>, gens: map<nat, seq<string>>)
    requires Ready(st) && ValidChange(st.text, c) && !IsNothing(c) && Room(st.undoDepth)
    requires Sound(Edited(st, c, selAfter, op, origin, now, delay), ts, [], gens)
    ensures ts != []
  {
    hide Stack, Shaped, Recorded, WantsMerge, ValidChange, Events;
    EditMergeable(st, c, selAfter, op, origin, now, delay, true);
    var e := Edited(st, c, selAfter, op, origin, now, delay);
    StackEvents(e.done, e.text, ts, gens);
  }

  /**
   Two edits, one right after the other: one undo takes both back exactly if they were made in the same operation, or
   have the same origin and this starts with a star, or with a plus and less than the delay has passed between them.
   */
  lemma SecondEdit<S>(st: State<S>, ts: seq<seq<string>>, us: seq<seq<string>>, gens: map<nat, seq<string>>,
                      c: Change, selAfter: S, op: Option<nat>, origin: string, now: int, delay: int,
                      c2: Change, selAfter2: S, op2: Option<nat>, origin2: string, now2: int, delay2: int)
    requires Sound(st, ts, us, gens) && Room(st.undoDepth)
    requires ValidChange(st.text, c) && !IsNothing(c) && ValidChange(Splice(st.text, c), c2) && !IsNothing(c2)
    ensures var e := Edited(st, c, selAfter, op, origin, now, delay);
      && Ready(e) && e.text == Splice(st.text, c)
      && var e2 := Edited(e, c2, selAfter2, op2, origin2, now2, delay2);
      && Ready(e2) && Undone(e).Some? && Undone(e2).Some?
      && Undone(e2).value.text ==
           if (op2.Some? && op2 == op)
             || (origin2 != "" && origin2 == origin && (origin2[0] == '*' || (origin2[0] == '+' && now2 - now < delay2)))
           then Undone(e).value.text else e.text
  {
    hide Stack, Shaped, Recorded, Mergeable, Undone, Undoes, Splice, ValidChange, Room;
    var e := Edited(st, c, selAfter, op, origin, now, delay);
    var ts1, gens1 := UndoneEdit(st, c, selAfter, op, origin, now, delay, ts, us, gens);
    EditMergeable(st, c, selAfter, op, origin, now, delay, op2.Some? && e.lastOp == op2);
    var ts2, gens2 := UndoneEdit(e, c2, selAfter2, op2, origin2, now2, delay2, ts1, [], gens1);
  }

  /** An edit that the record does not invite is taken back alone. */
  lemma AloneEdit<S>(st: State<S>, ts: seq<seq<string>>, us: seq<seq<string>>, gens: map<nat, seq<string>>,
                     c: Change, selAfter: S, op: Option<nat>, origin: string, now: int, delay: int)
    requires Sound(st, ts, us, gens) && Room(st.undoDepth) && ValidChange(st.text, c) && !IsNothing(c)
    requires !WantsMerge(st, op, origin, now, delay) || !Mergeable(st.done, op.Some? && st.lastOp == op)
    ensures var e := Edited(st, c, selAfter, op, origin, now, delay); Ready(e) && Undone(e).Some? && Undone(e).value.text == st.text
  {
    hide Stack, Shaped, Mergeable, WantsMerge, Edited, Undone, ValidChange, Room;
    var ts1, gens1 := UndoneEdit(st, c, selAfter, op, origin, now, delay, ts, us, gens);
  }

  /** After an undo, a redo or a closing mark an edit in another operation is taken back alone, whatever its origin and time. */
  lemma EditAfterStop<S>(st: State<S>, ts: seq<seq<string>>, us: seq<seq<string>>, gens: map<nat, seq<string>>, a: Action<S>,
                         c: Change, selAfter: S, op: Option<nat>, origin: string, now: int, delay: int)
    requires Sound(st, ts, us, gens) && Room(st.undoDepth)
    requires (a.GoBack? && ts != []) || (a.GoForth? && us != []) || a.Close? || a.Mark?
    requires a.GoBack? || a.GoForth? ==> op.None? || op != st.lastOp
    ensures Step(st, a).Some?
    ensures var e := Step(st, a).value;
      Ready(e) && (ValidChange(e.text, c) && !IsNothing(c) ==>
        var e2 := Edited(e, c, selAfter, op, origin, now, delay); Ready(e2) && Undone(e2).Some? && Undone(e2).value.text == e.text)
  {
    hide Stack, Shaped, Edited, ValidChange, Room, Undoes, Leads, Travelled, Dropped, Mergeable;
    if a.GoBack? {
      UndoneSound(st, ts, us, gens);
    } else if a.GoForth? {
      RedoneSound(st, ts, us, gens);
    }
    var ts', us', gens' := StepSound(st, a, ts, us, gens);
    var e := Step(st, a).value;
    UndoneOrigin(st);
    if ValidChange(e.text, c) && !IsNothing(c) {
      AloneEdit(e, ts', us', gens', c, selAfter, op, origin, now, delay);
    }
  }

  /** An undo or redo that goes anywhere leaves no origin behind. */
  lemma UndoneOrigin<S>(st: State<S>)
    requires Ready(st)
    ensures Dropped(st.done) != [] && Undone(st).Some? ==> Undone(st).value.lastOrigin == "" && Undone(st).value.lastOp == st.lastOp
    ensures Dropped(st.undone) != [] && Redone(st).Some? ==> Redone(st).value.lastOrigin == "" && Redone(st).value.lastOp == st.lastOp
  {
    hide Shaped, Dropped, Travelled;
  }

  /** After an edit and a new selection, which did not take the place of the one after the edit, an edit in another operation is taken back alone. */
  lemma EditAfterMove<S>(st: State<S>, ts: seq<seq<string>>, us: seq<seq<string>>, gens: map<nat, seq<string>>,
                         c: Change, selAfter: S, op: Option<nat>, origin: string, now: int, delay: int,
                         t: S, op1: Option<nat>, origin1: string, alike: bool, clearRedo: bool, now1: int, delay1: int,
                         c2: Change, selAfter2: S, op2: Option<nat>, origin2: string, now2: int, delay2: int)
    requires Sound(st, ts, us, gens) && Room(st.undoDepth)
    requires ValidChange(st.text, c) && !IsNothing(c) && ValidChange(Splice(st.text, c), c2) && !IsNothing(c2)
    requires !((op1.Some? && op1 == op) || (origin1 != "" && origin1 == origin)) && t != selAfter && (op2.None? || op2 != op)
    ensures var m := Selected(Edited(st, c, selAfter, op, origin, now, delay), t, op1, origin1, alike, clearRedo, now1, delay1);
      && Ready(m) && m.text == Splice(st.text, c)
      && var e2 := Edited(m, c2, selAfter2, op2, origin2, now2, delay2);
      && Ready(e2) && Undone(e2).Some? && Undone(e2).value.text == m.text
  {
    hide Stack, Shaped, Undone, Undoes, ValidChange, Splice, Recorded, Room, WantsMerge;
    var e := Edited(st, c, selAfter, op, origin, now, delay);
    var ts1, gens1 := UndoneEdit(st, c, selAfter, op, origin, now, delay, ts, us, gens);
    SelectionAfterEdit(st, c, selAfter, op, origin, now, delay, t, op1, origin1, alike, clearRedo, now1, delay1);
    SelectedSound(e, t, op1, origin1, alike, clearRedo, now1, delay1, ts1, [], gens1);
    var m := Selected(e, t, op1, origin1, alike, clearRedo, now1, delay1);
    assert !Mergeable(m.done, false);
    AloneEdit(m, ts1, [], gens1, c2, selAfter2, op2, origin2, now2, delay2);
  }

  // ----- which selections take the place of the one before

  /** The stack with this selection in the place of the entry on top, or above it unless it is there already. */
  ghost predicate Entered<S>(s: seq<Entry<S>>, t: S, inPlace: bool, s': seq<Entry<S>>)
    requires s != []
  {
    s' == if inPlace then s[..|s| - 1] + [Selection(t)] else if Last(s) == Selection(t) then s else s + [Selection(t)]
  }

  /**
   Right after an edit a selection takes the place of the selection after the edit exactly if it was made in the same
   operation or has the same origin.
   */
  lemma SelectionAfterEdit<S>(st: State<S>, c: Change, selAfter: S, op: Option<nat>, origin: string, now: int, delay: int,
                              t: S, op1: Option<nat>, origin1: string, alike: bool, clearRedo: bool, now1: int, delay1: int)
    requires Ready(st) && ValidChange(st.text, c) && !IsNothing(c)
    ensures var e := Edited(st, c, selAfter, op, origin, now, delay);
      && e.done != [] && Last(e.done) == Selection(selAfter)
      && Entered(e.done, t, (op1.Some? && op1 == op) || (origin1 != "" && origin1 == origin),
                 Selected(e, t, op1, origin1, alike, clearRedo, now1, delay1).done)
  {
    hide Shaped, Recorded;
  }

  /**
   Of two selections one right after the other the second takes the place of the first exactly if they were made in the same
   operation, or have the same origin and this starts with a star, or with a plus for a selection of the same kind and no
   more than the delay has passed, or it is the origin of an edit made at the time of the first.
   */
  lemma SecondSelection<S>(st: State<S>, t1: S, op1: Option<nat>, origin1: string, alike1: bool, clearRedo1: bool, now1: int, delay1: int,
                           t2: S, op2: Option<nat>, origin2: string, alike2: bool, clearRedo2: bool, now2: int, delay2: int)
    requires st.done != []
    ensures var s1 := Selected(st, t1, op1, origin1, alike1, clearRedo1, now1, delay1);
      && s1.done != [] && Last(s1.done) == Selection(t1)
      && Entered(s1.done, t2,
           (op2.Some? && op2 == op1)
             || (origin2 != "" && origin2 == origin1
                 && (origin2[0] == '*' || (origin2[0] == '+' && alike2 && now2 - now1 <= delay2)
                     || (st.lastModTime == now1 && st.lastOrigin == origin2))),
           Selected(s1, t2, op2, origin2, alike2, clearRedo2, now2, delay2).done)
  {
    hide Dropped;
  }

  // ----- which selection an undo and a redo lead to

  /** The stack and selections above it. */
  ghost predicate Topped<S>(s: seq<Entry<S>>, s': seq<Entry<S>>) {
    s <= s' && forall i :: |s| <= i < |s'| ==> s'[i].Selection?
  }

  /** The selection right above the last event of a stack, or this one if there is none. */
  ghost function Above<S>(s: seq<Entry<S>>, sel: S): S {
    if |Dropped(s)| < |s| then s[|Dropped(s)|].sel else sel
  }

  lemma {:induction false} ToppedDropped<S>(s: seq<Entry<S>>, s': seq<Entry<S>>)
    requires Topped(s, s')
    ensures s == [] || Last(s).Event? ==> Dropped(s') == s
    ensures Dropped(s') == Dropped(s)
    decreases |s'|
  {
    if |s| < |s'| {
      ToppedDropped(s, s'[..|s'| - 1]);
    }
  }

  lemma {:induction false} ShiftedAfter<S>(from: seq<Entry<S>>, to: seq<Entry<S>>, after: S)
    ensures var m := Shifted(from, to, after); m.after == Above(from, after) && Topped(to, m.to)
    decreases |from|
  {
    if from != [] && Last(from).Selection? {
      ShiftedAfter(from[..|from| - 1], Pushed(to, Last(from).sel), Last(from).sel);
    }
  }

  /**
   An event that goes to the other stack leaves the selection below it on top of its own, which becomes current, and
   puts the one that was right above it below itself.
   */
  lemma TravelledSelections<S>(s: seq<Entry<S>>, l: seq<Entry<S>>, text: seq<string>, sel: S, generation: nat)
    requires |text| > 0 && Shaped(s) && Dropped(s) != [] && Travelled(s, l, text, sel, generation).Some?
    ensures var t := Travelled(s, l, text, sel, generation).value;
      && t.from == Dropped(s)[..|Dropped(s)| - 1] && t.from != [] && Last(t.from) == Selection(t.sel)
      && |t.to| > 1 && Last(t.to).Event? && t.to[|t.to| - 2] == Selection(Above(s, sel)) && Topped(l, t.to[..|t.to| - 1])
  {
    hide Shaped, Shifted, Reverted;
    DroppedEvent(s);
    ShiftedAfter(s, l, sel);
  }

  /** No entry comes right after the same one. */
  predicate NoRepeats<S(==)>(s: seq<Entry<S>>) {
    |s| <= 1 || (s[|s| - 2] != Last(s) && NoRepeats(s[..|s| - 1]))
  }

  /** All selections above the event go to the other stack in turn; here no two that come together are the same. */
  lemma {:induction false} ShiftedAll<S>(below: seq<Entry<S>>, top: seq<Entry<S>>, to: seq<Entry<S>>, after: S)
    requires below == [] || Last(below).Event?
    requires (forall i :: 0 <= i < |top| ==> top[i].Selection?) && NoRepeats(top)
    requires to != [] && top != [] ==> Last(to) != Last(top)
    ensures Shifted(below + top, to, after).from == below && Shifted(below + top, to, after).to == to + Reversed(top)
    decreases |top|
  {
    hide Dropped, Shifted;
    if top == [] {
      assert below + top == below;
      ShiftedNone(below, to, after);
    } else {
      var x, rest := Last(top), top[..|top| - 1];
      assert below + top == below + rest + [x];
      ShiftedMore(below + rest, x, to, after);
      ShiftedAll(below, rest, to + [x], x.sel);
      assert (to + [x]) + Reversed(rest) == to + ([x] + Reversed(rest));
    }
  }

  lemma ShiftedNone<S>(s: seq<Entry<S>>, to: seq<Entry<S>>, after: S)
    requires s == [] || Last(s).Event?
    ensures Shifted(s, to, after) == Shift(s, to, after)
  {
  }

  lemma ShiftedMore<S>(s: seq<Entry<S>>, x: Entry<S>, to: seq<Entry<S>>, after: S)
    requires x.Selection? && (to != [] ==> Last(to) != x)
    ensures Shifted(s + [x], to, after) == Shifted(s, to + [x], x.sel)
  {
    assert (s + [x])[..|s|] == s;
  }

  /** A list from its end to its start. */
  function Reversed<T>(s: seq<T>): seq<T> {
    if s == [] then [] else [Last(s)] + Reversed(s[..|s| - 1])
  }

  /** After an undo or a redo a selection in another operation, and after a closing mark one without an origin, is put on top of the record. */
  lemma SelectionAfterStop<S>(st: State<S>, a: Action<S>, t: S, op: Option<nat>, origin: string, alike: bool, clearRedo: bool, now: int, delay: int)
    requires Ready(st) && Step(st, a).Some? && Step(st, a).value.done != []
    requires (a.GoBack? && Dropped(st.done) != []) || (a.GoForth? && Dropped(st.undone) != []) || ((a.Close? || a.Mark?) && origin == "")
    requires a.GoBack? || a.GoForth? ==> op.None? || op != st.lastSelOp
    ensures var e := Step(st, a).value; Entered(e.done, t, false, Selected(e, t, op, origin, alike, clearRedo, now, delay).done)
  {
    hide Shaped, Dropped, Travelled;
  }

  /** An edit that takes nothing out and puts nothing in is not recorded. */
  lemma EmptyEdit<S>(st: State<S>, p: Pos, selAfter: S, op: Option<nat>, origin: string, now: int, delay: int)
    requires Ready(st) && ValidChange(st.text, Change(p, p, [""]))
    ensures Edited(st, Change(p, p, [""]), selAfter, op, origin, now, delay) == st
  {
    hide Shaped;
  }

  /** An undo and a redo: the selection below the event, and then the one that was right above it. */
  lemma UndoneSelection<S>(st: State<S>)
    requires Ready(st) && Dropped(st.done) != [] && Undone(st).Some?
    ensures var u, n := Undone(st).value, |Dropped(st.done)|;
      && Ready(u) && u.done == st.done[..n - 1] && u.done != [] && Last(u.done) == Selection(u.sel)
      && Dropped(u.undone) == u.undone && |u.undone| > 1 && u.undone[|u.undone| - 2] == Selection(Above(st.done, st.sel))
      && Topped(st.undone, u.undone[..|u.undone| - 1])
  {
    hide Shaped, Travelled;
    StepReady(st, GoBack);
    TravelledSelections(st.done, st.undone, st.text, st.sel, st.generation);
  }

  lemma RedoneSelection<S>(st: State<S>)
    requires Ready(st) && Dropped(st.undone) != [] && Redone(st).Some?
    ensures var r, n := Redone(st).value, |Dropped(st.undone)|;
      && Ready(r) && r.undone == st.undone[..n - 1] && r.undone != [] && Last(r.undone) == Selection(r.sel)
      && Dropped(r.done) == r.done && |r.done| > 1 && r.done[|r.done| - 2] == Selection(Above(st.undone, st.sel))
      && Topped(st.done, r.done[..|r.done| - 1])
  {
    hide Shaped, Travelled;
    StepReady(st, GoForth);
    TravelledSelections(st.undone, st.done, st.text, st.sel, st.generation);
  }

  lemma ToppedSelf<S>(s: seq<Entry<S>>)
    ensures Topped(s, s)
  {
  }

  /** A redo with only selections above the event that an undo has put there. */
  lemma RedoneAbove<S>(before: seq<Entry<S>>, s: seq<Entry<S>>, st: State<S>)
    requires Ready(st) && Dropped(s) == s && |s| > 1 && s[|s| - 2].Selection? && Topped(before, s[..|s| - 1]) && Topped(s, st.undone)
    requires Redone(st).Some?
    ensures Redone(st).value.sel == s[|s| - 2].sel && Topped(before, Redone(st).value.undone)
  {
    hide Shaped, Redone, Dropped, Topped, Above;
    ToppedDropped(s, st.undone);
    ToppedCut(s, st.undone);
    RedoneSelection(st);
    assert st.undone[..|s| - 1] == s[..|s| - 1];
  }

  lemma ToppedCut<S>(s: seq<Entry<S>>, s': seq<Entry<S>>)
    requires Topped(s, s')
    ensures |s| <= |s'| && s'[..|s|] == s
  {
  }

  /** The selection below a new event: the one on top of the record, or the current one if there was none or all were dropped. */
  lemma BelowEvent<S>(s: seq<Entry<S>>, d: seq<string>, c: Change, sel: S, generation: nat, wantsMerge: bool, sameOp: bool, undoDepth: Option<nat>)
    requires Shaped(s) && ValidChange(d, c) && generation > 0 && Room(undoDepth) && !(wantsMerge && Mergeable(s, sameOp))
    ensures var r := Recorded(s, d, c, sel, generation, wantsMerge, sameOp, undoDepth);
      |r| > 1 && r[|r| - 2] == Selection(if s != [] && Last(s).Selection? && !(wantsMerge && sameOp) then Last(s).sel else sel)
  {
    NothingJoinable(s, sameOp);
    hide Truncated, Inverse, ValidChange, Shaped, WithEvent, Mergeable, Joinable, Joined;
    var event: Entry<S> := Event([Inverse(d, c)], generation);
    var j := if wantsMerge then Joinable(s, sameOp) else s;
    var full := WithEvent(j, sel, event);
    WithEventTop(j, sel, event);
    WithEventShaped(j, d, c, sel, generation);
    TruncatedBelow(full, undoDepth);
  }

  lemma NothingJoinable<S>(s: seq<Entry<S>>, force: bool)
    ensures !Mergeable(s, force) ==> Joinable(s, force) == if force then [] else s
  {
    EventOrNone(s);
  }

  lemma TruncatedBelow<S>(full: seq<Entry<S>>, undoDepth: Option<nat>)
    requires Shaped(full) && full != [] && Last(full).Event? && Room(undoDepth)
    ensures var r := Truncated(full, undoDepth); |r| > 1 && |full| > 1 && r[|r| - 2] == full[|full| - 2]
  {
    hide Truncated, Shaped;
    TruncatedTop(full, undoDepth);
    TruncatedIs(full, undoDepth);
    TruncatedShaped(full, undoDepth);
    SuffixBelow(full, Truncated(full, undoDepth));
  }

  lemma WithEventTop<S>(s: seq<Entry<S>>, sel: S, event: Entry<S>)
    requires event.Event?
    ensures var full := WithEvent(s, sel, event);
      |full| > 1 && Last(full) == event && full[|full| - 2] == Selection(if s != [] && Last(s).Selection? then Last(s).sel else sel)
  {
  }

  lemma SuffixBelow<S>(full: seq<Entry<S>>, r: seq<Entry<S>>)
    requires |r| <= |full| && r == full[|full| - |r|..] && Shaped(r) && r != [] && Last(r).Event?
    ensures |r| > 1 && |full| > 1 && r[|r| - 2] == full[|full| - 2]
  {
    assert r[|r| - 1].Event?;
  }

  lemma SameWants<S>(st: State<S>, op: Option<nat>, origin: string, now: int, delay: int)
    ensures op.Some? && st.lastOp == op ==> WantsMerge(st, op, origin, now, delay)
  {
  }

  /** Selections that do not take the place of an entry. */
  ghost predicate Wandering<S>(st: State<S>, moves: seq<Action<S>>)
    requires Ready(st)
    decreases |moves|
  {
    moves == [] || (
      && moves[0].Select? && !ReplacesTop(st, moves[0].op, moves[0].origin, moves[0].alike, moves[0].now, moves[0].delay)
      && (StepReady(st, moves[0]); Step(st, moves[0]).Some? ==> Wandering(Step(st, moves[0]).value, moves[1..])))
  }

  lemma {:induction false} WanderingKeeps<S>(st: State<S>, moves: seq<Action<S>>)
    requires Ready(st) && Wandering(st, moves)
    ensures Untroubled(st, moves) && Steps(st, moves).Some?
    ensures var e := Steps(st, moves).value; Topped(st.done, e.done) && e.text == st.text
    decreases |moves|
  {
    hide Ready, ReplacesTop;
    if moves != [] {
      StepReady(st, moves[0]);
      WanderingKeeps(Step(st, moves[0]).value, moves[1..]);
    }
  }

  /** The record right after an edit, and after selections on top of it. */
  lemma EventBelow<S>(st: State<S>, c: Change, selAfter: S, op: Option<nat>, origin: string, now: int, delay: int, s: seq<Entry<S>>)
    requires Ready(st) && ValidChange(st.text, c) && !IsNothing(c) && Room(st.undoDepth)
    requires Topped(Edited(st, c, selAfter, op, origin, now, delay).done, s)
    ensures var d := Dropped(s); d != [] && |d| < |s| && s[|d|] == Selection(selAfter)
    ensures var merge, same := WantsMerge(st, op, origin, now, delay), op.Some? && st.lastOp == op;
      !(merge && Mergeable(st.done, same)) ==> var d := Dropped(s);
        |d| > 1 && d[|d| - 2] == Selection(if st.done != [] && Last(st.done).Selection? && !same then Last(st.done).sel else st.sel)
  {
    hide Shaped, Recorded, WantsMerge, Room, ValidChange;
    var merge, same := WantsMerge(st, op, origin, now, delay), op.Some? && st.lastOp == op;
    RecordedTop(st.done, st.text, c, st.sel, st.generation, merge, same, st.undoDepth);
    if !(merge && Mergeable(st.done, same)) {
      BelowEvent(st.done, st.text, c, st.sel, st.generation, merge, same, st.undoDepth);
    }
    SameWants(st, op, origin, now, delay);
    var r := Recorded(st.done, st.text, c, st.sel, st.generation, merge, same, st.undoDepth);
    assert r + [Selection(selAfter)] == Edited(st, c, selAfter, op, origin, now, delay).done;
    assert Topped(r, s) by { assert s[..|r|] == r; }
    ToppedDropped(r, s);
  }

  lemma EditedText<S>(st: State<S>, c: Change, selAfter: S, op: Option<nat>, origin: string, now: int, delay: int)
    requires Ready(st) && ValidChange(st.text, c) && !IsNothing(c)
    ensures Edited(st, c, selAfter, op, origin, now, delay).text == Splice(st.text, c)
  {
    hide Shaped, Recorded, ValidChange, Splice;
  }

  /** Where an undo leads depends on the text and on the last event alone. */
  lemma UndoneText<S>(st: State<S>, st': State<S>)
    requires Ready(st) && Ready(st') && st.text == st'.text && Dropped(st.done) == Dropped(st'.done) != []
    requires Undone(st).Some? && Undone(st').Some?
    ensures Undone(st).value.text == Undone(st').value.text
  {
    hide Shaped, Reverted;
  }

  /** An undo and a redo after a run. */
  lemma ThereAndBack<S>(st: State<S>, run: seq<Action<S>>, e: State<S>, ts: seq<seq<string>>, us: seq<seq<string>>, gens: map<nat, seq<string>>)
    returns (u: State<S>, r: State<S>)
    requires Sound(st, ts, us, gens) && Untroubled(st, run) && Steps(st, run) == Some(e) && Dropped(e.done) != []
    ensures Steps(st, run + [GoBack]) == Some(u) && Steps(st, run + [GoBack, GoForth]) == Some(r)
    ensures Undone(e) == Some(u) && Redone(u) == Some(r) && r.text == e.text
    ensures u.done == Dropped(e.done)[..|Dropped(e.done)| - 1] && u.done != [] && Last(u.done) == Selection(u.sel)
    ensures r.sel == Above(e.done, e.sel)
  {
    hide Stack, Shaped, Steps, Untroubled, Undone, Redone, Undoes, Records.Leads, Dropped;
    var ts1, us1, gens1 := RunSound(st, run, ts, us, gens);
    UndoneSound(e, ts1, us1, gens1);
    u := Undone(e).value;
    UndoneSelection(e);
    RedoneSound(u, ts1[..|ts1| - 1], us1 + [e.text], gens1);
    r := Redone(u).value;
    RedoneSelection(u);
    RunCut(st, run, [GoBack]);
    RunCut(st, run, [GoBack, GoForth]);
    StepsNone(u);
    StepsNone(r);
    RunCons(e, GoBack, []);
    RunCons(e, GoBack, [GoForth]);
    RunCons(u, GoForth, []);
    var back: seq<Action<S>>, forth: seq<Action<S>> := [GoBack], [GoForth];
    assert back == [GoBack] + [] && forth == [GoForth] + [] && [GoBack, GoForth] == [GoBack] + forth;
  }

  /**
   After an edit and any selections that did not take the place of another, an undo of an event of its own goes back to the
   selection before the edit: the one on top of the record, or the current one if there was none or an earlier edit of the same
   operation was undone.  A redo then goes to the selection right after the edit.
   */
  lemma SelectionReturns<S>(st: State<S>, ts: seq<seq<string>>, us: seq<seq<string>>, gens: map<nat, seq<string>>,
                            c: Change, selAfter: S, op: Option<nat>, origin: string, now: int, delay: int, moves: seq<Action<S>>)
    returns (u: State<S>, r: State<S>)
    requires Sound(st, ts, us, gens) && ValidChange(st.text, c) && !IsNothing(c) && Room(st.undoDepth)
    requires Ready(Edited(st, c, selAfter, op, origin, now, delay)) && Wandering(Edited(st, c, selAfter, op, origin, now, delay), moves)
    ensures Steps(Edited(st, c, selAfter, op, origin, now, delay), moves + [GoBack]) == Some(u)
    ensures Steps(Edited(st, c, selAfter, op, origin, now, delay), moves + [GoBack, GoForth]) == Some(r)
    ensures Redone(u) == Some(r) && r.sel == selAfter && r.text == Splice(st.text, c)
    ensures var same := op.Some? && st.lastOp == op;
      !(WantsMerge(st, op, origin, now, delay) && Mergeable(st.done, same)) ==>
        u.text == st.text && u.sel == if st.done != [] && Last(st.done).Selection? && !same then Last(st.done).sel else st.sel
  {
    hide Stack, Shaped, Recorded, WantsMerge, Room, ValidChange, Steps, Step, Edited, Undoes, Records.Leads;
    var e := Edited(st, c, selAfter, op, origin, now, delay);
    var ts1, gens1 := UndoneEdit(st, c, selAfter, op, origin, now, delay, ts, us, gens);
    WanderingKeeps(e, moves);
    var m := Steps(e, moves).value;
    EventBelow(st, c, selAfter, op, origin, now, delay, m.done);
    u, r := ThereAndBack(e, moves, m, ts1, [], gens1);
    ToppedDropped(e.done, m.done);
    UndoneText(e, m);
    EditedText(st, c, selAfter, op, origin, now, delay);
  }
}
