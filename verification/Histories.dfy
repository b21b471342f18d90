/**
 Undo and redo.  The history keeps two stacks of entries and a generation number; beside them,
 for the proof only, it keeps the texts that undoing and redoing lead to and the text each
 generation number stands for.
 */
module Histories {
  import opened Positions
  import opened Texts
  import opened Changes
  import opened HistoryLog
  import opened Keystrokes
  import opened Records
  import opened Runs
  import opened Wrappers

  /** clearSelectionEvents: drop the selections on top of a stack. */
  method DropSelections<S>(s: seq<Entry<S>>) returns (s': seq<Entry<S>>)
    ensures s' == Dropped(s)
    ensures s' <= s && (s' == [] || Last(s').Event?) && forall i :: |s'| <= i < |s| ==> s[i].Selection?
  {
    s' := s;
    while s' != [] && Last(s').Selection?
      invariant Dropped(s') == Dropped(s)
      decreases |s'|
    {
      s' := s'[..|s'| - 1];
    }
  }

  /** lastChangeEvent: bring the event to merge into to the top of the stack, if there is one. */
  method LastChangeEvent<S>(s: seq<Entry<S>>, force: bool) returns (s': seq<Entry<S>>, found: bool)
    ensures s' == Joinable(s, force) && (found <==> Mergeable(s, force))
    ensures s' <= s && forall i :: |s'| <= i < |s| ==> s[i].Selection?
    ensures found ==> s' != [] && Last(s').Event?
  {
    s' := s;
    if force {
      EventOrNone(s);
      s' := DropSelections(s');
      found := s' != [];
    } else if s' != [] && Last(s').Event? {
      found := true;
    } else if |s'| > 1 && s'[|s'| - 2].Event? {
      s' := s'[..|s'| - 1];
      found := true;
    } else {
      found := false;
    }
  }

  /** The edit joins the event on top of the stack. */
  method Merge<S>(s: seq<Entry<S>>, text: seq<string>, c: Change) returns (s': seq<Entry<S>>)
    requires ValidChange(text, c) && s != [] && Last(s).Event? && |Last(s).changes| > 0
    ensures s' == s[..|s| - 1] + [Joined(Last(s), text, c)]
    ensures |s'| == |s| && s'[..|s| - 1] == s[..|s| - 1] && Last(s').Event? && Last(s').generation == Last(s).generation
    ensures |Last(s').changes| == |Last(s).changes| + if c.from == c.to == Last(Last(s).changes).to then 0 else 1
  {
    var event := Last(s);
    var a := Last(event.changes);
    if Cmp(c.from, c.to) == 0 && Cmp(c.from, a.to) == 0 {
      event := event.(changes := event.changes[..|event.changes| - 1] + [a.(to := ChangeEnd(c))]);
    } else {
      event := event.(changes := event.changes + [Inverse(text, c)]);
    }
    s' := s[..|s| - 1] + [event];
  }

  /** The edit becomes an event of its own, on top of the selection before it; old events go when there are too many entries. */
  method NewEvent<S(==)>(s: seq<Entry<S>>, text: seq<string>, c: Change, sel: S, generation: nat, undoDepth: Option<nat>)
    returns (s': seq<Entry<S>>)
    requires Shaped(s) && ValidChange(text, c) && generation > 0
    ensures s' == Truncated(WithEvent(s, sel, Event([Inverse(text, c)], generation)), undoDepth)
    ensures var full := WithEvent(s, sel, Event([Inverse(text, c)], generation));
      && |s'| <= |full| && s' == full[|full| - |s'|..] && (undoDepth.None? ==> s' == full)
      && (undoDepth.Some? ==> |s'| <= undoDepth.value && (|s'| < |full| ==> undoDepth.value < |s'| + 2))
    ensures if undoDepth.None? || undoDepth.value > 1 then s' != [] && Last(s') == Event([Inverse(text, c)], generation) else s' == []
  {
    hide Shaped, Truncated, Inverse, ValidChange;
    s' := s;
    if s' == [] || Last(s').Event? {
      s' := Pushed(s', sel);
    }
    InverseForm(text, c);
    ShapedSnoc(s', [Inverse(text, c)], generation);
    s' := Truncate(s' + [Event([Inverse(text, c)], generation)], undoDepth);
  }

  /** Drop the oldest entries until the stack is short enough. */
  method Truncate<S>(s: seq<Entry<S>>, undoDepth: Option<nat>) returns (s': seq<Entry<S>>)
    requires Shaped(s) && s != [] && Last(s).Event?
    ensures s' == Truncated(s, undoDepth) && |s'| <= |s| && s' == s[|s| - |s'|..]
    ensures undoDepth.Some? ==> |s'| <= undoDepth.value && (|s'| < |s| ==> undoDepth.value < |s'| + 2)
    ensures if undoDepth.None? || undoDepth.value > 1 then s' != [] && Last(s') == Last(s) else s' == []
  {
    hide Shaped;
    TruncatedIs(s, undoDepth);
    TruncatedTop(s, undoDepth);
    s' := s;
    while undoDepth.Some? && |s'| > undoDepth.value
      invariant Truncated(s', undoDepth) == Truncated(s, undoDepth)
      invariant Shaped(s') && (s' != [] ==> Last(s').Event?)
      decreases |s'|
    {
      TopOverSelection(s');
      assert s'[1..][1..] == s'[2..];
      ShapedTail(s', if s'[1].Event? then 2 else 1);
      s' := s'[1..];
      if s'[0].Event? {
        s' := s'[1..];
      }
    }
  }

  /** The edit goes into the last event or makes a new one. */
  method Record<S(==)>(s: seq<Entry<S>>, text: seq<string>, c: Change, sel: S, generation: nat, wantsMerge: bool, sameOp: bool, undoDepth: Option<nat>)
    returns (s': seq<Entry<S>>, merged: bool)
    requires Shaped(s) && ValidChange(text, c) && generation > 0
    ensures s' == Recorded(s, text, c, sel, generation, wantsMerge, sameOp, undoDepth)
    ensures merged <==> wantsMerge && Mergeable(s, sameOp)
  {
    hide Truncated, Joined;
    s', merged := s, false;
    if wantsMerge {
      s', merged := LastChangeEvent(s', sameOp);
    }
    if merged {
      s' := Merge(s', text, c);
    } else {
      s' := NewEvent(s', text, c, sel, generation, undoDepth);
    }
  }

  /** Is there an event to go back to? */
  method HasEvent<S>(s: seq<Entry<S>>) returns (r: bool)
    ensures r <==> Dropped(s) != []
    ensures r <==> Events(s) > 0
  {
    EventOrNone(s);
    var c := 0;
    while c < |s| && s[c].Selection?
      invariant 0 <= c <= |s| && Events(s[..c]) == 0
    {
      assert s[..c + 1][..c] == s[..c];
      c := c + 1;
    }
    assert s[..|s|] == s;
    if c < |s| {
      EventsAt(s, c);
    }
    r := c != |s|;
  }

  /** Move the selections on top of one stack to the other, up to the next event; `after` is the last one moved. */
  method MoveSelections<S(==)>(from: seq<Entry<S>>, to: seq<Entry<S>>, sel: S) returns (from': seq<Entry<S>>, to': seq<Entry<S>>, after: S)
    requires Dropped(from) != []
    ensures Shift(from', to', after) == Shifted(from, to, sel)
  {
    from', to', after := from, to, sel;
    while Last(from').Selection?
      invariant Dropped(from') == Dropped(from) && from' != []
      invariant Shifted(from', to', after) == Shifted(from, to, sel)
      decreases |from'|
    {
      after := Last(from').sel;
      from', to' := from'[..|from'| - 1], Pushed(to', after);
    }
  }

  /** Carry out an event, and collect what takes it back; nothing where the code throws. */
  method Revert(text: seq<string>, cs: seq<Change>) returns (r: Option<Reversal>)
    requires |text| > 0 && forall c :: c in cs ==> EditForm(c)
    ensures r == Reverted(text, cs, [])
  {
    hide Reverted, Applied, TakingBack, EditForm;
    var text', back := text, [];
    var f := |cs|;
    assert cs[..f] == cs;
    while f > 0
      invariant 0 <= f <= |cs| && |text'| > 0 && Reverted(text', cs[..f], back) == Reverted(text, cs, [])
    {
      f := f - 1;
      var c := cs[f];
      RevertedStep(text', cs, f, back);
      if c.text == [] { return None; }
      back, text' := back + [TakingBack(text', c)], Applied(text', c);
    }
    RevertedEnd(text', cs, back);
    return Some(Reversal(text', back));
  }

  /** One event goes from the stack `s` to the stack `l`, and the text goes with it. */
  method Travel<S(==)>(s: seq<Entry<S>>, l: seq<Entry<S>>, text: seq<string>, sel: S, generation: nat) returns (t: Option<Trip<S>>)
    requires |text| > 0 && Shaped(s) && Dropped(s) != []
    ensures t == Travelled(s, l, text, sel, generation)
  {
    hide Shaped, Reverted, Shifted;
    DroppedEvent(s);
    var s', l', after := MoveSelections(s, l, sel);
    var m := Shifted(s, l, sel);
    var event := Last(s');
    l' := Pushed(l', after);
    s' := s'[..|s'| - 1];
    var r := Revert(text, event.changes);
    if r.None? { return None; }
    l' := l' + [Event(r.value.back, generation)];
    return Some(Trip(s', l', event, r.value.text, Last(s').sel));
  }

  /** One step along the line of texts: the current text joins those on one side, the nearest on the other side becomes current. */
  ghost predicate Stepped(ts: seq<seq<string>>, us: seq<seq<string>>, text: seq<string>,
                          ts0: seq<seq<string>>, us0: seq<seq<string>>, text0: seq<string>) {
    |ts0| > 0 && text == Last(ts0) && ts == ts0[..|ts0| - 1] && us == us0 + [text0]
  }

  /** A step one way and a step the other way lead back. */
  lemma BackAgain(ts: seq<seq<string>>, us: seq<seq<string>>, t: seq<string>,
                  ts1: seq<seq<string>>, us1: seq<seq<string>>, t1: seq<string>,
                  ts2: seq<seq<string>>, us2: seq<seq<string>>, t2: seq<string>)
    requires Stepped(ts1, us1, t1, ts, us, t) && Stepped(us2, ts2, t2, us1, ts1, t1)
    ensures ts2 == ts && us2 == us && t2 == t
  {
  }

  /** A selection replaces the entry on top, or is put there unless it is there already. */
  method EnterSelection<S(==)>(s: seq<Entry<S>>, t: S, replace: bool) returns (s': seq<Entry<S>>)
    ensures s' == if replace then WithTop(s, t) else Pushed(s, t)
  {
    s' := s;
    if replace {
      if s != [] {
        s' := s[..|s| - 1] + [Selection(t)];
      }
    } else {
      s' := Pushed(s, t);
    }
  }

  /** A document's text and selection with its history. */
  class Editor<S(==)> {
    var text: seq<string>
    var sel: S
    var done: seq<Entry<S>>
    var undone: seq<Entry<S>>
    const undoDepth: Option<nat>     // no limit if None
    var generation: nat
    var maxGeneration: nat
    var cleanGeneration: nat
    var lastOp: Option<nat>          // None for no operation
    var lastSelOp: Option<nat>
    var lastOrigin: string           // empty for no origin
    var lastSelOrigin: string
    var lastModTime: int
    var lastSelTime: int
    ghost var past: seq<seq<string>>         // the texts that undoing leads to, nearest last
    ghost var future: seq<seq<string>>       // the texts that redoing leads to, nearest last
    ghost var gens: map<nat, seq<string>>    // the text of each generation
    ghost var marked: seq<string>            // the text at the last mark

    /** All of the state but what is kept for the proof. */
    function Now(): State<S>
      reads `text, `sel, `done, `undone, `generation, `maxGeneration, `cleanGeneration, `lastOp, `lastSelOp, `lastOrigin, `lastSelOrigin, `lastModTime, `lastSelTime
    {
      State(text, sel, done, undone, undoDepth, generation, maxGeneration, cleanGeneration,
            lastOp, lastSelOp, lastOrigin, lastSelOrigin, lastModTime, lastSelTime)
    }

    /** The record is sound, and the mark stands for the marked text. */
    ghost predicate Valid()
      reads this
    {
      Sound(Now(), past, future, gens) && gens[cleanGeneration] == marked
    }

    constructor (text: seq<string>, sel: S, undoDepth: Option<nat>)
      requires |text| > 0
      ensures Valid() && Now() == Fresh(text, sel, undoDepth)
      ensures past == [] && future == [] && gens == map[1 := text] && marked == text
    {
      this.text, this.sel, this.undoDepth := text, sel, undoDepth;
      done, undone, past, future := [], [], [], [];
      generation, maxGeneration, cleanGeneration, gens, marked := 1, 1, 1, map[1 := text], text;
      lastOp, lastSelOp, lastOrigin, lastSelOrigin := None, None, "", "";
      lastModTime, lastSelTime := 0, 0;
    }

    // ----- recording edits

    /** addChangeToHistory, for an edit that is about to be made. */
    method AddChange(c: Change, selAfter: S, op: Option<nat>, origin: string, now: int, delay: int) returns (merged: bool)
      requires Ready(Now()) && ValidChange(text, c)
      modifies `undone, `done, `generation, `maxGeneration, `lastModTime, `lastSelTime, `lastOp, `lastSelOp, `lastOrigin, `lastSelOrigin
      ensures Now() == Noted(old(Now()), c, selAfter, op, origin, now, delay)
      ensures merged <==> old(WantsMerge(Now(), op, origin, now, delay) && Mergeable(done, op.Some? && lastOp == op))
    {
      hide Recorded, Shaped, Mergeable, WantsMerge;
      var s;
      s, merged := Record(done, text, c, sel, generation, WantsMerge(Now(), op, origin, now, delay), op.Some? && lastOp == op, undoDepth);
      undone, done := [], s + [Selection(selAfter)];
      maxGeneration := maxGeneration + 1;
      generation := maxGeneration;
      lastModTime, lastSelTime := now, now;
      lastOp, lastSelOp, lastOrigin, lastSelOrigin := op, op, origin, origin;
    }

    /** The edit is recorded and made, unless it changes nothing. */
    method NoteAndMake(c: Change, selAfter: S, op: Option<nat>, origin: string, now: int, delay: int) returns (merged: bool)
      requires Ready(Now()) && ValidChange(text, c)
      modifies `text, `sel, `undone, `done, `generation, `maxGeneration, `lastModTime, `lastSelTime, `lastOp, `lastSelOp, `lastOrigin, `lastSelOrigin
      ensures Now() == Edited(old(Now()), c, selAfter, op, origin, now, delay)
      ensures merged <==> old(WantsMerge(Now(), op, origin, now, delay) && Mergeable(done, op.Some? && lastOp == op)) && !IsNothing(c)
    {
      hide Ready, Noted, Mergeable, WantsMerge, Splice, ValidChange;
      merged := false;
      if |c.text| == 1 && c.text[0] == "" && Cmp(c.from, c.to) == 0 { return; }
      merged := AddChange(c, selAfter, op, origin, now, delay);
      text, sel := Splice(text, c), selAfter;
    }

    /** makeChangeInner: record an edit and make it, unless it changes nothing. */
    method MakeChange(c: Change, selAfter: S, op: Option<nat>, origin: string, now: int, delay: int)
      returns (merged: bool, ghost dropped: nat)
      requires Ready(Now()) && ValidChange(text, c)
      modifies this
      ensures Now() == Edited(old(Now()), c, selAfter, op, origin, now, delay) && marked == old(marked)
      ensures old(Valid()) ==> Valid() && if IsNothing(c) then
          past == old(past) && future == old(future) && gens == old(gens)
        else
          && future == [] && gens == old(gens)[generation := text]
          && IsRecorded(done, text, past, gens, old(text), old(past), old(generation), merged, dropped, undoDepth)
      ensures merged <==> old(WantsMerge(Now(), op, origin, now, delay) && Mergeable(done, op.Some? && lastOp == op)) && !IsNothing(c)
    {
      hide Sound, Ready, Edited, IsRecorded, Mergeable, WantsMerge, ValidChange, Splice;
      ghost var st, sound := Now(), Valid();
      merged := NoteAndMake(c, selAfter, op, origin, now, delay);
      dropped := 0;
      EditedNumbers(st, c, selAfter, op, origin, now, delay);
      if sound && !IsNothing(c) {
        SoundMark(st, past, future, gens);
        past, gens, dropped := EditedSound(st, c, selAfter, op, origin, now, delay, past, future, gens);
        future := [];
      }
    }

    // ----- undo and redo

    /** makeChangeFromHistory, from the record of edits to that of undone edits; `thrown` where the code throws, which a sound record rules out. */
    method Undo() returns (moved: bool, changes: seq<Change>, thrown: bool)
      requires Ready(Now())
      modifies this
      ensures (moved <==> Dropped(old(done)) != []) && (!moved ==> Now() == old(Now()))
      ensures moved && !thrown ==> changes == Last(Dropped(old(done))).changes
      ensures (thrown <==> Undone(old(Now())).None?) && Now() == (if thrown then old(Now()) else Undone(old(Now())).value) && marked == old(marked)
      ensures cleanGeneration == old(cleanGeneration) && lastOp == old(lastOp) && lastSelOp == old(lastSelOp)
      ensures moved && !thrown ==> lastOrigin == lastSelOrigin == ""
      ensures old(Valid()) ==> Valid() && !thrown && gens == old(gens) && (moved <==> old(past) != [])
      ensures old(Valid()) && !moved ==> past == old(past) && future == old(future)
      ensures old(Valid()) && moved ==>
        && Stepped(past, future, text, old(past), old(future), old(text)) && Undoes(changes, old(text), text) && Leads(old(done), generation)
        && done != [] && Last(done) == Selection(sel) && undone != [] && Last(undone).Event?
    {
      hide Stack, Undoes, Shaped, Reverted, Travelled, Leads;
      ghost var st, sound := Now(), Valid();
      moved := HasEvent(done);
      changes, thrown := [], false;
      if sound {
        UndoneSound(st, past, future, gens);
      }
      if !moved { return; }
      var t := Travel(done, undone, text, sel, generation);
      if t.None? { thrown := true; return; }
      TravelledEvent(done, undone, text, sel, generation);
      changes := t.value.event.changes;
      var newGeneration := if t.value.event.generation != 0 then t.value.event.generation else maxGeneration + 1;
      Arrive(t.value.from, t.value.to, t.value.text, t.value.sel, newGeneration);
      if sound {
        past, future := past[..|past| - 1], future + [st.text];
      }
    }

    /** makeChangeFromHistory, from the record of undone edits to that of edits. */
    method Redo() returns (moved: bool, changes: seq<Change>, thrown: bool)
      requires Ready(Now())
      modifies this
      ensures (moved <==> Dropped(old(undone)) != []) && (!moved ==> Now() == old(Now()))
      ensures moved && !thrown ==> changes == Last(Dropped(old(undone))).changes
      ensures (thrown <==> Redone(old(Now())).None?) && Now() == (if thrown then old(Now()) else Redone(old(Now())).value) && marked == old(marked)
      ensures cleanGeneration == old(cleanGeneration) && lastOp == old(lastOp) && lastSelOp == old(lastSelOp)
      ensures moved && !thrown ==> lastOrigin == lastSelOrigin == ""
      ensures old(Valid()) ==> Valid() && !thrown && gens == old(gens) && (moved <==> old(future) != [])
      ensures old(Valid()) && !moved ==> past == old(past) && future == old(future)
      ensures old(Valid()) && moved ==>
        && Stepped(future, past, text, old(future), old(past), old(text)) && Undoes(changes, old(text), text) && Leads(old(undone), generation)
        && undone != [] && Last(undone) == Selection(sel) && done != [] && Last(done).Event?
    {
      hide Stack, Undoes, Shaped, Reverted, Travelled, Leads;
      ghost var st, sound := Now(), Valid();
      moved := HasEvent(undone);
      changes, thrown := [], false;
      if sound {
        RedoneSound(st, past, future, gens);
      }
      if !moved { return; }
      var t := Travel(undone, done, text, sel, generation);
      if t.None? { thrown := true; return; }
      TravelledEvent(undone, done, text, sel, generation);
      changes := t.value.event.changes;
      var newGeneration := if t.value.event.generation != 0 then t.value.event.generation else maxGeneration + 1;
      Arrive(t.value.to, t.value.from, t.value.text, t.value.sel, newGeneration);
      if sound {
        past, future := past + [st.text], future[..|future| - 1];
      }
    }

    /** The new stacks, text, selection and generation take effect; the next edit is not merged by its origin. */
    method Arrive(done': seq<Entry<S>>, undone': seq<Entry<S>>, newText: seq<string>, newSel: S, newGeneration: nat)
      modifies `done, `undone, `text, `sel, `generation, `lastOrigin, `lastSelOrigin
      ensures Now() == old(Now()).(done := done', undone := undone', text := newText, sel := newSel, generation := newGeneration, lastOrigin := "", lastSelOrigin := "")
    {
      lastOrigin, lastSelOrigin := "", "";
      done, undone := done', undone';
      text, sel, generation := newText, newSel, newGeneration;
    }

    /** As many redos as undos lead back to where one was, with the selection from right after the last event. */
    method UndoThenRedo(k: nat)
      requires Valid() && k <= |past|
      modifies this
      ensures Valid() && text == old(text) && past == old(past) && future == old(future) && marked == old(marked)
      ensures Topped(old(undone), undone) && sel == if k == 0 then old(sel) else Above(old(done), old(sel))
      decreases k
    {
      hide Sound, Undoes, Undone, Redone, Ready, Topped, Above;
      if k == 0 {
        ToppedSelf(undone);
        return;
      }
      ValidIsReady();
      ghost var ts, us, t := past, future, text;
      ghost var st := Now();
      var moved, changes, thrown := Undo();
      UndoneSelection(st);
      ghost var ts1, us1, t1 := past, future, text;
      ghost var st1 := Now();
      UndoThenRedo(k - 1);
      ValidIsReady();
      ghost var st2 := Now();
      moved, changes, thrown := Redo();
      RedoneAbove(st.undone, st1.undone, st2);
      BackAgain(ts, us, t, ts1, us1, t1, past, future, text);
    }

    lemma ValidIsReady()
      requires Valid()
      ensures Ready(Now())
    {
    }

    /** Several undos at once: the text that many steps back. */
    method UndoAll(k: nat)
      requires Valid() && k <= |past|
      modifies this
      ensures Valid() && text == if k == 0 then old(text) else old(past)[|old(past)| - k]
      ensures past == old(past)[..|old(past)| - k] && |future| == |old(future)| + k && marked == old(marked)
    {
      hide Sound, Undoes, Undone, Ready;
      var i := 0;
      while i < k
        invariant 0 <= i <= k && Valid()
        invariant text == if i == 0 then old(text) else old(past)[|old(past)| - i]
        invariant past == old(past)[..|old(past)| - i] && |future| == |old(future)| + i && marked == old(marked)
      {
        ValidIsReady();
        var moved, changes, thrown := Undo();
        i := i + 1;
      }
    }

    /** An edit, selections, an undo and a redo: the undo goes back to the selection before the edit, the redo to the one right after it. */
    method MoveAndReturn(c: Change, selAfter: S, op: Option<nat>, origin: string, now: int, delay: int, moves: seq<Action<S>>)
      returns (back: S)
      requires Valid() && ValidChange(text, c) && !IsNothing(c) && Room(undoDepth)
      requires Ready(Edited(Now(), c, selAfter, op, origin, now, delay)) && Wandering(Edited(Now(), c, selAfter, op, origin, now, delay), moves)
      modifies this
      ensures sel == selAfter && text == old(Splice(text, c))
      ensures old(!WantsMerge(Now(), op, origin, now, delay) || !Mergeable(done, op.Some? && lastOp == op)) ==>
        back == old(if done != [] && Last(done).Selection? && !(op.Some? && lastOp == op) then Last(done).sel else sel)
    {
      hide Stack, Shaped, Edited, Steps, Untroubled, Wandering, Undone, Redone, WantsMerge, Mergeable, Dropped, Splice, ValidChange, IsRecorded, Undoes, Records.Leads;
      ghost var u, r := SelectionReturns(Now(), past, future, gens, c, selAfter, op, origin, now, delay, moves);
      WanderingKeeps(Edited(Now(), c, selAfter, op, origin, now, delay), moves);
      ValidIsReady();
      var moved;
      ghost var dropped;
      moved, dropped := MakeChange(c, selAfter, op, origin, now, delay);
      var thrown := Run(moves + [GoBack]);
      assert Now() == u && Step(u, GoForth) == Some(r);
      back := sel;
      thrown := Act(GoForth);
    }

    // ----- the clean state

    /** changeGeneration: the current generation; with `close`, no later edit joins an event from before. */
    method ChangeGeneration(close: bool) returns (g: nat)
      modifies `lastOp, `lastSelOp, `lastOrigin
      ensures g == generation && Now() == if close then Closed(old(Now())) else old(Now())
      ensures close ==> forall op, origin, now, delay :: !WantsMerge(Now(), op, origin, now, delay)
      ensures old(Valid()) ==> Valid() && gens[g] == text
    {
      hide Stack, Shaped;
      if close {
        lastOp, lastSelOp, lastOrigin := None, None, "";
      }
      g := generation;
    }

    method MarkClean()
      modifies `lastOp, `lastSelOp, `lastOrigin, `cleanGeneration, `marked
      ensures Now() == Marked(old(Now())) && IsClean(0) && marked == text
      ensures forall op, origin, now, delay :: !WantsMerge(Now(), op, origin, now, delay)
      ensures old(Valid()) ==> Valid()
    {
      hide Stack, Shaped;
      cleanGeneration := ChangeGeneration(true);
      marked := text;
    }

    /** isClean: against a generation, or against the last mark if that is 0. */
    predicate IsClean(g: nat)
      reads `generation, `cleanGeneration
    {
      generation == if g != 0 then g else cleanGeneration
    }

    /** As long as the record is sound, a document that is clean shows the text it had at the last mark; and so for every generation it once had. */
    lemma CleanText(g: nat)
      requires Valid()
      ensures IsClean(g) && g == 0 ==> text == marked
      ensures IsClean(g) && g != 0 ==> g in gens && text == gens[g]
    {
    }

    /** After a mark, an edit makes the document dirty; undoing it makes it clean again exactly if the record may hold more than one entry. */
    method CleanAgain(c: Change, selAfter: S, op: Option<nat>, origin: string, now: int, delay: int)
      requires Valid() && ValidChange(text, c) && !IsNothing(c)
      modifies this
      ensures Valid() && (IsClean(0) <==> undoDepth.None? || undoDepth.value > 1)
      ensures marked == old(text) && (IsClean(0) ==> text == marked)
    {
      hide Stack, Undoes, Shaped, Recorded, Undone, WantsMerge, Mergeable, Leads, EventOnTop;
      ghost var st := Now();
      MarkClean();
      var merged;
      ghost var dropped;
      merged, dropped := MakeChange(c, selAfter, op, origin, now, delay);
      assert !IsClean(0);
      assert past != [] ==> past[|past| - 1] == old(text);
      ghost var s := done;
      var moved, changes, thrown := Undo();
      if moved {
        LeadsOnTop(s, st.generation, generation);
      }
    }

    // ----- selections

    /** The selection goes into the record. */
    method NoteSelection(t: S, op: Option<nat>, origin: string, alike: bool, clearRedo: bool, now: int, delay: int)
      modifies `done, `undone, `lastSelTime, `lastSelOrigin, `lastSelOp
      ensures Now() == Selected(old(Now()), t, op, origin, alike, clearRedo, now, delay)
    {
      hide ReplacesTop, Dropped, Shaped;
      var replace := ReplacesTop(Now(), op, origin, alike, now, delay);
      var s := EnterSelection(done, t, replace);
      var u := undone;
      if clearRedo {
        u := DropSelections(u);
      }
      done, undone := s, u;
      lastSelTime, lastSelOrigin, lastSelOp := now, origin, op;
    }

    /**
     addSelectionToHistory.  The entry on top is replaced whatever it is, so that the record stays sound
     exactly if that is not an event.
     */
    method AddSelection(t: S, op: Option<nat>, origin: string, alike: bool, clearRedo: bool, now: int, delay: int)
      requires Ready(Now())
      modifies `done, `undone, `lastSelTime, `lastSelOrigin, `lastSelOp
      ensures Now() == Selected(old(Now()), t, op, origin, alike, clearRedo, now, delay) && Ready(Now())
      ensures undone == (if clearRedo then Dropped(old(undone)) else old(undone)) && lastSelOp == op && lastSelOrigin == origin && lastSelTime == now
      ensures old(Valid()) ==> (Valid() <==> !old(Replaces(Now(), op, origin, alike, now, delay)))
      ensures old(Valid()) && !Valid() ==> Events(done) + 1 == |past|
    {
      hide Sound, Ready, Selected, Replaces, Events;
      ghost var st := Now();
      SelectedReady(st, t, op, origin, alike, clearRedo, now, delay);
      if Valid() {
        SelectedSound(st, t, op, origin, alike, clearRedo, now, delay, past, future, gens);
      }
      SelectedFields(st, t, op, origin, alike, clearRedo, now, delay);
      NoteSelection(t, op, origin, alike, clearRedo, now, delay);
    }

    /** setSelectionReplaceHistory: the new selection takes the place of a selection on top, or is added as usual. */
    method ReplaceSelection(t: S, op: Option<nat>, origin: string, alike: bool, clearRedo: bool, now: int, delay: int)
      requires Ready(Now())
      modifies `done, `undone, `lastSelTime, `lastSelOrigin, `lastSelOp, `sel
      ensures Now() == Reselected(old(Now()), t, op, origin, alike, clearRedo, now, delay) && Ready(Now())
      ensures sel == t && (old(done != [] && Last(done).Selection?) ==> done == old(done)[..|old(done)| - 1] + [Selection(t)])
      ensures undone == if clearRedo && !old(done != [] && Last(done).Selection?) then Dropped(old(undone)) else old(undone)
      ensures old(Valid()) ==> (Valid() <==> !old(Replaces(Now(), op, origin, alike, now, delay)))
    {
      hide Stack, Undoes, Shaped, ReplacesTop, Events, Dropped;
      if done != [] && Last(done).Selection? {
        if Valid() {
          WithTopStack(done, text, past, gens, t);
        }
        done, sel := done[..|done| - 1] + [Selection(t)], t;
      } else {
        AddSelection(t, op, origin, alike, clearRedo, now, delay);
        sel := t;
      }
    }

    // ----- runs

    /** One action. */
    method Act(a: Action<S>) returns (thrown: bool)
      requires Ready(Now())
      modifies this
      ensures Ready(Now()) && (thrown <==> Step(old(Now()), a).None?) && Now() == (if thrown then old(Now()) else Step(old(Now()), a).value)
      ensures marked == if a.Mark? then text else old(marked)
    {
      hide Stack, Undoes, Shaped, Edited, Undone, Redone;
      StepReady(Now(), a);
      thrown := false;
      var moved, changes;
      match a
      case Replace(from, to, lines, selAfter, op, origin, now, delay) =>
        ghost var dropped;
        moved, dropped := MakeChange(Replacement(text, from, to, lines), selAfter, op, origin, now, delay);
      case Select(t, op, origin, alike, clearRedo, now, delay) =>
        AddSelection(t, op, origin, alike, clearRedo, now, delay);
        sel := t;
      case Reselect(t, op, origin, alike, clearRedo, now, delay) =>
        ReplaceSelection(t, op, origin, alike, clearRedo, now, delay);
      case GoBack =>
        moved, changes, thrown := Undo();
      case GoForth =>
        moved, changes, thrown := Redo();
      case Close =>
        var g := ChangeGeneration(true);
      case Mark =>
        MarkClean();
    }

    /**
     A run of any actions.  Unless a selection in it takes the place of an event above another event, nothing
     throws, a generation that comes back brings its text back, and a clean document shows the text of the last mark.
     */
    method Run(actions: seq<Action<S>>) returns (thrown: bool)
      requires Ready(Now())
      modifies this
      ensures Ready(Now()) && (thrown <==> Steps(old(Now()), actions).None?) && (!thrown ==> Steps(old(Now()), actions) == Some(Now()))
      ensures (forall a :: a in actions ==> !a.Mark?) ==> marked == old(marked)
      ensures old(Valid()) && Untroubled(old(Now()), actions) ==> !thrown && (IsClean(old(generation)) ==> text == old(text))
      ensures old(Valid()) && Untroubled(old(Now()), actions) && IsClean(0) && (forall a :: a in actions ==> !a.Mark?) ==> text == old(marked)
      ensures old(Valid()) && Untroubled(old(Now()), actions) && IsClean(0) ==>
        forall i :: 0 <= i < |actions| && actions[i].Mark? && (forall j :: i < j < |actions| ==> !actions[j].Mark?) ==>
          Steps(old(Now()), actions[..i]).Some? && text == Steps(old(Now()), actions[..i]).value.text
    {
      hide Sound, Step, Shaped, Untroubled;
      ghost var st := Now();
      if Valid() && Untroubled(st, actions) {
        RunIsClean(st, actions, past, future, gens);
      }
      var n := 0;
      assert actions[0..] == actions;
      while n < |actions|
        invariant n <= |actions| && Ready(Now()) && Steps(Now(), actions[n..]) == Steps(st, actions)
        invariant (forall a :: a in actions ==> !a.Mark?) ==> marked == old(marked)
      {
        assert actions[n..][0] == actions[n] && actions[n..][1..] == actions[n + 1..] && actions[n] in actions;
        thrown := Act(actions[n]);
        if thrown { return; }
        n := n + 1;
      }
      thrown := false;
    }
  }

  /** An edit, an undo and a redo within one operation leave the event of the edit on top of the record. */
  method EditUndoRedo(text: seq<string>, c: Change, op: nat, now: int, delay: int) returns (e: Editor<nat>)
    requires |text| > 0 && ValidChange(text, c) && !IsNothing(c)
    ensures fresh(e) && e.Valid() && e.text == Splice(text, c) && e.past == [text]
    ensures e.done != [] && Last(e.done).Event? && e.lastSelOp == Some(op)
  {
    hide Stack, Shaped, Recorded, Travelled, Mergeable;
    e := new Editor(text, 0, None);
    var merged, moved, changes, thrown;
    ghost var dropped;
    merged, dropped := e.MakeChange(c, 1, Some(op), "", now, delay);
    moved, changes, thrown := e.Undo();
    moved, changes, thrown := e.Redo();
  }

  /**
   A selection made in the same operation takes the place of that event, and undoing no longer leads
   to the text before the edit.
   */
  method LostEvent(text: seq<string>, c: Change, op: nat, now: int, delay: int) returns (e: Editor<nat>)
    requires |text| > 0 && ValidChange(text, c) && !IsNothing(c)
    ensures fresh(e) && e.text == Splice(text, c) && e.past == [text] && Events(e.done) == 0 && !e.Valid()
  {
    hide Stack, Shaped, Dropped;
    e := EditUndoRedo(text, c, op, now, delay);
    e.AddSelection(2, Some(op), "", true, true, now, delay);
  }

  /** With another event below, the next undo makes the document clean although it does not show the marked text. */
  method FalselyClean() returns (e: Editor<nat>)
    ensures fresh(e) && e.IsClean(0) && e.marked == [""] && e.text == ["a"]
  {
    hide Steps, Ready, Sound;
    e := new Editor([""], 0, None);
    e.ValidIsReady();
    var first, second := Change(Pos(0, 0), Pos(0, 0), ["a"]), Change(Pos(0, 0), Pos(0, 0), ["b"]);
    ghost var end := FalseClean();
    var thrown := e.Run(TwoOperations(first, second));
  }

  /**
   Two edits of a new editor, one right after the other, and an undo: both are taken back exactly if they were made in the
   same operation, or have the same origin and this starts with a star, or with a plus and less than the delay has passed.
   */
  method TypeTwice(text: seq<string>, c: Change, op: Option<nat>, origin: string, now: int,
                   c2: Change, op2: Option<nat>, origin2: string, now2: int, delay: int)
    returns (e: Editor<nat>)
    requires |text| > 0 && ValidChange(text, c) && !IsNothing(c) && ValidChange(Splice(text, c), c2) && !IsNothing(c2)
    ensures fresh(e) && e.Valid() && e.text ==
      if (op2.Some? && op2 == op)
        || (origin2 != "" && origin2 == origin && (origin2[0] == '*' || (origin2[0] == '+' && now2 - now < delay)))
      then text else Splice(text, c)
  {
    hide Stack, Shaped, Recorded, Undone, Undoes, Splice, ValidChange, WantsMerge, Mergeable, IsRecorded, Edited, Records.Leads;
    e := new Editor(text, 0, None);
    NothingToMerge<nat>();
    ghost var st := e.Now();
    AloneEdit(st, [], [], e.gens, c, 1, op, origin, now, delay);
    SecondEdit(st, [], [], e.gens, c, 1, op, origin, now, delay, c2, 2, op2, origin2, now2, delay);
    var merged, moved, changes, thrown;
    ghost var dropped;
    merged, dropped := e.MakeChange(c, 1, op, origin, now, delay);
    merged, dropped := e.MakeChange(c2, 2, op2, origin2, now2, delay);
    moved, changes, thrown := e.Undo();
  }

  lemma NothingToMerge<S>()
    ensures forall force :: !Mergeable<S>([], force)
  {
  }
}
