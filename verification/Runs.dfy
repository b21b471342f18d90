/**
 Runs of an editor: as long as no selection takes the place of an event above another event, every
 generation number stands for one text, and no undo throws.
 */
module Runs {
  import opened Positions
  import opened Texts
  import opened Changes
  import opened HistoryLog
  import opened Records
  import opened Wrappers

  /** No generation number stands for two texts, and the current one stands for the current text. */
  ghost predicate Numbered<S>(st: State<S>, gens: map<nat, seq<string>>) {
    && 0 < st.generation && st.generation in gens && gens[st.generation] == st.text
    && st.cleanGeneration in gens
    && forall k :: k in gens ==> k <= st.maxGeneration
  }

  /** The record leads back to the texts `ts` and on to the texts `us`, and the generations stand for the texts `gens`. */
  ghost predicate Sound<S>(st: State<S>, ts: seq<seq<string>>, us: seq<seq<string>>, gens: map<nat, seq<string>>) {
    Ready(st) && Stack(st.done, st.text, ts, gens) && Stack(st.undone, st.text, us, gens) && Numbered(st, gens)
  }

  lemma SoundMark<S>(st: State<S>, ts: seq<seq<string>>, us: seq<seq<string>>, gens: map<nat, seq<string>>)
    requires Sound(st, ts, us, gens)
    ensures Ready(st) && st.generation in gens && st.cleanGeneration in gens && st.cleanGeneration <= st.maxGeneration
  {
  }

  /** Generations keep their texts. */
  ghost predicate Extends(gens: map<nat, seq<string>>, gens': map<nat, seq<string>>) {
    forall k {:trigger k in gens} {:trigger k in gens'} :: k in gens ==> k in gens' && gens'[k] == gens[k]
  }

  // ----- single steps

  /** An edit takes the next generation; undoing it leads back, or further if it was merged. */
  lemma EditedSound<S>(st: State<S>, c: Change, selAfter: S, op: Option<nat>, origin: string, now: int, delay: int,
                       ts: seq<seq<string>>, us: seq<seq<string>>, gens: map<nat, seq<string>>)
    returns (ts': seq<seq<string>>, gens': map<nat, seq<string>>, dropped: nat)
    requires Sound(st, ts, us, gens) && ValidChange(st.text, c) && !IsNothing(c)
    ensures var e := Edited(st, c, selAfter, op, origin, now, delay);
      && Sound(e, ts', [], gens') && gens' == gens[e.generation := e.text]
      && IsRecorded(e.done, e.text, ts', gens', st.text, ts, st.generation,
           WantsMerge(st, op, origin, now, delay) && Mergeable(st.done, op.Some? && st.lastOp == op), dropped, st.undoDepth)
  {
    hide Stack, Recorded, Shaped, Mergeable;
    var merge, same := WantsMerge(st, op, origin, now, delay), op.Some? && st.lastOp == op;
    gens' := gens[st.maxGeneration + 1 := Splice(st.text, c)];
    StackMore(st.done, st.text, ts, gens, gens');
    ts', dropped := RecordedStack(st.done, st.text, c, st.sel, selAfter, st.generation, merge, same, st.undoDepth, ts, gens');
    RecordedShaped(st.done, st.text, c, st.sel, st.generation, merge, same, st.undoDepth);
    ShapedSelect(Recorded(st.done, st.text, c, st.sel, st.generation, merge, same, st.undoDepth), selAfter);
    StackNone<S>(Splice(st.text, c), gens');
    ShapedNone<S>();
  }

  lemma EditedNumbers<S>(st: State<S>, c: Change, selAfter: S, op: Option<nat>, origin: string, now: int, delay: int)
    requires Ready(st) && ValidChange(st.text, c)
    ensures var e := Edited(st, c, selAfter, op, origin, now, delay);
      e.cleanGeneration == st.cleanGeneration && if IsNothing(c) then e == st else e.generation == e.maxGeneration == st.maxGeneration + 1
  {
    hide Recorded;
  }

  /** An undo does not throw and leads to the nearest text behind. */
  lemma UndoneSound<S>(st: State<S>, ts: seq<seq<string>>, us: seq<seq<string>>, gens: map<nat, seq<string>>)
    requires Sound(st, ts, us, gens)
    ensures Undone(st).Some? && (Dropped(st.done) != [] <==> ts != [])
    ensures ts != [] ==> var e := Undone(st).value;
      && Sound(e, ts[..|ts| - 1], us + [st.text], gens) && e.text == Last(ts) && Leads(st.done, e.generation)
      && Undoes(Last(Dropped(st.done)).changes, st.text, e.text)
      && e.done != [] && Last(e.done) == Selection(e.sel) && e.undone != [] && Last(e.undone).Event?
  {
    hide Stack, Undoes, Shaped, Reverted, Leads;
    DroppedStack(st.done, st.text, ts, gens);
    if ts != [] {
      TravelledStack(st.done, st.undone, st.text, st.sel, st.generation, ts, us, gens);
      TravelledShaped(st.done, st.undone, st.text, st.sel, st.generation);
    }
  }

  /** The same for a redo and the texts ahead. */
  lemma RedoneSound<S>(st: State<S>, ts: seq<seq<string>>, us: seq<seq<string>>, gens: map<nat, seq<string>>)
    requires Sound(st, ts, us, gens)
    ensures Redone(st).Some? && (Dropped(st.undone) != [] <==> us != [])
    ensures us != [] ==> var e := Redone(st).value;
      && Sound(e, ts + [st.text], us[..|us| - 1], gens) && e.text == Last(us) && Leads(st.undone, e.generation)
      && Undoes(Last(Dropped(st.undone)).changes, st.text, e.text)
      && e.undone != [] && Last(e.undone) == Selection(e.sel) && e.done != [] && Last(e.done).Event?
  {
    hide Stack, Undoes, Shaped, Reverted, Leads;
    DroppedStack(st.undone, st.text, us, gens);
    if us != [] {
      TravelledStack(st.undone, st.done, st.text, st.sel, st.generation, us, ts, gens);
      TravelledShaped(st.undone, st.done, st.text, st.sel, st.generation);
    }
  }

  /** A new selection in the place of the entry on top: sound over a selection, and never over an event. */
  lemma WithTopStack<S>(s: seq<Entry<S>>, d: seq<string>, ts: seq<seq<string>>, gens: map<nat, seq<string>>, t: S)
    requires Stack(s, d, ts, gens)
    ensures s == [] || Last(s).Selection? ==> Stack(WithTop(s, t), d, ts, gens)
    ensures s != [] && Last(s).Event? ==> Events(WithTop(s, t)) + 1 == |ts| == Events(s) && !Stack(WithTop(s, t), d, ts, gens)
  {
    if s != [] {
      var s' := WithTop(s, t);
      assert s'[..|s'| - 1] == s[..|s| - 1];
      StackEvents(s, d, ts, gens);
      if Stack(s', d, ts, gens) {
        StackEvents(s', d, ts, gens);
      }
    }
  }

  /** A stack of selections alone. */
  lemma {:induction false} SelectionsStack<S>(s: seq<Entry<S>>, d: seq<string>, gens: map<nat, seq<string>>)
    requires Events(s) == 0
    ensures Stack(s, d, [], gens)
  {
    if s != [] {
      SelectionsStack(s[..|s| - 1], d, gens);
    }
  }

  /** The selection takes the place of an event. */
  predicate Replaces<S>(st: State<S>, op: Option<nat>, origin: string, alike: bool, now: int, delay: int) {
    ReplacesTop(st, op, origin, alike, now, delay) && st.done != [] && Last(st.done).Event?
  }

  /** A selection keeps the record sound exactly if it does not take the place of an event. */
  lemma SelectedSound<S>(st: State<S>, t: S, op: Option<nat>, origin: string, alike: bool, clearRedo: bool, now: int, delay: int,
                         ts: seq<seq<string>>, us: seq<seq<string>>, gens: map<nat, seq<string>>)
    requires Sound(st, ts, us, gens)
    ensures var e := Selected(st, t, op, origin, alike, clearRedo, now, delay);
      && Ready(e) && (Sound(e, ts, us, gens) <==> !Replaces(st, op, origin, alike, now, delay))
      && (!Sound(e, ts, us, gens) ==> Events(e.done) + 1 == |ts|)
      && (Replaces(st, op, origin, alike, now, delay) && Events(st.done) == 1 ==> Sound(e, [], us, gens))
  {
    hide Stack, Events, Shaped;
    DroppedStack(st.undone, st.text, us, gens);
    WithTopStack(st.done, st.text, ts, gens, t);
    StackPushed(st.done, st.text, ts, gens, t);
    if Events(WithTop(st.done, t)) == 0 {
      SelectionsStack(WithTop(st.done, t), st.text, gens);
    }
  }

  lemma SelectedFields<S>(st: State<S>, t: S, op: Option<nat>, origin: string, alike: bool, clearRedo: bool, now: int, delay: int)
    ensures var e := Selected(st, t, op, origin, alike, clearRedo, now, delay);
      && e.undone == (if clearRedo then Dropped(st.undone) else st.undone)
      && e.lastSelOp == op && e.lastSelOrigin == origin && e.lastSelTime == now
  {
  }

  lemma SelectedReady<S>(st: State<S>, t: S, op: Option<nat>, origin: string, alike: bool, clearRedo: bool, now: int, delay: int)
    requires Ready(st)
    ensures var e := Selected(st, t, op, origin, alike, clearRedo, now, delay); Ready(e) && e.cleanGeneration == st.cleanGeneration
  {
    hide Shaped;
  }

  // ----- runs

  /** The action is a selection that takes the place of an event while another event is below it. */
  predicate Spoils<S>(st: State<S>, a: Action<S>) {
    match a
    case Select(_, op, origin, alike, _, now, delay) => Replaces(st, op, origin, alike, now, delay) && Events(st.done) > 1
    case Reselect(_, op, origin, alike, _, now, delay) => Replaces(st, op, origin, alike, now, delay) && Events(st.done) > 1
    case _ => false
  }

  /** Every action but a spoiling one keeps the record sound, and none of them throws. */
  lemma StepSound<S>(st: State<S>, a: Action<S>, ts: seq<seq<string>>, us: seq<seq<string>>, gens: map<nat, seq<string>>)
    returns (ts': seq<seq<string>>, us': seq<seq<string>>, gens': map<nat, seq<string>>)
    requires Sound(st, ts, us, gens) && !Spoils(st, a)
    ensures Step(st, a).Some? && Sound(Step(st, a).value, ts', us', gens') && Extends(gens, gens')
  {
    hide Stack, Events, Shaped, Undoes, Travelled, Recorded, Mergeable, WantsMerge, ReplacesTop, Leads, IsRecorded;
    ts', us', gens' := ts, us, gens;
    match a
    case Replace(from, to, lines, selAfter, op, origin, now, delay) =>
      var c := Replacement(st.text, from, to, lines);
      if !IsNothing(c) {
        var dropped;
        ts', gens', dropped := EditedSound(st, c, selAfter, op, origin, now, delay, ts, us, gens);
        us' := [];
      }
    case Select(t, op, origin, alike, clearRedo, now, delay) =>
      SelectedSound(st, t, op, origin, alike, clearRedo, now, delay, ts, us, gens);
      ts' := if Replaces(st, op, origin, alike, now, delay) then [] else ts;
      EventsOfTop(st.done);
    case Reselect(t, op, origin, alike, clearRedo, now, delay) =>
      if st.done != [] && Last(st.done).Selection? {
        WithTopStack(st.done, st.text, ts, gens, t);
      } else {
        SelectedSound(st, t, op, origin, alike, clearRedo, now, delay, ts, us, gens);
        ts' := if Replaces(st, op, origin, alike, now, delay) then [] else ts;
        EventsOfTop(st.done);
      }
    case GoBack =>
      UndoneSound(st, ts, us, gens);
      if ts != [] { ts', us' := ts[..|ts| - 1], us + [st.text]; }
    case GoForth =>
      RedoneSound(st, ts, us, gens);
      if us != [] { us', ts' := us[..|us| - 1], ts + [st.text]; }
    case _ =>
  }

  lemma EventsOfTop<S>(s: seq<Entry<S>>)
    ensures s != [] && Last(s).Event? ==> Events(s) > 0
  {
  }

  /** A run; None where the code throws. */
  ghost function Steps<S>(st: State<S>, actions: seq<Action<S>>): (r: Option<State<S>>)
    requires Ready(st)
    ensures r.Some? ==> Ready(r.value)
    decreases |actions|
  {
    if actions == [] then Some(st)
    else
      StepReady(st, actions[0]);
      match Step(st, actions[0])
      case None => None
      case Some(e) => Steps(e, actions[1..])
  }

  /** No action of the run spoils the record. */
  ghost predicate Untroubled<S>(st: State<S>, actions: seq<Action<S>>)
    requires Ready(st)
    decreases |actions|
  {
    actions == [] || (
      && !Spoils(st, actions[0])
      && (StepReady(st, actions[0]); Step(st, actions[0]).Some? ==> Untroubled(Step(st, actions[0]).value, actions[1..])))
  }

  /** An untroubled run never throws and leaves a sound record, in which the generations stand for the texts they stood for. */
  lemma {:induction false} RunSound<S>(st: State<S>, actions: seq<Action<S>>, ts: seq<seq<string>>, us: seq<seq<string>>, gens: map<nat, seq<string>>)
    returns (ts': seq<seq<string>>, us': seq<seq<string>>, gens': map<nat, seq<string>>)
    requires Sound(st, ts, us, gens) && Untroubled(st, actions)
    ensures Steps(st, actions).Some? && Sound(Steps(st, actions).value, ts', us', gens') && Extends(gens, gens')
    decreases |actions|
  {
    hide Stack, Numbered, Shaped, Step, Spoils;
    ts', us', gens' := ts, us, gens;
    if actions != [] {
      var ts1, us1, gens1 := StepSound(st, actions[0], ts, us, gens);
      ts', us', gens' := RunSound(Step(st, actions[0]).value, actions[1..], ts1, us1, gens1);
    }
  }

  /** A run may be cut in two. */
  lemma {:induction false} RunCut<S>(st: State<S>, a: seq<Action<S>>, b: seq<Action<S>>)
    requires Ready(st)
    ensures Steps(st, a).None? ==> Steps(st, a + b).None?
    ensures Steps(st, a).Some? ==> Steps(st, a + b) == Steps(Steps(st, a).value, b)
    ensures Untroubled(st, a + b) ==> Untroubled(st, a) && (Steps(st, a).Some? ==> Untroubled(Steps(st, a).value, b))
    decreases |a|
  {
    hide Ready, Step, Spoils;
    if a == [] {
      assert a + b == b;
    } else {
      assert (a + b)[0] == a[0] && (a + b)[1..] == a[1..] + b;
      StepReady(st, a[0]);
      if Step(st, a[0]).Some? {
        RunCut(Step(st, a[0]).value, a[1..], b);
      }
    }
  }

  /** In an untroubled run a generation that comes back brings its text back. */
  lemma SameGeneration<S>(st: State<S>, actions: seq<Action<S>>, ts: seq<seq<string>>, us: seq<seq<string>>, gens: map<nat, seq<string>>)
    requires Sound(st, ts, us, gens) && Untroubled(st, actions)
    ensures Steps(st, actions).Some?
    ensures Steps(st, actions).value.generation == st.generation ==> Steps(st, actions).value.text == st.text
  {
    hide Steps, Untroubled, Stack;
    var ts', us', gens' := RunSound(st, actions, ts, us, gens);
  }

  /** Only a mark changes the mark. */
  lemma {:induction false} MarkStays<S>(st: State<S>, actions: seq<Action<S>>)
    requires Ready(st) && Steps(st, actions).Some? && forall a :: a in actions ==> !a.Mark?
    ensures Steps(st, actions).value.cleanGeneration == st.cleanGeneration
    decreases |actions|
  {
    hide Ready, Recorded, Travelled, Shaped, Dropped, ReplacesTop, WithTop, Pushed, Splice, ValidChange;
    if actions != [] {
      StepReady(st, actions[0]);
      MarkStays(Step(st, actions[0]).value, actions[1..]);
    }
  }

  /** After an untroubled run a clean document shows the text of the last mark. */
  lemma CleanShowsMark<S>(st: State<S>, before: seq<Action<S>>, after: seq<Action<S>>, ts: seq<seq<string>>, us: seq<seq<string>>, gens: map<nat, seq<string>>)
    requires Sound(st, ts, us, gens) && Untroubled(st, before + ([Mark] + after)) && forall a :: a in after ==> !a.Mark?
    ensures Steps(st, before).Some? && Steps(st, before + ([Mark] + after)).Some?
    ensures var m, e := Steps(st, before).value, Steps(st, before + ([Mark] + after)).value;
      e.generation == e.cleanGeneration ==> e.text == m.text
  {
    hide Stack, Numbered, Shaped, Spoils, Steps, Untroubled;
    RunCut(st, before, [Mark] + after);
    var ts1, us1, gens1 := RunSound(st, before, ts, us, gens);
    var m := Steps(st, before).value;
    RunCons(m, Mark, after);
    CleanFromMark(m, after, ts1, us1, gens1);
  }

  lemma RunCons<S>(st: State<S>, a: Action<S>, rest: seq<Action<S>>)
    requires Ready(st) && Step(st, a).Some? && Ready(Step(st, a).value)
    ensures Steps(st, [a] + rest) == Steps(Step(st, a).value, rest)
    ensures Untroubled(st, [a] + rest) <==> !Spoils(st, a) && Untroubled(Step(st, a).value, rest)
  {
    hide Ready, Step, Spoils;
    assert ([a] + rest)[0] == a && ([a] + rest)[1..] == rest;
  }

  lemma CleanFromMark<S>(m: State<S>, after: seq<Action<S>>, ts: seq<seq<string>>, us: seq<seq<string>>, gens: map<nat, seq<string>>)
    requires Sound(m, ts, us, gens) && Untroubled(Marked(m), after) && forall a :: a in after ==> !a.Mark?
    ensures var e := Steps(Marked(m), after); e.Some? && (e.value.generation == e.value.cleanGeneration ==> e.value.text == m.text)
  {
    hide Stack, Shaped, Steps, Untroubled;
    SameGeneration(Marked(m), after, ts, us, gens);
    MarkStays(Marked(m), after);
  }

  /** A run without a mark. */
  lemma CleanUnmarked<S>(st: State<S>, actions: seq<Action<S>>, ts: seq<seq<string>>, us: seq<seq<string>>, gens: map<nat, seq<string>>)
    requires Sound(st, ts, us, gens) && Untroubled(st, actions) && forall a :: a in actions ==> !a.Mark?
    ensures Steps(st, actions).Some?
    ensures var e := Steps(st, actions).value; e.generation == e.cleanGeneration ==> e.text == gens[st.cleanGeneration]
  {
    hide Steps, Untroubled, Stack, Shaped;
    var ts', us', gens' := RunSound(st, actions, ts, us, gens);
    MarkStays(st, actions);
  }

  /** All of this about one run. */
  lemma RunIsClean<S>(st: State<S>, actions: seq<Action<S>>, ts: seq<seq<string>>, us: seq<seq<string>>, gens: map<nat, seq<string>>)
    requires Sound(st, ts, us, gens) && Untroubled(st, actions)
    ensures Steps(st, actions).Some?
    ensures var e := Steps(st, actions).value;
      && (e.generation == st.generation ==> e.text == st.text)
      && (e.generation == e.cleanGeneration && (forall a :: a in actions ==> !a.Mark?) ==> e.text == gens[st.cleanGeneration])
      && (e.generation == e.cleanGeneration ==>
           forall i :: 0 <= i < |actions| && actions[i].Mark? && (forall j :: i < j < |actions| ==> !actions[j].Mark?) ==>
             Steps(st, actions[..i]).Some? && e.text == Steps(st, actions[..i]).value.text)
  {
    hide Steps, Untroubled, Stack, Shaped;
    SameGeneration(st, actions, ts, us, gens);
    if forall a :: a in actions ==> !a.Mark? {
      CleanUnmarked(st, actions, ts, us, gens);
    }
    var e := Steps(st, actions).value;
    forall i | 0 <= i < |actions| && actions[i].Mark? && (forall j :: i < j < |actions| ==> !actions[j].Mark?) && e.generation == e.cleanGeneration
      ensures Steps(st, actions[..i]).Some? && e.text == Steps(st, actions[..i]).value.text
    {
      assert actions == actions[..i] + ([actions[i]] + actions[i + 1..]);
      CleanShowsMark(st, actions[..i], actions[i + 1..], ts, us, gens);
    }
  }

  // ----- a run that spoils the record

  lemma {:induction false} UndoesTexts(cs: seq<Change>, d: seq<string>, d0: seq<string>)
    requires Undoes(cs, d, d0)
    ensures forall c :: c in cs ==> |c.text| > 0
  {
    if cs != [] {
      UndoesTexts(cs[..|cs| - 1], Splice(d, Last(cs)), d0);
      forall c | c in cs ensures |c.text| > 0 {
        var i :| 0 <= i < |cs| && cs[i] == c;
        assert i < |cs| - 1 ==> cs[..|cs| - 1][i] == c;
      }
    }
  }

  /** Edits with text can be carried out on any text. */
  lemma {:induction false} RevertedSome(text: seq<string>, cs: seq<Change>, back: seq<Change>)
    requires |text| > 0 && forall c :: c in cs ==> EditForm(c) && |c.text| > 0
    ensures Reverted(text, cs, back).Some?
    decreases |cs|
  {
    if cs != [] {
      RevertedSome(Applied(text, Last(cs)), cs[..|cs| - 1], back + [TakingBack(text, Last(cs))]);
    }
  }

  /** The event that a selection in the place of the topmost one leaves on top. */
  lemma SpoiledTop<S>(s: seq<Entry<S>>, t: S, d: seq<string>, ts: seq<seq<string>>, gens: map<nat, seq<string>>)
    requires Shaped(s) && Stack(s, d, ts, gens) && s != [] && Last(s).Event? && Events(s) > 1
    ensures |ts| > 1 && Dropped(WithTop(s, t)) != []
    ensures var event := Last(Dropped(WithTop(s, t)));
      && event.Event? && event.generation in gens && gens[event.generation] == ts[|ts| - 2]
      && |event.changes| > 0 && Undoes(event.changes, Last(ts), ts[|ts| - 2])
  {
    hide Stack, Undoes, Shaped;
    var below := s[..|s| - 1];
    StackEvents(s, d, ts, gens);
    StackTop(s, d, ts, gens);
    StackSelect(below, Last(ts), ts[..|ts| - 1], gens, t);
    DroppedStack(WithTop(s, t), Last(ts), ts[..|ts| - 1], gens);
    StackTop(Dropped(WithTop(s, t)), Last(ts), ts[..|ts| - 1], gens);
  }

  /** Carrying out these edits leads from both texts to the same one. */
  ghost predicate SameEnd(cs: seq<Change>, d: seq<string>, d': seq<string>) {
    && |d| > 0 && |d'| > 0 && (forall c :: c in cs ==> EditForm(c))
    && Reverted(d, cs, []).Some? && Reverted(d', cs, []).Some?
    && Reverted(d, cs, []).value.text == Reverted(d', cs, []).value.text
  }

  /**
   After a spoiling selection the next undo carries out the event below on the current text and takes over the
   generation of that event.  The text is the one of that generation exactly if the event leads there from the
   current text as well as from the text that the lost event led to.
   */
  lemma SpoiledUndo<S>(st: State<S>, a: Action<S>, ts: seq<seq<string>>, us: seq<seq<string>>, gens: map<nat, seq<string>>)
    returns (s: State<S>, event: Entry<S>, e: State<S>)
    requires Sound(st, ts, us, gens) && Spoils(st, a)
    ensures Step(st, a) == Some(s) && Ready(s) && Dropped(s.done) != [] && event == Last(Dropped(s.done)) && Undone(s) == Some(e)
    ensures |ts| > 1 && event.Event? && e.generation == event.generation && e.generation in gens
    ensures e.text == gens[e.generation] <==> SameEnd(event.changes, st.text, Last(ts))
  {
    hide Stack, Undoes, Shaped, Reverted, Events, ReplacesTop;
    StepReady(st, a);
    s := Step(st, a).value;
    SpoiledTop(st.done, a.sel, st.text, ts, gens);
    DroppedEvent(s.done);
    event := Last(Dropped(s.done));
    var cs := event.changes;
    UndoesTexts(cs, Last(ts), ts[|ts| - 2]);
    RevertedSome(st.text, cs, []);
    UndoesNone(Last(ts));
    StackTexts(st.done, st.text, ts, gens);
    RevertedUndoes(Last(ts), cs, [], Last(ts), ts[|ts| - 2]);
    e := Undone(s).value;
  }

  lemma StackTexts<S>(s: seq<Entry<S>>, d: seq<string>, ts: seq<seq<string>>, gens: map<nat, seq<string>>)
    requires |d| > 0 && Stack(s, d, ts, gens) && s != [] && Last(s).Event?
    ensures |ts| > 0 && |Last(ts)| > 0
  {
    StackTop(s, d, ts, gens);
    UndoesText(Last(s).changes, d, Last(ts));
  }

  lemma {:induction false} UndoesText(cs: seq<Change>, d: seq<string>, d0: seq<string>)
    requires |d| > 0 && Undoes(cs, d, d0)
    ensures |d0| > 0
  {
    if cs != [] {
      UndoesText(cs[..|cs| - 1], Splice(d, Last(cs)), d0);
    }
  }

  /** A new editor. */
  function Fresh<S>(text: seq<string>, sel: S, undoDepth: Option<nat>): State<S> {
    State(text, sel, [], [], undoDepth, 1, 1, 1, None, None, "", "", 0, 0)
  }

  /** A selection in operation 2. */
  const CURSOR: Action<nat> := Select(3, Some(2), "", true, true, 0, 0)

  // An edit in operation 1 and another in operation 2, which then undoes, redoes and sets the cursor.

  function After1(d: seq<string>, c: Change): State<nat>
    requires ValidChange(d, c)
  {
    Fresh(d, 0 as nat, None).(text := Splice(d, c), sel := 1, done := [Selection(0), Event([Inverse(d, c)], 1), Selection(1)],
                       generation := 2, maxGeneration := 2, lastOp := Some(1), lastSelOp := Some(1))
  }

  function After2(d: seq<string>, c: Change, c2: Change): State<nat>
    requires ValidChange(d, c) && ValidChange(Splice(d, c), c2)
  {
    After1(d, c).(text := Splice(Splice(d, c), c2), sel := 2,
                  done := [Selection(0), Event([Inverse(d, c)], 1), Selection(1), Event([Inverse(Splice(d, c), c2)], 2), Selection(2)],
                  generation := 3, maxGeneration := 3, lastOp := Some(2), lastSelOp := Some(2))
  }

  function After3(d: seq<string>, c: Change, c2: Change): State<nat>
    requires ValidChange(d, c) && ValidChange(Splice(d, c), c2)
  {
    After2(d, c, c2).(text := Splice(d, c), sel := 1, done := After1(d, c).done, undone := [Selection(2), Event([c2], 3)], generation := 2)
  }

  function After4(d: seq<string>, c: Change, c2: Change): State<nat>
    requires ValidChange(d, c) && ValidChange(Splice(d, c), c2)
  {
    After2(d, c, c2).(done := [Selection(0), Event([Inverse(d, c)], 1), Selection(1), Event([Inverse(Splice(d, c), c2)], 2)],
                      undone := [Selection(2)])
  }

  function After5(d: seq<string>, c: Change, c2: Change): State<nat>
    requires ValidChange(d, c) && ValidChange(Splice(d, c), c2)
  {
    After2(d, c, c2).(sel := 3, done := [Selection(0), Event([Inverse(d, c)], 1), Selection(1), Selection(3)])
  }

  lemma EditIs<S>(st: State<S>, c: Change, selAfter: S, op: nat)
    requires Ready(st) && ValidChange(st.text, c) && !IsNothing(c) && st.undoDepth.None? && st.lastOp != Some(op)
    ensures Edited(st, c, selAfter, Some(op), "", 0, 0) == st.(
      text := Splice(st.text, c), sel := selAfter, undone := [],
      done := WithEvent(st.done, st.sel, Event([Inverse(st.text, c)], st.generation)) + [Selection(selAfter)],
      generation := st.maxGeneration + 1, maxGeneration := st.maxGeneration + 1,
      lastOp := Some(op), lastSelOp := Some(op), lastOrigin := "", lastSelOrigin := "", lastModTime := 0, lastSelTime := 0)
  {
  }

  lemma Edits(d: seq<string>, c: Change, c2: Change)
    requires ValidChange(d, c) && ValidChange(Splice(d, c), c2) && !IsNothing(c) && !IsNothing(c2)
    ensures Ready(Fresh(d, 0 as nat, None)) && Edited(Fresh(d, 0 as nat, None), c, 1, Some(1), "", 0, 0) == After1(d, c)
    ensures Ready(After1(d, c)) && Edited(After1(d, c), c2, 2, Some(2), "", 0, 0) == After2(d, c, c2)
  {
    hide Edited, Splice, Inverse, Shaped;
    ShapedAfter1(d, c);
    EditIs(Fresh(d, 0 as nat, None), c, 1, 1);
    EditIs(After1(d, c), c2, 2, 2);
  }

  /** An edit that fits is the one made. */
  lemma ReplaceFits<S>(st: State<S>, c: Change, selAfter: S, op: nat)
    requires Ready(st) && ValidChange(st.text, c)
    ensures Step(st, Replace(c.from, c.to, c.text, selAfter, Some(op), "", 0, 0)) == Some(Edited(st, c, selAfter, Some(op), "", 0, 0))
  {
    hide Edited, Shaped;
  }

  lemma ShapedAfter1(d: seq<string>, c: Change)
    requires ValidChange(d, c)
    ensures |d| > 0 && |c.text| > 0 && |Splice(d, c)| > 0 && Ready(Fresh(d, 0 as nat, None)) && Ready(After1(d, c))
    ensures EditForm(Inverse(d, c)) && |Inverse(d, c).text| > 0
  {
    SpliceCut(d, c);
  }

  lemma ShapedAfter2(d: seq<string>, c: Change, c2: Change)
    requires ValidChange(d, c) && ValidChange(Splice(d, c), c2)
    ensures |c2.text| > 0 && |Splice(Splice(d, c), c2)| > 0
    ensures Ready(After2(d, c, c2)) && Ready(After3(d, c, c2)) && Ready(After4(d, c, c2)) && Ready(After5(d, c, c2))
  {
    hide Splice, Inverse;
    ShapedAfter1(d, c);
    ShapedAfter1(Splice(d, c), c2);
  }

  /** A stack with an event under nothing, one or two selections. */
  lemma UnderSelections<S>(below: seq<Entry<S>>, event: Entry<S>, x: S, y: S, l: seq<Entry<S>>, sel: S)
    requires event.Event?
    ensures var s := below + [event];
      && Dropped(s) == s && Shifted(s, l, sel) == Shift(s, l, sel)
      && Dropped(s + [Selection(x)]) == s && Shifted(s + [Selection(x)], l, sel) == Shift(s, Pushed(l, x), x)
      && Dropped(s + [Selection(x), Selection(y)]) == s && Dropped([Selection(x)]) == []
  {
    var s := below + [event];
    assert (s + [Selection(x)])[..|s|] == s;
    assert (s + [Selection(x), Selection(y)])[..|s| + 1] == s + [Selection(x)];
  }

  /** Carrying out a single edit that fits. */
  lemma RevertedOne(d: seq<string>, c: Change)
    requires ValidChange(d, c)
    ensures Reverted(d, [c], []) == Some(Reversal(Splice(d, c), [Inverse(d, c)]))
  {
    assert [c][..0] == [] && [] + [TakingBack(d, c)] == [Inverse(d, c)];
    assert Reverted(Splice(d, c), [], [Inverse(d, c)]) == Some(Reversal(Splice(d, c), [Inverse(d, c)]));
  }

  lemma Back(d: seq<string>, c: Change, c2: Change)
    requires ValidChange(d, c) && ValidChange(Splice(d, c), c2)
    ensures Ready(After2(d, c, c2)) && Step(After2(d, c, c2), GoBack) == Some(After3(d, c, c2))
  {
    hide Splice, Inverse, ValidPos, Reverted, Shaped, Dropped, Shifted;
    ShapedAfter1(d, c);
    ShapedAfter2(d, c, c2);
    InverseUndoes(Splice(d, c), c2);
    RevertedOne(Splice(Splice(d, c), c2), Inverse(Splice(d, c), c2));
    var below, event := After1(d, c).done, Event([Inverse(Splice(d, c), c2)], 2);
    UnderSelections(below, event, 2, 0, [], 2);
    assert After2(d, c, c2).done == below + [event] + [Selection(2)] && (below + [event])[..3] == below;
    var none: seq<Entry<nat>> := [];
    assert Pushed(Pushed(none, 2), 2) + [Event([c2], 3)] == After3(d, c, c2).undone;
  }

  lemma Forth(d: seq<string>, c: Change, c2: Change)
    requires ValidChange(d, c) && ValidChange(Splice(d, c), c2)
    ensures Ready(After3(d, c, c2)) && Step(After3(d, c, c2), GoForth) == Some(After4(d, c, c2))
  {
    hide Splice, Inverse, ValidPos, Reverted, Shaped, Dropped, Shifted;
    ShapedAfter1(d, c);
    ShapedAfter2(d, c, c2);
    RevertedOne(Splice(d, c), c2);
    var below, event := [Selection(2)], Event([c2], 3);
    UnderSelections(below, event, 0, 0, After1(d, c).done, 1);
    assert After3(d, c, c2).undone == below + [event] && (below + [event])[..1] == below;
    assert Pushed(After1(d, c).done, 1) + [Event([Inverse(Splice(d, c), c2)], 2)] == After4(d, c, c2).done;
  }

  lemma CursorSpoils(d: seq<string>, c: Change, c2: Change)
    requires ValidChange(d, c) && ValidChange(Splice(d, c), c2)
    ensures Ready(After4(d, c, c2)) && Ready(After5(d, c, c2))
    ensures Step(After4(d, c, c2), CURSOR) == Some(After5(d, c, c2)) && Spoils(After4(d, c, c2), CURSOR)
  {
    hide Splice, Inverse, ValidPos, Shaped, Dropped;
    ShapedAfter1(d, c);
    ShapedAfter2(d, c, c2);
    var s := After4(d, c, c2).done;
    UnderSelections<nat>([], s[1], 2, 0, [], 0);
    assert WithTop(s, 3) == After5(d, c, c2).done;
    assert s[..3][..2][..1] == s[..1] && s[..3][..2] == s[..2] && Events(s[..2]) > 0 && Events(s[..3]) > 0;
  }

  /** The last undo carries out the first event on the text after the second edit. */
  lemma BackTooFar(d: seq<string>, c: Change, c2: Change)
    requires ValidChange(d, c) && ValidChange(Splice(d, c), c2)
    ensures Ready(After5(d, c, c2)) && EditForm(Inverse(d, c)) && |Inverse(d, c).text| > 0 && |Splice(Splice(d, c), c2)| > 0
    ensures var e := Step(After5(d, c, c2), GoBack);
      e.Some? && e.value.generation == e.value.cleanGeneration == 1 && e.value.text == Applied(Splice(Splice(d, c), c2), Inverse(d, c))
  {
    hide Splice, Inverse, ValidPos, Applied, TakingBack, Shaped, Dropped, Shifted, Reverted;
    ShapedAfter1(d, c);
    ShapedAfter2(d, c, c2);
    var s := After5(d, c, c2).done;
    UnderSelections([Selection(0)], s[1], 1, 3, [], 3);
    assert s == [Selection(0)] + [s[1]] + [Selection(1), Selection(3)];
    RevertedText(Splice(Splice(d, c), c2), Inverse(d, c));
  }

  lemma RevertedText(d: seq<string>, c: Change)
    requires |d| > 0 && EditForm(c) && |c.text| > 0
    ensures Reverted(d, [c], []).Some? && Reverted(d, [c], []).value.text == Applied(d, c)
  {
    assert [c][..0] == [];
  }

  function TwoOperations(c: Change, c2: Change): seq<Action<nat>>
    requires |c.text| > 0 && |c2.text| > 0
  {
    [Replace(c.from, c.to, c.text, 1, Some(1), "", 0, 0), Replace(c2.from, c2.to, c2.text, 2, Some(2), "", 0, 0), GoBack, GoForth, CURSOR, GoBack]
  }

  /** The document ends up clean, and shows the second text without what the first edit put in. */
  lemma SpoiledRun(d: seq<string>, c: Change, c2: Change) returns (e: State<nat>)
    requires ValidChange(d, c) && ValidChange(Splice(d, c), c2) && !IsNothing(c) && !IsNothing(c2)
    ensures Ready(Fresh(d, 0 as nat, None)) && Steps(Fresh(d, 0 as nat, None), TwoOperations(c, c2)) == Some(e)
    ensures e.generation == e.cleanGeneration == Fresh(d, 0 as nat, None).generation
    ensures EditForm(Inverse(d, c)) && |Inverse(d, c).text| > 0 && |Splice(Splice(d, c), c2)| > 0
    ensures e.text == Applied(Splice(Splice(d, c), c2), Inverse(d, c))
  {
    hide Splice, Inverse, ValidPos, Applied, Ready, Step, Edited, Steps, Untroubled;
    var st, run := Fresh(d, 0 as nat, None), TwoOperations(c, c2);
    Edits(d, c, c2);
    ShapedAfter2(d, c, c2);
    ReplaceFits(st, c, 1, 1);
    ReplaceFits(After1(d, c), c2, 2, 2);
    Back(d, c, c2);
    Forth(d, c, c2);
    CursorSpoils(d, c, c2);
    BackTooFar(d, c, c2);
    StepReady(After5(d, c, c2), GoBack);
    e := Step(After5(d, c, c2), GoBack).value;
    StepsNone(e);
    RunCons(After5(d, c, c2), GoBack, []);
    RunCons(After4(d, c, c2), CURSOR, [GoBack]);
    RunCons(After3(d, c, c2), GoForth, [CURSOR, GoBack]);
    RunCons(After2(d, c, c2), GoBack, [GoForth, CURSOR, GoBack]);
    RunCons(After1(d, c), run[1], [GoBack, GoForth, CURSOR, GoBack]);
    RunCons(st, run[0], [run[1], GoBack, GoForth, CURSOR, GoBack]);
    RunIs(c, c2);
  }

  lemma StepsNone<S>(st: State<S>)
    requires Ready(st)
    ensures Steps(st, []) == Some(st)
  {
  }

  lemma RunIs(c: Change, c2: Change)
    requires |c.text| > 0 && |c2.text| > 0
    ensures var run := TwoOperations(c, c2); run == [run[0]] + [run[1], GoBack, GoForth, CURSOR, GoBack]
    ensures var run := TwoOperations(c, c2); [run[1], GoBack, GoForth, CURSOR, GoBack] == [run[1]] + [GoBack, GoForth, CURSOR, GoBack]
    ensures [GoBack, GoForth, CURSOR, GoBack] == [GoBack] + [GoForth, CURSOR, GoBack]
    ensures [GoForth, CURSOR, GoBack] == [GoForth] + [CURSOR, GoBack] && [CURSOR, GoBack] == [CURSOR] + [GoBack]
    ensures [TwoOperations(c, c2)[5]] == [TwoOperations(c, c2)[5]] + []
  {
  }

  lemma InsertInLine(x: string, s: string)
    ensures var c := Change(Pos(0, 0), Pos(0, 0), [s]);
      ValidChange([x], c) && Splice([x], c) == [s + x] && Inverse([x], c) == Change(Pos(0, 0), Pos(0, |s|), [""])
  {
    assert x[..0] + s + x[0..] == s + x && x[0..0] == "";
  }

  lemma CutFromLine(x: string, k: nat)
    requires k <= |x|
    ensures var c := Change(Pos(0, 0), Pos(0, k), [""]); ValidChange([x], c) && Splice([x], c) == [x[k..]]
  {
    assert x[..0] + "" + x[k..] == x[k..];
  }

  /** The empty document ends up clean although it shows a text. */
  lemma FalseClean() returns (e: State<nat>)
    ensures var insert: string -> Change := (s: string) => Change(Pos(0, 0), Pos(0, 0), [s]);
      Ready(Fresh([""], 0 as nat, None)) && Steps(Fresh([""], 0 as nat, None), TwoOperations(insert("a"), insert("b"))) == Some(e)
    ensures e.generation == e.cleanGeneration == 1 && e.text == ["a"]
  {
    hide Splice, Inverse, Steps, Step;
    var c, c2 := Change(Pos(0, 0), Pos(0, 0), ["a"]), Change(Pos(0, 0), Pos(0, 0), ["b"]);
    assert "a" + "" == "a" && "b" + "a" == "ba" && "ba"[1..] == "a";
    InsertInLine("", "a");
    InsertInLine("a", "b");
    CutFromLine("ba", 1);
    e := SpoiledRun([""], c, c2);
  }
}
