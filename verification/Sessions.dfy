/**
 A document and its history together: the tree of lines shows the text that the history speaks of,
 whatever is edited, undone or redone.
 */
module Sessions {
  import opened Changes
  import opened Cursors
  import opened Documents
  import opened Histories
  import opened HistoryLog
  import opened LineTree
  import opened Positions
  import opened Records
  import opened Runs
  import opened Selections
  import opened Shapes
  import opened Texts
  import opened Wrappers

  lemma StepLength(ts: seq<seq<string>>, us: seq<seq<string>>, text: seq<string>, ts0: seq<seq<string>>, us0: seq<seq<string>>, text0: seq<string>)
    requires Stepped(ts, us, text, ts0, us0, text0)
    ensures |ts| == |ts0| - 1 && |us| == |us0| + 1
  {
  }

  /** Carrying out the edits of an event makes the undo. */
  lemma UndoneText<S>(st: State<S>)
    requires Ready(st) && Dropped(st.done) != []
    ensures var cs := Last(Dropped(st.done)).changes;
      && (forall c :: c in cs ==> EditForm(c))
      && (Undone(st).Some? <==> Reverted(st.text, cs, []).Some?)
      && (Undone(st).Some? ==> Undone(st).value.text == Reverted(st.text, cs, []).value.text)
  {
    hide Shaped, Reverted;
    DroppedEvent(st.done);
  }

  lemma RedoneText<S>(st: State<S>)
    requires Ready(st) && Dropped(st.undone) != []
    ensures var cs := Last(Dropped(st.undone)).changes;
      && (forall c :: c in cs ==> EditForm(c))
      && (Redone(st).Some? <==> Reverted(st.text, cs, []).Some?)
      && (Redone(st).Some? ==> Redone(st).value.text == Reverted(st.text, cs, []).value.text)
  {
    hide Shaped, Reverted;
    DroppedEvent(st.undone);
  }

  /** The text does not depend on what is collected on the way. */
  lemma {:induction false} RevertedText(text: seq<string>, cs: seq<Change>, back: seq<Change>, back': seq<Change>)
    requires |text| > 0 && forall c :: c in cs ==> EditForm(c)
    ensures Reverted(text, cs, back).Some? <==> Reverted(text, cs, back').Some?
    ensures Reverted(text, cs, back).Some? ==> Reverted(text, cs, back).value.text == Reverted(text, cs, back').value.text
    decreases |cs|
  {
    if cs != [] && Last(cs).text != [] {
      var b := TakingBack(text, Last(cs));
      RevertedText(Applied(text, Last(cs)), cs[..|cs| - 1], back + [b], back' + [b]);
    }
  }

  /** The edits up to number `f` lead from `text` to `end`. */
  ghost predicate LeadsTo(text: seq<string>, cs: seq<Change>, f: nat, end: seq<string>) {
    && f <= |cs| && |text| > 0 && (forall c :: c in cs ==> EditForm(c))
    && Reverted(text, cs[..f], []).Some? && Reverted(text, cs[..f], []).value.text == end
  }

  lemma LeadsFirst(text: seq<string>, cs: seq<Change>, f: nat, end: seq<string>)
    requires 0 < f && LeadsTo(text, cs, f, end)
    ensures |text| > 0 && EditForm(cs[f - 1]) && cs[f - 1].text != [] && LeadsTo(Applied(text, cs[f - 1]), cs, f - 1, end)
  {
    hide Reverted, Applied, TakingBack;
    RevertedStep(text, cs, f - 1, []);
    RevertedText(Applied(text, cs[f - 1]), cs[..f - 1], [] + [TakingBack(text, cs[f - 1])], []);
  }

  lemma LeadsNone(text: seq<string>, cs: seq<Change>, end: seq<string>)
    requires LeadsTo(text, cs, 0, end)
    ensures text == end
  {
  }

  lemma SpliceNothing(d: seq<string>, c: Change)
    requires ValidChange(d, c) && IsNothing(c)
    ensures Splice(d, c) == d
  {
    assert d[c.from.line][..c.from.ch] + "" + d[c.from.line][c.from.ch..] == d[c.from.line];
  }

  /** A new event, with room for it, leads back to the text before the edit; a merged one leads where it led. */
  lemma RecordedLast<S>(s: seq<Entry<S>>, d: seq<string>, ts: seq<seq<string>>, gens: map<nat, seq<string>>,
                        text: seq<string>, before: seq<seq<string>>, generation: nat, merged: bool, dropped: nat, undoDepth: Option<nat>)
    requires IsRecorded(s, d, ts, gens, text, before, generation, merged, dropped, undoDepth)
    ensures merged ==> ts == before
    ensures !merged && (undoDepth.None? || undoDepth.value > 1) ==> ts != [] && Last(ts) == text
  {
  }

  lemma SoundEvents<S>(st: State<S>, ts: seq<seq<string>>, us: seq<seq<string>>, gens: map<nat, seq<string>>)
    requires Sound(st, ts, us, gens)
    ensures Events(st.done) == |ts|
  {
    StackEvents(st.done, st.text, ts, gens);
  }

  lemma StepIs<S>(st: State<S>, a: Action<S>)
    requires Ready(st)
    ensures |st.text| > 0 && Shaped(st.done) && Shaped(st.undone)
    ensures a.Replace? ==>
      Step(st, a) == Some(Edited(st, Replacement(st.text, a.from, a.to, a.lines), a.selAfter, a.op, a.origin, a.now, a.delay))
    ensures a.GoBack? ==> Step(st, a) == Undone(st)
    ensures a.GoForth? ==> Step(st, a) == Redone(st)
    ensures !a.Replace? && !a.GoBack? && !a.GoForth? ==> Step(st, a).Some? && Step(st, a).value.text == st.text
  {
    hide Shaped, Edited, Undone, Redone;
  }

  /** Not all of the edits leave the text as it is. */
  ghost predicate SomeEdit(cs: seq<Change>) {
    exists c :: c in cs && !IsNothing(c)
  }

  lemma SomeEditStep(cs: seq<Change>, l: nat)
    requires l < |cs|
    ensures SomeEdit(cs[l..]) <==> !IsNothing(cs[l]) || SomeEdit(cs[l + 1..])
  {
    assert cs[l..] == [cs[l]] + cs[l + 1..];
  }

  lemma EditsNone(d: seq<string>, cs: seq<Change>)
    ensures !SomeEdit(cs[|cs|..]) && AppliedBackwards(d, cs[|cs|..], d)
  {
  }

  class Session<S(==)> {
    const doc: Doc
    const editor: Editor<S>

    /** The tree shows the text of the history. */
    ghost predicate Shown()
      reads *
    {
      doc.Valid() && Ready(editor.Now()) && doc.Texts() == editor.text
    }

    /** The same, and the record is sound. */
    ghost predicate Valid()
      reads *
    {
      Shown() && editor.Valid()
    }

    constructor (text: seq<string>, sel: S, undoDepth: Option<nat>)
      requires |text| > 0
      ensures Valid() && editor.Now() == Fresh(text, sel, undoDepth) && editor.past == [] && editor.future == []
      ensures fresh(doc) && fresh(editor) && fresh(doc.g.text.Keys) && fresh(doc.g.heights.Keys)
    {
      hide Whole, BranchesSmall, LeafSizes, Stack, Shaped;
      var e := new Editor<S>(text, sel, undoDepth);
      var d := NewDoc(text);
      label Made:
      doc, editor := d, e;
      new;
      StaysWhole@Made(d.g);
    }

    /** An edit is recorded and made on the tree; one that changes nothing is not made. */
    method MakeChange(c: Change, selAfter: S, op: Option<nat>, origin: string, now: int, delay: int, full: bool, wholeLines: bool, estimate: string -> nat)
      returns (merged: bool, ghost dropped: nat)
      requires Shown() && ValidChange(editor.text, c) && (full ==> c.from == Pos(0, 0) && c.to == EndPos(editor.text))
      modifies editor, doc, doc.g.text.Keys, doc.g.heights.Keys
      ensures Shown() && doc.OnlyNew()
      ensures doc.Texts() == if IsNothing(c) then old(doc.Texts()) else Splice(old(doc.Texts()), c)
      ensures editor.Now() == Edited(old(editor.Now()), c, selAfter, op, origin, now, delay) && editor.marked == old(editor.marked)
      ensures old(editor.Valid()) ==> editor.Valid() && if IsNothing(c) then
          editor.past == old(editor.past) && editor.future == old(editor.future) && editor.gens == old(editor.gens)
        else
          && editor.future == [] && editor.gens == old(editor.gens)[editor.generation := doc.Texts()]
          && IsRecorded(editor.done, doc.Texts(), editor.past, editor.gens, old(doc.Texts()), old(editor.past), old(editor.generation), merged, dropped, editor.undoDepth)
      ensures merged <==>
        old(WantsMerge(editor.Now(), op, origin, now, delay) && Mergeable(editor.done, op.Some? && editor.lastOp == op)) && !IsNothing(c)
    {
      hide Doc.Valid, Editor.Valid, Doc.Relined, Shaped, IsRecorded, Glue, Splice, Noted, WantsMerge, Mergeable;
      EditedReady(editor.Now(), c, selAfter, op, origin, now, delay);
      merged, dropped := editor.MakeChange(c, selAfter, op, origin, now, delay);
      doc.Stays();
      FollowEdit(c, full, wholeLines, estimate);
    }

    /** The tree follows an edit that the history has made. */
    method FollowEdit(c: Change, full: bool, wholeLines: bool, estimate: string -> nat)
      requires doc.Valid() && ValidChange(doc.Texts(), c) && (full ==> c.from == Pos(0, 0) && c.to == EndPos(doc.Texts()))
      requires Ready(editor.Now()) && editor.text == if IsNothing(c) then doc.Texts() else Splice(doc.Texts(), c)
      modifies doc, doc.g.text.Keys, doc.g.heights.Keys
      ensures Shown() && doc.OnlyNew()
    {
      hide Doc.Valid, Doc.Relined, Ready, Glue, Splice;
      if !(|c.text| == 1 && c.text[0] == "" && Cmp(c.from, c.to) == 0) {
        doc.UpdateDoc(c, full, wholeLines, estimate);
      }
    }

    /** The part of an edit that is made on the tree (makeChangeSingleDoc): its ends are cut, and so is its text behind the last line. */
    method Fit(c: Change) returns (r: Change)
      requires doc.Valid() && EditForm(c) && |c.text| > 0 && c.from.line < |doc.Texts()|
      ensures r == Fitted(doc.Texts(), c)
    {
      hide Doc.Valid;
      var size := doc.Size();
      var first := doc.GetLine(c.from.line);
      var last := doc.GetLine(if c.to.line < size then c.to.line else size - 1);
      var from, to := c.from, c.to;
      if from.ch > |first.value.text| {
        from := Pos(from.line, |first.value.text|);
      }
      if to.line >= size {
        return Change(from, Pos(size - 1, |last.value.text|), [c.text[0]]);
      }
      if to.ch > |last.value.text| {
        to := Pos(to.line, |last.value.text|);
      }
      return Change(from, to, c.text);
    }

    /** One edit on the tree, as far as it fits. */
    method EditTree(c: Change, wholeLines: bool, estimate: string -> nat)
      requires doc.Valid() && EditForm(c) && |c.text| > 0 && |doc.Texts()| > 0
      modifies doc, doc.g.text.Keys, doc.g.heights.Keys
      ensures doc.Valid() && doc.OnlyNew() && doc.Texts() == Applied(old(doc.Texts()), c)
    {
      hide Doc.Valid, Doc.Relined, Glue, Splice, Fitted, ValidChange;
      var size := doc.Size();
      if c.from.line < size {
        var r := Fit(c);
        doc.UpdateDoc(r, false, wholeLines, estimate);
      }
    }

    /** The edits of an event, from the last to the first, on the tree. */
    method CarryOut(changes: seq<Change>, wholeLines: bool, estimate: string -> nat)
      requires doc.Valid() && Ready(editor.Now()) && LeadsTo(doc.Texts(), changes, |changes|, editor.text)
      modifies doc, doc.g.text.Keys, doc.g.heights.Keys
      ensures Shown() && doc.OnlyNew()
    {
      hide Doc.Valid, Ready, LeadsTo, Applied;
      var f := |changes|;
      while f > 0
        invariant 0 <= f <= |changes| && doc.Valid() && Ready(editor.Now()) && doc.OnlyNew()
        invariant LeadsTo(doc.Texts(), changes, f, editor.text)
      {
        LeadsFirst(doc.Texts(), changes, f, editor.text);
        f := f - 1;
        EditTree(changes[f], wholeLines, estimate);
      }
      LeadsNone(doc.Texts(), changes, editor.text);
    }

    /** Undo on the tree; with a sound record it brings back exactly the text before the whole last event. */
    method Undo(wholeLines: bool, estimate: string -> nat) returns (moved: bool, thrown: bool)
      requires Shown()
      modifies editor, doc, doc.g.text.Keys, doc.g.heights.Keys
      ensures Shown() && doc.OnlyNew() && (thrown <==> Undone(old(editor.Now())).None?)
      ensures editor.Now() == (if thrown then old(editor.Now()) else Undone(old(editor.Now())).value) && editor.marked == old(editor.marked)
      ensures old(editor.Valid()) ==> editor.Valid() && !thrown && editor.gens == old(editor.gens) && (moved <==> old(editor.past) != [])
      ensures old(editor.Valid()) ==>
        if moved then Stepped(editor.past, editor.future, doc.Texts(), old(editor.past), old(editor.future), old(doc.Texts()))
        else doc.Texts() == old(doc.Texts()) && editor.past == old(editor.past) && editor.future == old(editor.future)
    {
      hide Doc.Valid, Editor.Valid, Undoes, Stack, Shaped, Travelled, Reverted, Leads, Dropped;
      ghost var st := editor.Now();
      StepReady(st, GoBack);
      if Dropped(st.done) != [] {
        UndoneText(st);
      }
      var changes;
      moved, changes, thrown := editor.Undo();
      doc.Stays();
      if moved && !thrown {
        assert changes[..|changes|] == changes;
        CarryOut(changes, wholeLines, estimate);
      }
    }

    /** Redo in the other direction. */
    method Redo(wholeLines: bool, estimate: string -> nat) returns (moved: bool, thrown: bool)
      requires Shown()
      modifies editor, doc, doc.g.text.Keys, doc.g.heights.Keys
      ensures Shown() && doc.OnlyNew() && (thrown <==> Redone(old(editor.Now())).None?)
      ensures editor.Now() == (if thrown then old(editor.Now()) else Redone(old(editor.Now())).value) && editor.marked == old(editor.marked)
      ensures old(editor.Valid()) ==> editor.Valid() && !thrown && editor.gens == old(editor.gens) && (moved <==> old(editor.future) != [])
      ensures old(editor.Valid()) ==>
        if moved then Stepped(editor.future, editor.past, doc.Texts(), old(editor.future), old(editor.past), old(doc.Texts()))
        else doc.Texts() == old(doc.Texts()) && editor.past == old(editor.past) && editor.future == old(editor.future)
    {
      hide Doc.Valid, Editor.Valid, Undoes, Stack, Shaped, Travelled, Reverted, Leads, Dropped;
      ghost var st := editor.Now();
      StepReady(st, GoForth);
      if Dropped(st.undone) != [] {
        RedoneText(st);
      }
      var changes;
      moved, changes, thrown := editor.Redo();
      doc.Stays();
      if moved && !thrown {
        assert changes[..|changes|] == changes;
        CarryOut(changes, wholeLines, estimate);
      }
    }

    /** As many redos as undos lead the tree back to the text it showed. */
    method UndoThenRedo(k: nat, wholeLines: bool, estimate: string -> nat)
      requires Valid() && k <= |editor.past|
      modifies editor, doc, doc.g.text.Keys, doc.g.heights.Keys
      ensures Valid() && doc.OnlyNew() && doc.Texts() == old(doc.Texts()) && editor.past == old(editor.past) && editor.future == old(editor.future)
      decreases k
    {
      hide Shown, Editor.Valid, Stepped, Undone, Redone;
      if k == 0 { return; }
      ghost var ts, us, t := editor.past, editor.future, doc.Texts();
      var moved, thrown := Undo(wholeLines, estimate);
      StepLength(editor.past, editor.future, doc.Texts(), ts, us, t);
      ghost var ts1, us1, t1 := editor.past, editor.future, doc.Texts();
      UndoThenRedo(k - 1, wholeLines, estimate);
      assert editor.future != [];
      moved, thrown := Redo(wholeLines, estimate);
      BackAgain(ts, us, t, ts1, us1, t1, editor.past, editor.future, doc.Texts());
    }

    /** An edit that makes an event of its own can be undone: the tree shows the text before it. */
    method ThereAndBack(c: Change, selAfter: S, op: Option<nat>, origin: string, now: int, delay: int, wholeLines: bool, estimate: string -> nat)
      returns (merged: bool)
      requires Valid() && ValidChange(editor.text, c) && !IsNothing(c)
      modifies editor, doc, doc.g.text.Keys, doc.g.heights.Keys
      ensures Valid() && doc.OnlyNew()
      ensures merged <==> old(WantsMerge(editor.Now(), op, origin, now, delay) && Mergeable(editor.done, op.Some? && editor.lastOp == op))
      ensures !merged && (editor.undoDepth.None? || editor.undoDepth.value > 1) ==> doc.Texts() == old(doc.Texts())
      ensures merged && old(editor.past) != [] ==> doc.Texts() == Last(old(editor.past))
    {
      hide Shown, Editor.Valid, Edited, Undone, IsRecorded, WantsMerge, Mergeable, Splice;
      ghost var dropped;
      merged, dropped := MakeChange(c, selAfter, op, origin, now, delay, false, wholeLines, estimate);
      RecordedLast(editor.done, doc.Texts(), editor.past, editor.gens, old(doc.Texts()), old(editor.past), old(editor.generation), merged, dropped, editor.undoDepth);
      var moved, thrown := Undo(wholeLines, estimate);
    }

    // ----- runs

    lemma ShownReady()
      requires Shown()
      ensures Ready(editor.Now())
    {
      hide Doc.Valid, Ready;
    }

    /** One action, on record and tree. */
    method Act(a: Action<S>, wholeLines: bool, estimate: string -> nat) returns (thrown: bool)
      requires Shown()
      modifies editor, doc, doc.g.text.Keys, doc.g.heights.Keys
      ensures Shown() && doc.OnlyNew() && (thrown <==> Step(old(editor.Now()), a).None?)
      ensures editor.Now() == if thrown then old(editor.Now()) else Step(old(editor.Now()), a).value
    {
      hide Shown, Editor.Valid, Ready, Step, Edited, Undone, Redone, IsRecorded, WantsMerge, Mergeable, Splice;
      ShownReady();
      StepReady(editor.Now(), a);
      StepIs(editor.Now(), a);
      thrown := false;
      var moved;
      match a
      case Replace(from, to, lines, selAfter, op, origin, now, delay) =>
        ghost var dropped;
        moved, dropped := MakeChange(Replacement(editor.text, from, to, lines), selAfter, op, origin, now, delay, false, wholeLines, estimate);
      case GoBack =>
        moved, thrown := Undo(wholeLines, estimate);
      case GoForth =>
        moved, thrown := Redo(wholeLines, estimate);
      case _ =>
        ActAside(a);
    }

    /** An action that leaves the text as it is. */
    method ActAside(a: Action<S>)
      requires Shown() && !a.Replace? && !a.GoBack? && !a.GoForth?
      modifies editor
      ensures Shown() && doc.OnlyNew() && Some(editor.Now()) == Step(old(editor.Now()), a)
    {
      hide Doc.Valid, Editor.Valid, Ready, Step;
      StepIs(editor.Now(), a);
      var thrown := editor.Act(a);
      doc.Stays();
    }

    /** A run of any actions: the tree follows it, and what holds of the text of the history holds of the tree. */
    method Run(actions: seq<Action<S>>, wholeLines: bool, estimate: string -> nat) returns (thrown: bool)
      requires Shown()
      modifies editor, doc, doc.g.text.Keys, doc.g.heights.Keys
      ensures Shown() && doc.OnlyNew()
      ensures (thrown <==> Steps(old(editor.Now()), actions).None?) && (!thrown ==> Steps(old(editor.Now()), actions) == Some(editor.Now()))
      ensures old(Valid()) && Untroubled(old(editor.Now()), actions) ==>
        !thrown && (editor.generation == old(editor.generation) ==> doc.Texts() == old(doc.Texts()))
      ensures old(Valid()) && Untroubled(old(editor.Now()), actions) && editor.IsClean(0) && (forall a :: a in actions ==> !a.Mark?) ==>
        doc.Texts() == old(editor.marked)
      ensures old(Valid()) && Untroubled(old(editor.Now()), actions) && editor.IsClean(0) ==>
        forall i :: 0 <= i < |actions| && actions[i].Mark? && (forall j :: i < j < |actions| ==> !actions[j].Mark?) ==>
          Steps(old(editor.Now()), actions[..i]).Some? && doc.Texts() == Steps(old(editor.Now()), actions[..i]).value.text
    {
      hide Doc.Valid, Sound, Steps, Ready, Untroubled;
      if editor.Valid() && Untroubled(editor.Now(), actions) {
        RunIsClean(editor.Now(), actions, editor.past, editor.future, editor.gens);
      }
      thrown := ActAll(actions, wholeLines, estimate);
    }

    method ActAll(actions: seq<Action<S>>, wholeLines: bool, estimate: string -> nat) returns (thrown: bool)
      requires Shown()
      modifies editor, doc, doc.g.text.Keys, doc.g.heights.Keys
      ensures Shown() && doc.OnlyNew()
      ensures (thrown <==> Steps(old(editor.Now()), actions).None?) && (!thrown ==> Steps(old(editor.Now()), actions) == Some(editor.Now()))
    {
      hide Shown, Ready, Step;
      ShownReady();
      ghost var st := editor.Now();
      var n := 0;
      assert actions[0..] == actions;
      while n < |actions|
        invariant n <= |actions| && Shown() && doc.OnlyNew() && Ready(editor.Now()) && Steps(editor.Now(), actions[n..]) == Steps(st, actions)
      {
        assert actions[n..][0] == actions[n] && actions[n..][1..] == actions[n + 1..];
        thrown := Act(actions[n], wholeLines, estimate);
        if thrown { return; }
        ShownReady();
        n := n + 1;
      }
      thrown := false;
    }

    // ----- several ranges at once

    /** All edits so far have gone into one event, which leads back to `text`. */
    ghost predicate Together(text: seq<string>, op: nat)
      reads editor
    {
      editor.Valid() && editor.lastOp == Some(op) && editor.past != [] && Last(editor.past) == text
    }

    /** The record is sound, and the next edit makes an event of its own, which stays. */
    ghost predicate OwnEvent(op: nat, origin: string, now: int, delay: int)
      reads editor
    {
      editor.Valid() && !WantsMerge(editor.Now(), Some(op), origin, now, delay) && (editor.undoDepth.None? || editor.undoDepth.value > 1)
    }

    /** One of the edits of an operation. */
    method ReplaceOne(c: Change, selAfter: S, op: nat, origin: string, now: int, delay: int, wholeLines: bool, estimate: string -> nat, ghost text: seq<string>)
      requires Shown() && ValidChange(doc.Texts(), c)
      modifies editor, doc, doc.g.text.Keys, doc.g.heights.Keys
      ensures Shown() && doc.OnlyNew() && doc.Texts() == Splice(old(doc.Texts()), c)
      ensures IsNothing(c) && old(OwnEvent(op, origin, now, delay)) ==> OwnEvent(op, origin, now, delay)
      ensures old(Together(text, op)) ==> Together(text, op)
      ensures !IsNothing(c) && old(OwnEvent(op, origin, now, delay)) ==> Together(old(doc.Texts()), op)
    {
      hide Doc.Valid, Editor.Valid, Ready, IsRecorded, Splice, ValidChange, Recorded;
      if Together(text, op) {
        TogetherMerges(text, op);
      }
      if IsNothing(c) {
        SpliceNothing(editor.text, c);
      }
      var merged;
      ghost var dropped;
      merged, dropped := MakeChange(c, selAfter, Some(op), origin, now, delay, false, wholeLines, estimate);
      if old(editor.Valid()) && !IsNothing(c) {
        RecordedLast(editor.done, doc.Texts(), editor.past, editor.gens, old(doc.Texts()), old(editor.past), old(editor.generation), merged, dropped, editor.undoDepth);
      }
    }

    lemma ShownText()
      requires Shown()
      ensures |doc.Texts()| > 0
    {
      hide Doc.Valid, Shaped;
    }

    lemma TogetherMerges(text: seq<string>, op: nat)
      requires Together(text, op)
      ensures Mergeable(editor.done, true)
    {
      SoundEvents(editor.Now(), editor.past, editor.future, editor.gens);
    }

    /** replaceSelections: the edits in one operation, from the last to the first, and where their texts are afterwards. */
    method ReplaceSelections(ranges: seq<Range>, cs: seq<Change>, sels: seq<S>, op: nat, origin: string, now: int, delay: int, around: bool,
                             wholeLines: bool, estimate: string -> nat)
      returns (out: seq<Range>)
      requires Shown() && |ranges| == |cs| == |sels| && Ordered(doc.Texts(), cs, Pos(0, 0))
      modifies editor, doc, doc.g.text.Keys, doc.g.heights.Keys
      ensures Shown() && doc.OnlyNew() && AppliedBackwards(old(doc.Texts()), cs, doc.Texts())
      ensures |out| == |cs| && AllPlaced(old(doc.Texts()), doc.Texts(), cs, ranges, around, out)
      ensures old(OwnEvent(op, origin, now, delay)) && SomeEdit(cs) ==> Together(old(doc.Texts()), op)
    {
      hide Shown, Together, OwnEvent, Splice, SomeEdit, AppliedBackwards, Ordered, AllPlaced;
      ShownText();
      ghost var d, own := doc.Texts(), OwnEvent(op, origin, now, delay);
      var l := |cs|;
      EditsNone(d, cs);
      while l > 0
        invariant 0 <= l <= |cs| && Shown() && doc.OnlyNew() && AppliedBackwards(d, cs[l..], doc.Texts())
        invariant own ==> if SomeEdit(cs[l..]) then Together(d, op) else doc.Texts() == d && OwnEvent(op, origin, now, delay)
      {
        l := l - 1;
        OneMoreApplied(d, cs, l, doc.Texts());
        SomeEditStep(cs, l);
        if IsNothing(cs[l]) {
          SpliceNothing(doc.Texts(), cs[l]);
        }
        ReplaceOne(cs[l], sels[l], op, origin, now, delay, wholeLines, estimate, d);
      }
      assert cs[0..] == cs;
      out := ReplacedSelection(ranges, cs, around, d, doc.Texts());
    }

    /** One undo takes all the replacements back. */
    method ReplaceAndUndo(ranges: seq<Range>, cs: seq<Change>, sels: seq<S>, op: nat, origin: string, now: int, delay: int, around: bool,
                          wholeLines: bool, estimate: string -> nat)
      requires Valid() && |ranges| == |cs| == |sels| && Ordered(doc.Texts(), cs, Pos(0, 0)) && SomeEdit(cs) && OwnEvent(op, origin, now, delay)
      modifies editor, doc, doc.g.text.Keys, doc.g.heights.Keys
      ensures Valid() && doc.OnlyNew() && doc.Texts() == old(doc.Texts())
    {
      hide Shown, Editor.Valid, Undone, AppliedBackwards, Ordered, AllPlaced, SomeEdit, WantsMerge;
      var out := ReplaceSelections(ranges, cs, sels, op, origin, now, delay, around, wholeLines, estimate);
      var moved, thrown := Undo(wholeLines, estimate);
    }
  }
}
