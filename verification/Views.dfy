/**
 The window of lines that an editor shows: a list of line objects that is kept in step with the
 document, edit by edit, instead of being built anew.  No lines are hidden, so every entry of the
 view stands for one line.
 */
module Views {
  import opened Positions
  import opened Texts
  import opened LineTree
  import opened Shapes
  import opened Documents
  import opened Wrappers

  /** The view lists the lines of the document from `from` up to `to`. */
  ghost predicate Exact<T>(view: seq<T>, from: int, to: int, lines: seq<T>) {
    0 <= from <= to <= |lines| && view == lines[from..to]
  }

  /** The view is right, or it lies wholly behind the end of the document. */
  ghost predicate Usable<T>(view: seq<T>, from: int, to: int, lines: seq<T>) {
    && 0 <= from <= to && |view| == to - from
    && (from >= |lines| || Exact(view, from, to, lines))
  }

  /** The lines from `rest` on have moved by `n`, and those before `k` have stayed. */
  ghost predicate Shifted<T>(was: seq<T>, now: seq<T>, k: int, rest: int, n: int) {
    && 0 <= k < rest <= |was| && k <= rest + n && |now| == |was| + n
    && now[..k] == was[..k] && now[rest + n..] == was[rest..]
  }

  /** Where a line that an edit of the lines from `k` up to `rest` has left alone is afterwards. */
  function Moved(l: int, rest: int, n: int): int {
    if l < rest then l else l + n
  }

  /**
   What an edit of the lines from `k` up to `rest` does to a window: every line in it that the edit leaves alone stays in it,
   and besides these only new lines come in, and only between two that were there.
   */
  ghost predicate Followed(k: int, rest: int, n: int, from: int, to: int, from': int, to': int) {
    && (forall l :: from <= l < to && (l < k || l >= rest) ==> from' <= Moved(l, rest, n) < to')
    && (forall x :: from' <= x < to' ==> StaysIn(k, rest, n, from, to, x) || (from < k <= x < rest + n && rest < to))
  }

  /** Line `x` was in the window before, and the edit has left it alone. */
  ghost predicate StaysIn(k: int, rest: int, n: int, from: int, to: int, x: int) {
    (x < k && from <= x < to) || (x >= rest + n && from <= x - n < to)
  }

  lemma ExactIsUsable<T>(view: seq<T>, from: int, to: int, lines: seq<T>)
    requires Exact(view, from, to, lines)
    ensures Usable(view, from, to, lines)
  {
  }

  lemma EmptyIsExact<T>(lines: seq<T>)
    ensures Exact([], 0, 0, lines)
  {
  }

  /** A view that an edit reaches into is right. */
  lemma InView<T>(was: seq<T>, now: seq<T>, k: int, rest: int, n: int, view: seq<T>, from: int, to: int)
    requires Shifted(was, now, k, rest, n) && Usable(view, from, to, was)
    ensures |view| == to - from && 0 <= k < rest && k <= rest + n <= |now|
    ensures rest > from ==> Exact(view, from, to, was)
  {
  }

  /** A change behind the view leaves it as it is. */
  lemma ShiftBehind<T>(was: seq<T>, now: seq<T>, k: int, rest: int, n: int, view: seq<T>, from: int, to: int)
    requires Shifted(was, now, k, rest, n) && Usable(view, from, to, was) && k >= to
    ensures Exact(view, from, to, now)
  {
    assert from < |was| || from == to == |was|;
    assert was[from..to] == was[..k][from..to] == now[..k][from..to] == now[from..to];
  }

  /** A change before the view moves it. */
  lemma ShiftBefore<T>(was: seq<T>, now: seq<T>, k: int, rest: int, n: int, view: seq<T>, from: int, to: int)
    requires Shifted(was, now, k, rest, n) && Usable(view, from, to, was) && rest <= from
    ensures Usable(view, from + n, to + n, now)
    ensures Exact(view, from, to, was) ==> Exact(view, from + n, to + n, now)
  {
    if Exact(view, from, to, was) {
      assert was[from..to] == was[rest..][from - rest..to - rest] == now[rest + n..][from - rest..to - rest] == now[from + n..to + n];
    }
  }

  /** A change that reaches into the view from above leaves its lower part. */
  lemma ShiftTop<T>(was: seq<T>, now: seq<T>, k: int, rest: int, n: int, view: seq<T>, from: int, to: int)
    requires Shifted(was, now, k, rest, n) && Exact(view, from, to, was) && from < rest < to
    ensures Exact(view[rest - from..], rest + n, to + n, now)
  {
    assert view[rest - from..] == was[rest..to] == was[rest..][..to - rest] == now[rest + n..][..to - rest] == now[rest + n..to + n];
  }

  /** A change that reaches into the view from below leaves its upper part. */
  lemma ShiftBottom<T>(was: seq<T>, now: seq<T>, k: int, rest: int, n: int, view: seq<T>, from: int, to: int)
    requires Shifted(was, now, k, rest, n) && Exact(view, from, to, was) && from < k < to
    ensures Exact(view[..k - from], from, k, now)
  {
    assert view[..k - from] == was[from..k] == was[..k][from..] == now[..k][from..] == now[from..k];
  }

  /** A change inside the view leaves both parts, and what comes between them is new. */
  lemma ShiftInside<T>(was: seq<T>, now: seq<T>, k: int, rest: int, n: int, view: seq<T>, from: int, to: int)
    requires Shifted(was, now, k, rest, n) && Exact(view, from, to, was) && from < k && rest < to
    ensures Exact(view[..k - from] + now[k..rest + n] + view[rest - from..], from, to + n, now)
  {
    ShiftBottom(was, now, k, rest, n, view, from, to);
    ShiftTop(was, now, k, rest, n, view, from, to);
    assert now[from..to + n] == now[from..k] + now[k..rest + n] + now[rest + n..to + n];
  }

  /** The window after an edit: an edit within a line leaves it, any other takes out the lines that it changes at the edge of the window. */
  ghost predicate InStep(c: Change, wholeLines: bool, from: int, to: int, from': int, to': int)
    requires |c.text| > 0
  {
    if InPlace(c, false, wholeLines) then from' == from && to' == to
    else Followed(c.from.line, c.to.line + 1, |c.text| - (c.to.line - c.from.line) - 1, from, to, from', to')
  }

  class Display {
    const doc: Doc
    var viewFrom: int
    var viewTo: int
    var view: seq<Line>

    constructor (doc: Doc)
      ensures this.doc == doc && viewFrom == viewTo == 0 && view == []
    {
      this.doc, viewFrom, viewTo, view := doc, 0, 0, [];
    }

    ghost predicate Holds(lines: seq<Line>)
      reads `view, `viewFrom, `viewTo
    {
      Usable(view, viewFrom, viewTo, lines)
    }

    /** resetView */
    method Reset()
      modifies `view, `viewFrom, `viewTo
      ensures view == [] && viewFrom == viewTo == 0
    {
      viewFrom, viewTo, view := 0, 0, [];
    }

    /** findViewIndex: the entry of the view for a line, if the view has it. */
    method FindIndex(n: int) returns (index: Option<nat>)
      requires |view| == viewTo - viewFrom
      ensures index == if viewFrom <= n < viewTo then Some(n - viewFrom) else None
    {
      if n >= viewTo { return None; }
      var left := n - viewFrom;
      if left < 0 { return None; }
      var i := 0;
      while i < |view|
        invariant 0 <= i <= |view| && left == n - viewFrom - i >= 0
      {
        left := left - 1;
        if left < 0 { return Some(i); }
        i := i + 1;
      }
      return None;
    }

    /** buildViewArray: entries for the lines from `from` up to `to`. */
    method Build(from: int, to: int) returns (entries: seq<Line>)
      requires doc.Valid() && 0 <= from <= to <= |doc.Lines()|
      ensures entries == doc.Lines()[from..to]
    {
      hide Whole, BranchesSmall, LeafSizes;
      entries := [];
      var o := from;
      while o < to
        invariant from <= o <= to && entries == doc.Lines()[from..o]
        invariant doc.Valid()
      {
        var line := doc.GetLine(o);
        entries := entries + [line.value];
        o := o + 1;
      }
    }

    /**
     regChange: the lines from `from` up to `to` have changed and those behind have moved by `lendiff`.
     The document is already the new one; `was` are the lines before.
     */
    method RegChange(from: int, to: int, lendiff: int, ghost was: seq<Line>)
      requires doc.Valid() && Holds(was) && Shifted(was, doc.Lines(), from, to, lendiff)
      modifies `view, `viewFrom, `viewTo
      ensures Holds(doc.Lines())
      ensures old(Exact(view, viewFrom, viewTo, was)) ==> Exact(view, viewFrom, viewTo, doc.Lines())
      ensures Followed(from, to, lendiff, old(viewFrom), old(viewTo), viewFrom, viewTo)
    {
      hide Whole, BranchesSmall, LeafSizes, Exact, Usable, Shifted;
      ghost var now := doc.Lines();
      InView(was, now, from, to, lendiff, view, viewFrom, viewTo);
      if from >= viewTo {
        ShiftBehind(was, now, from, to, lendiff, view, viewFrom, viewTo);
        ExactIsUsable(view, viewFrom, viewTo, now);
      } else if to <= viewFrom {
        ShiftBefore(was, now, from, to, lendiff, view, viewFrom, viewTo);
        viewFrom, viewTo := viewFrom + lendiff, viewTo + lendiff;
      } else {
        RegInside(from, to, lendiff, was);
        ExactIsUsable(view, viewFrom, viewTo, now);
      }
    }

    /** The same, when the changed lines reach into the view. */
    method RegInside(from: int, to: int, lendiff: int, ghost was: seq<Line>)
      requires doc.Valid() && Exact(view, viewFrom, viewTo, was) && Shifted(was, doc.Lines(), from, to, lendiff)
      requires |view| == viewTo - viewFrom && 0 <= from < viewTo && viewFrom < to && from < to && from <= to + lendiff <= |doc.Lines()|
      modifies `view, `viewFrom, `viewTo
      ensures Exact(view, viewFrom, viewTo, doc.Lines())
      ensures Followed(from, to, lendiff, old(viewFrom), old(viewTo), viewFrom, viewTo)
    {
      hide Whole, BranchesSmall, LeafSizes, Exact, Shifted;
      ghost var now := doc.Lines();
      if from <= viewFrom && to >= viewTo {
        Reset();
        EmptyIsExact(now);
      } else if from <= viewFrom {
        ShiftTop(was, now, from, to, lendiff, view, viewFrom, viewTo);
        CutTop(to, lendiff);
      } else if to >= viewTo {
        ShiftBottom(was, now, from, to, lendiff, view, viewFrom, viewTo);
        CutBottom(from);
      } else {
        ShiftInside(was, now, from, to, lendiff, view, viewFrom, viewTo);
        Renew(from, to, lendiff);
      }
    }

    /** The lower part of the view stays. */
    method CutTop(to: int, lendiff: int)
      requires |view| == viewTo - viewFrom && viewFrom < to < viewTo
      modifies `view, `viewFrom, `viewTo
      ensures view == old(view)[to - old(viewFrom)..] && viewFrom == to + lendiff && viewTo == old(viewTo) + lendiff
    {
      var cut := FindIndex(to);
      view, viewFrom, viewTo := view[cut.value..], to + lendiff, viewTo + lendiff;
    }

    /** The upper part of the view stays. */
    method CutBottom(from: int)
      requires |view| == viewTo - viewFrom && viewFrom < from < viewTo
      modifies `view, `viewTo
      ensures view == old(view)[..from - viewFrom] && viewTo == from
    {
      var cut := FindIndex(from);
      view, viewTo := view[..cut.value], from;
    }

    /** Both parts stay, and new entries come between them. */
    method Renew(from: int, to: int, lendiff: int)
      requires doc.Valid() && |view| == viewTo - viewFrom && viewFrom < from < to < viewTo
      requires 0 <= from <= to + lendiff <= |doc.Lines()|
      modifies `view, `viewTo
      ensures viewTo == old(viewTo) + lendiff
      ensures view == old(view)[..from - viewFrom] + doc.Lines()[from..to + lendiff] + old(view)[to - viewFrom..]
    {
      hide Whole, BranchesSmall, LeafSizes;
      var top := FindIndex(from);
      var bottom := FindIndex(to);
      StaysWhole(doc.g);
      var between := Build(from, to + lendiff);
      view, viewTo := view[..top.value] + between + view[bottom.value..], viewTo + lendiff;
    }

    /**
     regChange without a range, for a document that is new from end to end.  When the new document is
     shorter than the view was, what is left of the view lies behind the end: the view is right
     exactly if the document is long enough.
     */
    method RegAll(ghost was: seq<Line>)
      requires doc.Valid() && Holds(was)
      modifies `view, `viewFrom, `viewTo
      ensures Holds(doc.Lines())
      ensures Exact(view, viewFrom, viewTo, doc.Lines()) <==> |doc.Lines()| >= old(viewTo)
      ensures |doc.Lines()| >= old(viewTo) ==> view == [] && viewFrom == viewTo
      ensures |doc.Lines()| < old(viewTo) ==> viewTo == old(viewTo) && viewFrom == if old(viewFrom) < |doc.Lines()| then |doc.Lines()| else old(viewFrom)
    {
      hide Whole, BranchesSmall, LeafSizes;
      var from, to := 0, 0;
      to := doc.Size();
      if from >= viewTo {
      } else if to <= viewFrom {
      } else if from <= viewFrom && to >= viewTo {
        Reset();
      } else {
        var cut := FindIndex(to);
        view, viewFrom := view[cut.value..], to;
      }
    }

    /** adjustView: whatever the view was, it now shows the lines from `from` up to `to`. */
    method Adjust(from: int, to: int)
      requires doc.Valid() && Holds(doc.Lines()) && 0 <= from <= to <= |doc.Lines()|
      modifies `view, `viewFrom, `viewTo
      ensures viewFrom == from && viewTo == to && Exact(view, from, to, doc.Lines())
    {
      hide Whole, BranchesSmall, LeafSizes;
      ghost var lines := doc.Lines();
      if |view| == 0 || from >= viewTo || to <= viewFrom {
        view := Build(from, to);
        viewFrom := from;
      } else {
        AdjustTop(from);
        StaysWhole(doc.g);
        AdjustBottom(to);
      }
      viewTo := to;
    }

    method AdjustTop(from: int)
      requires doc.Valid() && Exact(view, viewFrom, viewTo, doc.Lines()) && 0 <= from < viewTo
      modifies `view, `viewFrom
      ensures viewFrom == from && Exact(view, from, viewTo, doc.Lines())
    {
      hide Whole, BranchesSmall, LeafSizes;
      if viewFrom > from {
        var entries := Build(from, viewFrom);
        assert entries + view == doc.Lines()[from..viewTo];
        view := entries + view;
      } else if viewFrom < from {
        var cut := FindIndex(from);
        assert view[cut.value..] == doc.Lines()[from..viewTo];
        view := view[cut.value..];
      }
      viewFrom := from;
    }

    method AdjustBottom(to: int)
      requires doc.Valid() && Exact(view, viewFrom, viewTo, doc.Lines()) && viewFrom <= to <= |doc.Lines()|
      modifies `view
      ensures Exact(view, viewFrom, to, doc.Lines())
    {
      hide Whole, BranchesSmall, LeafSizes;
      if viewTo < to {
        var entries := Build(viewTo, to);
        assert view + entries == doc.Lines()[viewFrom..to];
        view := view + entries;
      } else if viewTo > to {
        var cut := FindIndex(to);
        assert view[..cut.value] == doc.Lines()[viewFrom..to];
        view := view[..cut.value];
      }
    }

    /** The edit itself, and what it does to the numbers of the lines. */
    method EditText(c: Change, full: bool, wholeLines: bool, estimate: string -> nat)
      requires doc.Valid() && ValidChange(doc.Texts(), c) && (full ==> c.from == Pos(0, 0) && c.to == EndPos(doc.Texts()))
      modifies doc, doc.g.text.Keys, doc.g.heights.Keys
      ensures doc.Valid() && doc.Texts() == Splice(old(doc.Texts()), c)
      ensures Shifted(old(doc.Lines()), doc.Lines(), c.from.line, c.to.line + 1, |c.text| - (c.to.line - c.from.line) - 1)
      ensures InPlace(c, full, wholeLines) ==> doc.Lines() == old(doc.Lines())
    {
      hide Doc.Valid, Glued, Glue, Splice;
      GluedLength(doc.Texts(), c);
      doc.UpdateDoc(c, full, wholeLines, estimate);
    }

    /** makeChangeSingleDocInEditor, as far as the view is concerned: edit the document and keep the view in step. */
    method ApplyChange(c: Change, full: bool, wholeLines: bool, estimate: string -> nat)
      requires doc.Valid() && ValidChange(doc.Texts(), c) && (full ==> c.from == Pos(0, 0) && c.to == EndPos(doc.Texts()))
      requires Holds(doc.Lines())
      modifies doc, doc.g.text.Keys, doc.g.heights.Keys, `view, `viewFrom, `viewTo
      ensures doc.Valid() && doc.Texts() == Splice(old(doc.Texts()), c) && Holds(doc.Lines())
      ensures !full && old(Exact(view, viewFrom, viewTo, doc.Lines())) ==> Exact(view, viewFrom, viewTo, doc.Lines())
      ensures !full ==> InStep(c, wholeLines, old(viewFrom), old(viewTo), viewFrom, viewTo)
      ensures full ==> (Exact(view, viewFrom, viewTo, doc.Lines()) <==> |doc.Lines()| >= old(viewTo))
    {
      hide Whole, BranchesSmall, LeafSizes, Splice, Usable, Exact, Shifted;
      ghost var was := doc.Lines();
      EditText(c, full, wholeLines, estimate);
      label Updated:
      ghost var texts := doc.Texts();
      KeepInStep(c, full, wholeLines, was);
      StaysWhole@Updated(doc.g);
      assert doc.Texts() == texts;
    }

    /** What the view learns about an edit that has been made. */
    method KeepInStep(c: Change, full: bool, wholeLines: bool, ghost was: seq<Line>)
      requires doc.Valid() && Holds(was) && |c.text| > 0
      requires !full ==> Shifted(was, doc.Lines(), c.from.line, c.to.line + 1, |c.text| - (c.to.line - c.from.line) - 1)
      requires InPlace(c, full, wholeLines) ==> doc.Lines() == was
      modifies `view, `viewFrom, `viewTo
      ensures Holds(doc.Lines())
      ensures !full && old(Exact(view, viewFrom, viewTo, was)) ==> Exact(view, viewFrom, viewTo, doc.Lines())
      ensures !full ==> InStep(c, wholeLines, old(viewFrom), old(viewTo), viewFrom, viewTo)
      ensures full ==> (Exact(view, viewFrom, viewTo, doc.Lines()) <==> |doc.Lines()| >= old(viewTo))
    {
      hide Whole, BranchesSmall, LeafSizes;
      var lendiff := |c.text| - (c.to.line - c.from.line) - 1;
      if full {
        RegAll(was);
      } else if c.from.line != c.to.line || |c.text| != 1 || IsWholeLineUpdate(c, wholeLines) {
        RegChange(c.from.line, c.to.line + 1, lendiff, was);
      }
    }
  }

  /** A view that reached behind the end of a new, shorter document is not right. */
  method StaleView() returns (d: Display)
    ensures fresh(d) && d.doc.Valid() && d.Holds(d.doc.Lines()) && !Exact(d.view, d.viewFrom, d.viewTo, d.doc.Lines())
  {
    hide Whole, BranchesSmall, LeafSizes, Splice;
    var doc := NewDoc(["a", "b"]);
    label Made:
    d := new Display(doc);
    StaysWhole@Made(doc.g);
    d.Adjust(0, 2);
    StaysWhole@Made(doc.g);
    var shorter := Change(Pos(0, 0), Pos(1, 1), ["c"]);
    ShorterText(shorter);
    d.ApplyChange(shorter, true, true, OneRow);
  }

  lemma ShorterText(c: Change)
    requires c == Change(Pos(0, 0), Pos(1, 1), ["c"])
    ensures ValidChange(["a", "b"], c) && EndPos(["a", "b"]) == c.to && |Splice(["a", "b"], c)| == 1
  {
  }
}
