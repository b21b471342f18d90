/**
 Replacing several selected ranges at once: the edits are made from the last to the first, and the
 positions of the inserted texts are computed from the first to the last.
 */
module Cursors {
  import opened Positions
  import opened Texts
  import opened Changes
  import opened Selections

  /** Edits in the order of the document that do not overlap, all behind position `p`. */
  ghost predicate Ordered(d: seq<string>, cs: seq<Change>, p: Pos) {
    ValidPos(d, p) && (cs == [] || (ValidChange(d, cs[0]) && Cmp(p, cs[0].from) <= 0 && Ordered(d, cs[1..], cs[0].to)))
  }

  lemma {:induction false} OrderedIntro(d: seq<string>, cs: seq<Change>, p: Pos)
    requires ValidPos(d, p) && forall i :: 0 <= i < |cs| ==> ValidChange(d, cs[i])
    requires forall i :: 0 < i < |cs| ==> Cmp(cs[i - 1].to, cs[i].from) <= 0
    requires cs != [] ==> Cmp(p, cs[0].from) <= 0
    ensures Ordered(d, cs, p)
  {
    if cs != [] {
      assert forall i :: 0 < i < |cs| ==> cs[1..][i - 1] == cs[i];
      assert |cs| > 1 ==> cs[1..][0] == cs[1];
      OrderedIntro(d, cs[1..], cs[0].to);
    }
  }

  /** The edits that replace the ranges of a normalized selection are in order and do not overlap. */
  lemma SelectionIsOrdered(d: seq<string>, rs: seq<Range>, cs: seq<Change>, mayTouch: bool)
    requires |d| > 0 && AllSeparate(rs, mayTouch) && |cs| == |rs|
    requires forall i :: 0 <= i < |rs| ==> ValidPos(d, rs[i].anchor) && ValidPos(d, rs[i].head)
    requires forall i :: 0 <= i < |rs| ==> cs[i].from == rs[i].From() && cs[i].to == rs[i].To() && |cs[i].text| > 0
    ensures Ordered(d, cs, Pos(0, 0))
  {
    forall i | 0 < i < |cs| ensures Cmp(cs[i - 1].to, cs[i].from) <= 0 {
      assert Separate(rs[i - 1], rs[i], mayTouch);
    }
    OrderedIntro(d, cs, Pos(0, 0));
  }

  /** The document after the edits, made from the last to the first. */
  ghost predicate AppliedBackwards(d: seq<string>, cs: seq<Change>, e: seq<string>) {
    if cs == [] then e == d
    else exists m :: AppliedBackwards(d, cs[1..], m) && ValidChange(m, cs[0]) && e == Splice(m, cs[0])
  }

  /** The new text behind position `p` of the old document. */
  ghost function Rest(d: seq<string>, cs: seq<Change>, p: Pos): (r: seq<string>)
    requires Ordered(d, cs, p)
    ensures |r| > 0
  {
    if cs == [] then After(d, p)
    else
      assert |Between(d, p, cs[0].from)| > 0 by { BetweenCat(d, p, cs[0].from); }
      Cat(Between(d, p, cs[0].from), Cat(cs[0].text, Rest(d, cs[1..], cs[0].to)))
  }

  /** What the edits make of the document, seen from any position before them. */
  lemma {:induction false} AppliedIs(d: seq<string>, cs: seq<Change>, p: Pos, e: seq<string>)
    requires Ordered(d, cs, p) && AppliedBackwards(d, cs, e)
    ensures e == Cat(Before(d, p), Rest(d, cs, p))
  {
    if cs == [] {
      SplitAt(d, p);
    } else {
      var c := cs[0];
      var m :| AppliedBackwards(d, cs[1..], m) && ValidChange(m, c) && e == Splice(m, c);
      AppliedIs(d, cs[1..], c.to, m);
      var a, b, rest := Before(d, p), Between(d, p, c.from), Rest(d, cs[1..], c.to);
      SplitCat(Before(d, c.to), rest);
      SplitAt(d, c.to);
      SameBefore(d, m, c.to, c.from);
      SpliceCat(m, c);
      BetweenCat(d, p, c.from);
      CatAssoc(a, b, Cat(c.text, rest));
    }
  }

  /** Documents that agree before a position agree before any earlier one. */
  lemma SameBefore(d: seq<string>, m: seq<string>, q: Pos, p: Pos)
    requires ValidPos(d, q) && ValidPos(m, q) && Before(m, q) == Before(d, q) && ValidPos(d, p) && ValidPos(m, p) && Cmp(p, q) <= 0
    ensures Before(m, p) == Before(d, p)
  {
    BetweenCat(d, p, q);
    BetweenCat(m, p, q);
    assert Before(d, q)[..p.line] == d[..p.line] && Before(m, q)[..p.line] == m[..p.line];
    if p.line < q.line {
      assert d[p.line] == Before(d, q)[p.line] && m[p.line] == Before(m, q)[p.line];
    } else {
      assert d[p.line][..q.ch] == Before(d, q)[p.line] && m[p.line][..q.ch] == Before(m, q)[p.line];
      assert d[p.line][..q.ch][..p.ch] == d[p.line][..p.ch] && m[p.line][..q.ch][..p.ch] == m[p.line][..p.ch];
    }
  }

  /** The text between two positions of the new document. */
  ghost predicate Holds(e: seq<string>, from: Pos, to: Pos, text: seq<string>) {
    ValidPos(e, from) && ValidPos(e, to) && Cmp(from, to) <= 0 && Between(e, from, to) == text
  }

  /** Walking from one position of the old document to the next is the same walk in the new one. */
  lemma OffsetIsStep(d: seq<string>, p: Pos, q: Pos, p': Pos)
    requires ValidPos(d, p) && ValidPos(d, q) && Cmp(p, q) <= 0
    ensures |Between(d, p, q)| > 0 && OffsetPos(q, p, p') == Plus(p', EndPos(Between(d, p, q)))
  {
    StepBetween(d, p, q);
  }

  lemma EndIsStep(c: Change, p: Pos, p': Pos)
    requires |c.text| > 0 && Cmp(p, c.from) <= 0
    ensures OffsetPos(ChangeEnd(c), p, p') == Plus(OffsetPos(c.from, p, p'), EndPos(c.text))
  {
  }

  /**
   One turn of the walk over the edits: `a` is the new text before position `p` of the old document.
   The text of the first edit is where the two offsets say, and the walk goes on behind it.
   */
  lemma WalkTurn(d: seq<string>, cs: seq<Change>, p: Pos, a: seq<string>, e: seq<string>) returns (a': seq<string>)
    requires cs != [] && Ordered(d, cs, p) && |a| > 0 && e == Cat(a, Rest(d, cs, p))
    ensures var from, to := OffsetPos(cs[0].from, p, EndPos(a)), OffsetPos(ChangeEnd(cs[0]), p, EndPos(a));
      && Holds(e, from, to, cs[0].text)
      && |a'| > 0 && EndPos(a') == to && Ordered(d, cs[1..], cs[0].to) && e == Cat(a', Rest(d, cs[1..], cs[0].to))
      && |Between(d, p, cs[0].from)| > 0 && Before(e, from) == Cat(a, Between(d, p, cs[0].from)) && a' == Cat(Before(e, from), cs[0].text)
  {
    var c := cs[0];
    var b, rest := Between(d, p, c.from), Rest(d, cs[1..], c.to);
    OffsetIsStep(d, p, c.from, EndPos(a));
    EndIsStep(c, p, EndPos(a));
    var ab := Cat(a, b);
    SplitCat(a, b);
    CatAssoc(a, b, Cat(c.text, rest));
    BetweenOfCat(ab, c.text, rest);
    SplitCat(ab, c.text);
    SplitCat(ab, Cat(c.text, rest));
    a' := Cat(ab, c.text);
    CatAssoc(ab, c.text, rest);
  }

  /** Where the text of edit `i - 1` ends in the old document, counting from 1. */
  function PosBehind(cs: seq<Change>, i: nat): Pos
    requires i <= |cs|
  {
    if i == 0 then Pos(0, 0) else cs[i - 1].to
  }

  /** The new text up to the end of the first `i` inserted texts: these, and between them what was there in the old document. */
  ghost function Upto(d: seq<string>, cs: seq<Change>, i: nat): (a: seq<string>)
    requires Ordered(d, cs, Pos(0, 0)) && i <= |cs|
    ensures |a| > 0
    decreases i, 0
  {
    if i == 0 then [""]
    else
      OrderedFrom(d, cs, i - 1, Pos(0, 0));
      Cat(Front(d, cs, i - 1), cs[i - 1].text)
  }

  /** The new text before inserted text `i`. */
  ghost function Front(d: seq<string>, cs: seq<Change>, i: nat): (a: seq<string>)
    requires Ordered(d, cs, Pos(0, 0)) && i < |cs|
    ensures |a| > 0
    decreases i, 1
  {
    BetweenEdits(d, cs, i);
    Cat(Upto(d, cs, i), Between(d, PosBehind(cs, i), cs[i].from))
  }

  lemma BetweenEdits(d: seq<string>, cs: seq<Change>, i: nat)
    requires Ordered(d, cs, Pos(0, 0)) && i < |cs|
    ensures ValidChange(d, cs[i]) && ValidPos(d, PosBehind(cs, i)) && Cmp(PosBehind(cs, i), cs[i].from) <= 0
    ensures |Between(d, PosBehind(cs, i), cs[i].from)| > 0
  {
    if i > 0 {
      OrderedFrom(d, cs, i - 1, Pos(0, 0));
    }
    BetweenCat(d, PosBehind(cs, i), cs[i].from);
  }

  /** Range `r` covers the text of edit `c` in the new document, right behind the text `front`, and points the way the old range did. */
  ghost predicate AroundText(e: seq<string>, front: seq<string>, c: Change, was: Range, r: Range) {
    && Holds(e, r.From(), r.To(), c.text) && Before(e, r.From()) == front
    && (r.Empty() || (Cmp(was.head, was.anchor) < 0 <==> Cmp(r.head, r.anchor) < 0))
  }

  /** Range `r` is the place, right behind the text `front`, where the text of edit `c` starts. */
  ghost predicate AtText(e: seq<string>, front: seq<string>, c: Change, r: Range) {
    r.Empty() && ValidPos(e, r.head) && Before(e, r.head) == front && exists to :: Holds(e, r.head, to, c.text)
  }

  ghost predicate Placed(e: seq<string>, front: seq<string>, c: Change, was: Range, around: bool, r: Range) {
    if around then AroundText(e, front, c, was, r) else AtText(e, front, c, r)
  }

  lemma RangeIsPlaced(e: seq<string>, c: Change, was: Range, from: Pos, to: Pos)
    requires Holds(e, from, to, c.text)
    ensures Placed(e, Before(e, from), c, was, true, if Cmp(was.head, was.anchor) < 0 then Range(to, from) else Range(from, to))
    ensures Placed(e, Before(e, from), c, was, false, Range(from, from))
  {
    assert from == to ==> Range(from, to) == Range(to, from);
  }

  /** Every range is at its own text: what comes before it in the new document are the texts before and what was between the edits. */
  ghost predicate AllPlaced(d: seq<string>, e: seq<string>, cs: seq<Change>, ranges: seq<Range>, around: bool, out: seq<Range>)
    requires Ordered(d, cs, Pos(0, 0))
  {
    |out| <= |cs| && |out| <= |ranges| && forall i :: 0 <= i < |out| ==> Placed(e, Front(d, cs, i), cs[i], ranges[i], around, out[i])
  }

  lemma NonePlaced(d: seq<string>, e: seq<string>, cs: seq<Change>, ranges: seq<Range>, around: bool)
    requires |d| > 0 && Ordered(d, cs, Pos(0, 0))
    ensures AllPlaced(d, e, cs, ranges, around, []) && Upto(d, cs, 0) == [""]
  {
  }

  lemma OneMorePlaced(d: seq<string>, e: seq<string>, cs: seq<Change>, ranges: seq<Range>, around: bool, out: seq<Range>, r: Range)
    requires Ordered(d, cs, Pos(0, 0)) && AllPlaced(d, e, cs, ranges, around, out) && |out| < |cs| && |out| < |ranges|
    requires Placed(e, Front(d, cs, |out|), cs[|out|], ranges[|out|], around, r)
    ensures AllPlaced(d, e, cs, ranges, around, out + [r])
  {
    hide Placed, Front;
  }

  /** The walk over the edits has come to edit `i`, behind position `p` of the old document; `a` is the new text up to there. */
  ghost predicate Walked(d: seq<string>, cs: seq<Change>, i: nat, p: Pos, a: seq<string>, e: seq<string>) {
    i <= |cs| && Ordered(d, cs[i..], p) && |a| > 0 && e == Cat(a, Rest(d, cs[i..], p))
  }

  lemma WalkStart(d: seq<string>, cs: seq<Change>, e: seq<string>)
    requires |d| > 0 && Ordered(d, cs, Pos(0, 0)) && AppliedBackwards(d, cs, e)
    ensures Walked(d, cs, 0, Pos(0, 0), [""], e) && EndPos([""]) == Pos(0, 0)
  {
    AppliedIs(d, cs, Pos(0, 0), e);
    assert Before(d, Pos(0, 0)) == [""] && cs[0..] == cs;
  }

  lemma WalkOn(d: seq<string>, cs: seq<Change>, i: nat, p: Pos, a: seq<string>, e: seq<string>) returns (a': seq<string>)
    requires i < |cs| && Walked(d, cs, i, p, a, e)
    ensures |cs[i].text| > 0
    ensures var from, to := OffsetPos(cs[i].from, p, EndPos(a)), OffsetPos(ChangeEnd(cs[i]), p, EndPos(a));
      Holds(e, from, to, cs[i].text) && Walked(d, cs, i + 1, cs[i].to, a', e) && EndPos(a') == to
      && ValidPos(d, p) && Cmp(p, cs[i].from) <= 0 && ValidPos(d, cs[i].from) && |Between(d, p, cs[i].from)| > 0
      && Before(e, from) == Cat(a, Between(d, p, cs[i].from)) && a' == Cat(Before(e, from), cs[i].text)
  {
    assert cs[i..][0] == cs[i] && cs[i..][1..] == cs[i + 1..];
    a' := WalkTurn(d, cs[i..], p, a, e);
  }

  /** computeReplacedSel: where the inserted texts are, once all edits are made. */
  method ReplacedSelection(ranges: seq<Range>, cs: seq<Change>, around: bool, ghost d: seq<string>, ghost e: seq<string>)
    returns (out: seq<Range>)
    requires |ranges| == |cs| && |d| > 0 && Ordered(d, cs, Pos(0, 0)) && AppliedBackwards(d, cs, e)
    ensures |out| == |cs| && AllPlaced(d, e, cs, ranges, around, out)
  {
    hide Ordered, AppliedBackwards, Walked, Placed, Holds, AllPlaced, Before, Between, Cat, OffsetPos;
    NonePlaced(d, e, cs, ranges, around);
    var oldPrev, newPrev := Pos(0, 0), Pos(0, 0);
    out := [];
    ghost var a := [""];
    WalkStart(d, cs, e);
    var i := 0;
    while i < |cs|
      invariant 0 <= i <= |cs| && |out| == i && AllPlaced(d, e, cs, ranges, around, out)
      invariant a == Upto(d, cs, i) && newPrev == EndPos(a) && oldPrev == PosBehind(cs, i) && Walked(d, cs, i, oldPrev, a, e)
    {
      var c := cs[i];
      a := WalkOn(d, cs, i, oldPrev, a, e);
      assert Upto(d, cs, i + 1) == a;
      var from := OffsetPos(c.from, oldPrev, newPrev);
      var to := OffsetPos(ChangeEnd(c), oldPrev, newPrev);
      RangeIsPlaced(e, c, ranges[i], from, to);
      oldPrev, newPrev := c.to, to;
      var range;
      if around {
        var inverted := Cmp(ranges[i].head, ranges[i].anchor) < 0;
        range := if inverted then Range(to, from) else Range(from, to);
      } else {
        range := Range(from, from);
      }
      OneMorePlaced(d, e, cs, ranges, around, out, range);
      out, i := out + [range], i + 1;
    }
  }

  lemma {:induction false} OrderedFrom(d: seq<string>, cs: seq<Change>, l: nat, p: Pos)
    requires Ordered(d, cs, p) && l < |cs|
    ensures ValidChange(d, cs[l]) && Ordered(d, cs[l + 1..], cs[l].to)
  {
    if l > 0 {
      OrderedFrom(d, cs[1..], l - 1, cs[0].to);
      assert cs[1..][l..] == cs[l + 1..];
    }
  }

  /** The edits behind an edit leave it valid. */
  lemma StillValid(d: seq<string>, c: Change, cs: seq<Change>, e: seq<string>)
    requires ValidChange(d, c) && Ordered(d, cs, c.to) && AppliedBackwards(d, cs, e)
    ensures ValidChange(e, c) && Before(e, c.to) == Before(d, c.to)
  {
    AppliedIs(d, cs, c.to, e);
    SplitAt(d, c.to);
    SplitCat(Before(d, c.to), Rest(d, cs, c.to));
    var b := Before(d, c.to);
    assert c.from.line < c.to.line ==> b[c.from.line] == d[c.from.line] == e[c.from.line];
    assert Last(b) == d[c.to.line][..c.to.ch] == e[c.to.line][..c.to.ch];
  }

  /** The next edit towards the front is possible. */
  lemma OneMoreApplied(d: seq<string>, cs: seq<Change>, l: nat, e: seq<string>)
    requires l < |cs| && Ordered(d, cs, Pos(0, 0)) && AppliedBackwards(d, cs[l + 1..], e)
    ensures ValidChange(e, cs[l]) && AppliedBackwards(d, cs[l..], Splice(e, cs[l]))
  {
    assert cs[l..][1..] == cs[l + 1..] && cs[l..][0] == cs[l];
    OrderedFrom(d, cs, l, Pos(0, 0));
    StillValid(d, cs[l], cs[l + 1..], e);
  }

  /** The edits of replaceSelections, made from the last to the first. */
  method ApplyFromLast(d: seq<string>, cs: seq<Change>) returns (e: seq<string>)
    requires |d| > 0 && Ordered(d, cs, Pos(0, 0))
    ensures AppliedBackwards(d, cs, e)
  {
    e := d;
    var l := |cs|;
    while l > 0
      invariant 0 <= l <= |cs| && AppliedBackwards(d, cs[l..], e)
    {
      l := l - 1;
      OneMoreApplied(d, cs, l, e);
      e := Splice(e, cs[l]);
    }
    assert cs[0..] == cs;
  }
}
