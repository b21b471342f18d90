/** Where positions go when the document is edited, and how an edit is inverted. */
module Changes {
  import opened Positions
  import opened Texts

  /** The position where the inserted text ends (changeEnd). */
  function ChangeEnd(c: Change): Pos
    requires |c.text| > 0
  {
    Pos(c.from.line + |c.text| - 1, |Last(c.text)| + if |c.text| == 1 then c.from.ch else 0)
  }

  /** Where a position of the old document is in the new one (adjustForChange). */
  function Adjust(p: Pos, c: Change): Pos
    requires |c.text| > 0
  {
    if Cmp(p, c.from) < 0 then p
    else if Cmp(p, c.to) <= 0 then ChangeEnd(c)
    else
      var line := p.line + |c.text| - (c.to.line - c.from.line) - 1;
      Pos(line, if p.line == c.to.line then p.ch + ChangeEnd(c).ch - c.to.ch else p.ch)
  }

  /** Move `p` by as much as `new` differs from `old` (offsetPos). */
  function OffsetPos(p: Pos, old_: Pos, new_: Pos): Pos {
    if p.line == old_.line then Pos(new_.line, p.ch - old_.ch + new_.ch)
    else Pos(new_.line + (p.line - old_.line), p.ch)
  }

  /** The edit that takes the result of `c` back (historyChangeFromChange). */
  function Inverse(d: seq<string>, c: Change): Change
    requires ValidChange(d, c)
  {
    Change(c.from, ChangeEnd(c), Between(d, c.from, c.to))
  }

  /** The nearest position that exists in the document (clipPos). */
  function ClipPos(d: seq<string>, p: Pos): Pos
    requires |d| > 0
  {
    if p.line < 0 then Pos(0, 0)
    else if p.line > |d| - 1 then Pos(|d| - 1, |Last(d)|)
    else if p.ch > |d[p.line]| then Pos(p.line, |d[p.line]|)
    else if p.ch < 0 then Pos(p.line, 0)
    else p
  }

  // ----- where the inserted text ends

  lemma ChangeEndIsEnd(d: seq<string>, c: Change)
    requires ValidChange(d, c)
    ensures ChangeEnd(c) == EndPos(Cat(Before(d, c.from), c.text)) == Plus(c.from, EndPos(c.text))
  {
    SplitCat(Before(d, c.from), c.text);
    SplitAt(d, c.from);
  }

  /** After an edit, the text between its start and its end is the inserted text. */
  lemma SpliceCut(d: seq<string>, c: Change)
    requires ValidChange(d, c)
    ensures var e := Splice(d, c);
            && ValidPos(e, c.from) && ValidPos(e, ChangeEnd(c)) && Cmp(c.from, ChangeEnd(c)) <= 0
            && Before(e, c.from) == Before(d, c.from)
            && Between(e, c.from, ChangeEnd(c)) == c.text
            && After(e, ChangeEnd(c)) == After(d, c.to)
  {
    SpliceCat(d, c);
    SplitAt(d, c.from);
    BetweenOfCat(Before(d, c.from), c.text, After(d, c.to));
    ChangeEndIsEnd(d, c);
  }

  /** The inverse edit is valid after the edit and gives back the document; inverting twice gives back the edit. */
  lemma InverseUndoes(d: seq<string>, c: Change)
    requires ValidChange(d, c)
    ensures ValidChange(Splice(d, c), Inverse(d, c))
    ensures Splice(Splice(d, c), Inverse(d, c)) == d
    ensures Inverse(Splice(d, c), Inverse(d, c)) == c
  {
    SpliceCut(d, c);
    BetweenCat(d, c.from, c.to);
    SpliceCat(Splice(d, c), Inverse(d, c));
    ChangeEndIsEnd(d, c);
    var m := Between(d, c.from, c.to);
    ChangeEndIsEnd(Splice(d, c), Inverse(d, c));
    SplitAt(d, c.to);
  }

  // ----- adjusting positions

  /** `Between` two positions, read as a step from one to the other. */
  lemma StepBetween(d: seq<string>, p: Pos, q: Pos)
    requires ValidPos(d, p) && ValidPos(d, q) && Cmp(p, q) <= 0
    ensures |Between(d, p, q)| > 0
    ensures EndPos(Between(d, p, q)) == OffsetPos(q, p, Pos(0, 0))
    ensures Plus(p, EndPos(Between(d, p, q))) == q
    ensures After(d, p) == Cat(Between(d, p, q), After(d, q))
  {
    BetweenCat(d, p, q);
    SplitCat(Before(d, p), Cat(Between(d, p, q), After(d, q)));
    SplitAt(d, p);
  }

  lemma AdjustBefore(d: seq<string>, c: Change, p: Pos)
    requires ValidChange(d, c) && ValidPos(d, p) && Cmp(p, c.from) < 0
    ensures ValidPos(Splice(d, c), p) && Before(Splice(d, c), p) == Before(d, p)
  {
    var e := Splice(d, c);
    SpliceCut(d, c);
    var m := Between(d, p, c.from);
    BetweenCat(d, p, c.from);
    SplitAt(e, c.from);
    CatAssoc(Before(d, p), m, After(e, c.from));
    SplitCat(Before(d, p), Cat(m, After(e, c.from)));
    SplitAt(d, p);
  }

  lemma AdjustAfter(d: seq<string>, c: Change, p: Pos)
    requires ValidChange(d, c) && ValidPos(d, p) && Cmp(p, c.to) > 0
    ensures ValidPos(Splice(d, c), Adjust(p, c)) && After(Splice(d, c), Adjust(p, c)) == After(d, p)
  {
    var e := Splice(d, c);
    SpliceCut(d, c);
    StepBetween(d, c.to, p);
    var m, b := Between(d, c.to, p), Before(e, ChangeEnd(c));
    SplitAt(e, ChangeEnd(c));
    CatAssoc(b, m, After(d, p));
    SplitCat(Cat(b, m), After(d, p));
    SplitCat(b, m);
    AdjustIsStep(c, p);
  }

  lemma AdjustIsStep(c: Change, p: Pos)
    requires |c.text| > 0 && Cmp(p, c.to) > 0 && Cmp(c.from, c.to) <= 0
    ensures Adjust(p, c) == Plus(ChangeEnd(c), OffsetPos(p, c.to, Pos(0, 0)))
  {
  }

  /** A position keeps the text before it when it lies before the edit, and the text after it when it lies after. */
  lemma AdjustKeepsText(d: seq<string>, c: Change, p: Pos)
    requires ValidChange(d, c) && ValidPos(d, p)
    ensures ValidPos(Splice(d, c), Adjust(p, c))
    ensures Cmp(p, c.from) < 0 ==> Before(Splice(d, c), Adjust(p, c)) == Before(d, p)
    ensures Cmp(p, c.from) >= 0 && Cmp(p, c.to) >= 0 ==> After(Splice(d, c), Adjust(p, c)) == After(d, p)
    ensures Cmp(p, c.from) >= 0 && Cmp(p, c.to) <= 0 ==> Before(Splice(d, c), Adjust(p, c)) == Cat(Before(d, c.from), c.text)
  {
    if Cmp(p, c.from) < 0 {
      AdjustBefore(d, c, p);
    } else if Cmp(p, c.to) > 0 {
      AdjustAfter(d, c, p);
    } else {
      SpliceCut(d, c);
      BetweenCat(Splice(d, c), c.from, ChangeEnd(c));
    }
  }

  /** In offsets of the joined text, adjusting is the shift by the difference of the two lengths. */
  lemma AdjustOffset(d: seq<string>, c: Change, p: Pos, sep: string)
    requires ValidChange(d, c) && ValidPos(d, p)
    ensures ValidPos(Splice(d, c), Adjust(p, c))
    ensures var i, j, k := Offset(d, sep, c.from), Offset(d, sep, c.to), Offset(d, sep, p);
            Offset(Splice(d, c), sep, Adjust(p, c))
            == if Cmp(p, c.from) < 0 then k
               else if Cmp(p, c.to) <= 0 then i + |Join(c.text, sep)|
               else k + |Join(c.text, sep)| - (j - i)
  {
    var e := Splice(d, c);
    AdjustKeepsText(d, c, p);
    SpliceIsStringSplice(d, c, sep);
    JoinAtOffset(d, sep, p);
    JoinAtOffset(e, sep, Adjust(p, c));
    JoinAtOffset(d, sep, c.to);
    if Cmp(p, c.from) >= 0 && Cmp(p, c.to) <= 0 {
      SpliceCut(d, c);
    }
  }

  /** Adjusting never swaps two positions, whether or not they exist in the document. */
  lemma AdjustMonotone(c: Change, p: Pos, q: Pos)
    requires |c.text| > 0 && Cmp(c.from, c.to) <= 0 && Cmp(p, q) <= 0
    ensures Cmp(Adjust(p, c), Adjust(q, c)) <= 0
  {
    assert Cmp(c.from, ChangeEnd(c)) <= 0;
  }

  // ----- clipping and offsets

  lemma ClipPosIsRetraction(d: seq<string>, p: Pos, q: Pos)
    requires |d| > 0
    ensures ValidPos(d, ClipPos(d, p))
    ensures ValidPos(d, p) <==> ClipPos(d, p) == p
    ensures Cmp(p, q) <= 0 ==> Cmp(ClipPos(d, p), ClipPos(d, q)) <= 0
  {
  }

  lemma {:induction false} OffsetStrict(d: seq<string>, sep: string, p: Pos, q: Pos)
    requires ValidPos(d, p) && ValidPos(d, q) && |sep| > 0 && Cmp(p, q) < 0
    ensures Offset(d, sep, p) < Offset(d, sep, q)
    decreases p.line
  {
    if p.line > 0 {
      OffsetStrict(d[1..], sep, Pos(p.line - 1, p.ch), Pos(q.line - 1, q.ch));
    }
  }

  /** The position that an index of the joined text denotes: the last one whose offset does not exceed it. */
  ghost predicate IsPosAt(d: seq<string>, sep: string, index: int, p: Pos) {
    && ValidPos(d, p)
    && (index < 0 ==> p == Pos(0, 0))
    && (index >= 0 ==> Offset(d, sep, p) <= index)
    && forall q: Pos :: ValidPos(d, q) && Offset(d, sep, q) <= index ==> Cmp(q, p) <= 0
  }

  /** indexFromPos: walk the lines before the position, adding their lengths. */
  method IndexFromPos(d: seq<string>, sep: string, pos: Pos) returns (index: int)
    requires |d| > 0
    ensures index == Offset(d, sep, ClipPos(d, pos))
  {
    var p := ClipPos(d, pos);
    index := p.ch;
    if p.line < 0 || p.ch < 0 { return 0; }
    var k := 0;
    while k < p.line
      invariant 0 <= k <= p.line
      invariant index + Offset(d[k..], sep, Pos(p.line - k, p.ch)) == Offset(d, sep, p) + p.ch
    {
      assert d[k..][1..] == d[k + 1..];
      index := index + |d[k]| + |sep|;
      k := k + 1;
    }
  }

  lemma {:induction false} OffsetSkip(d: seq<string>, sep: string, k: nat, p: Pos)
    requires k <= p.line && ValidPos(d, p)
    ensures Offset(d, sep, p) == Offset(d, sep, Pos(k, 0)) + Offset(d[k..], sep, Pos(p.line - k, p.ch))
  {
    if k == 0 {
      assert d[0..] == d;
    } else {
      OffsetSkip(d[1..], sep, k - 1, Pos(p.line - 1, p.ch));
      assert d[1..][k - 1..] == d[k..];
    }
  }

  /** posFromIndex: walk the lines, subtracting their lengths, until the rest of the index fits in one. */
  method PosFromIndex(d: seq<string>, sep: string, index: int) returns (pos: Pos)
    requires |d| > 0 && |sep| > 0
    ensures IsPosAt(d, sep, index, pos)
  {
    var e, r := index, 0;
    while r < |d| && |d[r]| + |sep| <= e
      invariant 0 <= r <= |d|
      invariant r < |d| ==> e == index - Offset(d, sep, Pos(r, 0))
      invariant r == |d| ==> Offset(d, sep, Pos(|d| - 1, |Last(d)|)) <= index
      invariant e < 0 ==> r == 0 && e == index
    {
      OffsetSkip(d, sep, r, Pos(r, |d[r]|));
      if r + 1 < |d| {
        OffsetSkip(d, sep, r, Pos(r + 1, 0));
      }
      e := e - (|d[r]| + |sep|);
      r := r + 1;
    }
    pos := ClipPos(d, Pos(r, e));
    PosFromIndexLast(d, sep, index, r, e);
  }

  /** The line found by the walk is the right one. */
  lemma PosFromIndexLast(d: seq<string>, sep: string, index: int, r: nat, e: int)
    requires |d| > 0 && |sep| > 0 && r <= |d|
    requires r < |d| ==> e == index - Offset(d, sep, Pos(r, 0)) && |d[r]| + |sep| > e
    requires r == |d| ==> Offset(d, sep, Pos(|d| - 1, |Last(d)|)) <= index
    requires e < 0 ==> r == 0 && e == index
    ensures IsPosAt(d, sep, index, ClipPos(d, Pos(r, e)))
  {
    var p := ClipPos(d, Pos(r, e));
    if r < |d| {
      OffsetSkip(d, sep, r, p);
    } else if index < 0 {
      assert false;
    }
    forall q: Pos | ValidPos(d, q) && Offset(d, sep, q) <= index
      ensures Cmp(q, p) <= 0
    {
      if Cmp(q, p) > 0 && r < |d| {
        if q.line == r {
          OffsetSkip(d, sep, r, q);
        } else {
          OffsetSkip(d, sep, r, q);
          OffsetSkip(d, sep, r, Pos(r + 1, 0));
          if q != Pos(r + 1, 0) {
            OffsetStrict(d, sep, Pos(r + 1, 0), q);
          }
        }
      }
    }
  }

  /** The position of an offset is the position it came from. */
  lemma PosOfOffset(d: seq<string>, sep: string, p: Pos, r: Pos)
    requires |sep| > 0 && ValidPos(d, p) && IsPosAt(d, sep, Offset(d, sep, p), r)
    ensures r == p
  {
    if Cmp(p, r) < 0 {
      OffsetStrict(d, sep, p, r);
    }
  }

  lemma EndHasNothingAfter(d: seq<string>, sep: string)
    requires |d| > 0
    ensures Offset(d, sep, EndPos(d)) == |Join(d, sep)|
  {
    OffsetBefore(d, sep, EndPos(d));
    assert Last(d)[..|Last(d)|] == Last(d);
    assert Before(d, EndPos(d)) == d;
  }

  /** The index falls into a line or right behind it, and not between the characters of a separator. */
  ghost predicate OnLine(d: seq<string>, sep: string, index: int) {
    exists k :: 0 <= k < |d| && Offset(d, sep, Pos(k, 0)) <= index <= Offset(d, sep, Pos(k, 0)) + |d[k]|
  }

  lemma OffsetOnLine(d: seq<string>, sep: string, p: Pos)
    requires ValidPos(d, p)
    ensures Offset(d, sep, p) == Offset(d, sep, Pos(p.line, 0)) + p.ch
  {
    OffsetSkip(d, sep, p.line, p);
  }

  /** Exactly the indices on a line survive the way to a position and back. */
  lemma OffsetOfPos(d: seq<string>, sep: string, index: int, r: Pos)
    requires |d| > 0 && |sep| > 0 && IsPosAt(d, sep, index, r)
    ensures Offset(d, sep, r) == index <==> OnLine(d, sep, index)
  {
    OffsetOnLine(d, sep, r);
    if k :| 0 <= k < |d| && Offset(d, sep, Pos(k, 0)) <= index <= Offset(d, sep, Pos(k, 0)) + |d[k]| {
      var q := Pos(k, index - Offset(d, sep, Pos(k, 0)));
      OffsetOnLine(d, sep, q);
      if Cmp(q, r) < 0 {
        OffsetStrict(d, sep, q, r);
      }
    }
  }

  /** With a separator of one character these are all indices of the text. */
  lemma OffsetOfPosShort(d: seq<string>, sep: string, index: int, r: Pos)
    requires |d| > 0 && |sep| == 1 && IsPosAt(d, sep, index, r)
    ensures Offset(d, sep, r) == index <==> 0 <= index <= |Join(d, sep)|
  {
    JoinAtOffset(d, sep, r);
    if 0 <= index <= |Join(d, sep)| && Offset(d, sep, r) < index {
      var q := if r.ch < |d[r.line]| then Pos(r.line, r.ch + 1) else Pos(r.line + 1, 0);
      OffsetSkip(d, sep, r.line, r);
      if q.line < |d| {
        OffsetSkip(d, sep, r.line, q);
      } else {
        EndHasNothingAfter(d, sep);
        assert false;
      }
    }
  }

  /** With a separator of two characters the index between them does not. */
  lemma BetweenSeparatorCharacters(r: Pos)
    requires IsPosAt(["a", "b"], "\r\n", 2, r)
    ensures 0 <= 2 <= |Join(["a", "b"], "\r\n")| && Offset(["a", "b"], "\r\n", r) != 2
  {
    var d, sep := ["a", "b"], "\r\n";
    OffsetOfPos(d, sep, 2, r);
    assert d[1..] == ["b"] && Offset(d, sep, Pos(1, 0)) == 3;
    assert Join(d, sep) == "a" + sep + "b";
  }
}
