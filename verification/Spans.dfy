/**
 Marked text: every line keeps the spans of the markers that touch it, and an edit rebuilds the
 spans of the lines it touches.
 */
module Spans {
  import opened Positions
  import opened Texts
  import opened Changes
  import opened Wrappers

  datatype Marker = Marker(id: nat, inclusiveLeft: bool, inclusiveRight: bool, bookmark: bool, insertLeft: bool, clearWhenEmpty: bool)

  /** The part of a marker on one line; a side without a column goes on in the next line. */
  datatype Span = Span(marker: Marker, from: Option<int>, to: Option<int>)

  /** The spans of one marker. */
  function Of(spans: seq<Span>, m: Marker): seq<Span> {
    if spans == [] then []
    else Of(spans[..|spans| - 1], m) + if Last(spans).marker == m then [Last(spans)] else []
  }

  lemma {:induction false} OfAppend(a: seq<Span>, b: seq<Span>, m: Marker)
    ensures Of(a + b, m) == Of(a, m) + Of(b, m)
  {
    if b == [] {
      assert a + b == a;
    } else {
      OfAppend(a, b[..|b| - 1], m);
      assert (a + b)[..|a + b| - 1] == a + b[..|b| - 1];
    }
  }

  lemma OfOne(x: Span, m: Marker)
    ensures Of([x], m) == if x.marker == m then [x] else []
  {
    assert [x][..0] == [];
  }

  /** Spans that all belong to one marker. */
  lemma {:induction false} OfAll(spans: seq<Span>, k: Marker, m: Marker)
    requires forall i :: 0 <= i < |spans| ==> spans[i].marker == k
    ensures Of(spans, m) == if k == m then spans else []
  {
    if spans != [] {
      OfAll(spans[..|spans| - 1], k, m);
      assert spans == spans[..|spans| - 1] + [Last(spans)];
    }
  }

  lemma {:induction false} OfMine(spans: seq<Span>, m: Marker)
    ensures forall i :: 0 <= i < |Of(spans, m)| ==> Of(spans, m)[i].marker == m
  {
    if spans != [] {
      OfMine(spans[..|spans| - 1], m);
    }
  }

  /** Looking for a marker is looking among its own spans. */
  lemma FindOwn(spans: seq<Span>, m: Marker)
    ensures Find(spans, m) == Find(Of(spans, m), m)
  {
    FindOf(spans, m);
    FindOf(Of(spans, m), m);
    OfMine(spans, m);
    OfAll(Of(spans, m), m, m);
  }

  /** One more span at the end. */
  lemma OfSnoc(spans: seq<Span>, x: Span, m: Marker)
    ensures Of(spans + [x], m) == if x.marker == m then Of(spans, m) + [x] else Of(spans, m)
  {
    assert (spans + [x])[..|spans|] == spans;
    assert Of(spans, m) + [] == Of(spans, m);
  }

  // ----- what is left before and after the edit

  /** What remains of a span before column `at`. */
  function BeforeOne(o: Span, at: int, isInsert: bool): seq<Span> {
    var startsBefore := o.from.None? || (if o.marker.inclusiveLeft then o.from.value <= at else o.from.value < at);
    if startsBefore || (o.from == Some(at) && o.marker.bookmark && (!isInsert || !o.marker.insertLeft)) then
      var endsAfter := o.to.None? || (if o.marker.inclusiveRight then o.to.value >= at else o.to.value > at);
      [Span(o.marker, o.from, if endsAfter then None else o.to)]
    else []
  }

  /** What remains of a span after column `at`, counted from there. */
  function AfterOne(o: Span, at: int, isInsert: bool): seq<Span> {
    var endsAfter := o.to.None? || (if o.marker.inclusiveRight then o.to.value >= at else o.to.value > at);
    if endsAfter || (o.from == Some(at) && o.marker.bookmark && (!isInsert || o.marker.insertLeft)) then
      var startsBefore := o.from.None? || (if o.marker.inclusiveLeft then o.from.value <= at else o.from.value < at);
      [Span(o.marker, if startsBefore then None else Some(o.from.value - at), if o.to.None? then None else Some(o.to.value - at))]
    else []
  }

  function KeepBefore(at: int, isInsert: bool): Span -> seq<Span> {
    (o: Span) => BeforeOne(o, at, isInsert)
  }

  function KeepAfter(at: int, isInsert: bool): Span -> seq<Span> {
    (o: Span) => AfterOne(o, at, isInsert)
  }

  function Parts(spans: seq<Span>, f: Span -> seq<Span>): seq<Span> {
    if spans == [] then [] else Parts(spans[..|spans| - 1], f) + f(Last(spans))
  }

  lemma PartsSnoc(spans: seq<Span>, x: Span, f: Span -> seq<Span>)
    ensures Parts(spans + [x], f) == Parts(spans, f) + f(x)
  {
    assert (spans + [x])[..|spans|] == spans;
  }

  /** What remains of the spans of one marker does not depend on the others. */
  lemma {:induction false} PartsOf(spans: seq<Span>, f: Span -> seq<Span>, m: Marker)
    requires forall o, i :: 0 <= i < |f(o)| ==> f(o)[i].marker == o.marker
    ensures Of(Parts(spans, f), m) == Parts(Of(spans, m), f)
  {
    if spans != [] {
      var r, x := spans[..|spans| - 1], Last(spans);
      PartsOf(r, f, m);
      PartsOfStep(r, x, f, m);
      assert spans == r + [x];
    }
  }

  lemma PartsOfStep(r: seq<Span>, x: Span, f: Span -> seq<Span>, m: Marker)
    requires Of(Parts(r, f), m) == Parts(Of(r, m), f)
    requires forall i :: 0 <= i < |f(x)| ==> f(x)[i].marker == x.marker
    ensures Of(Parts(r + [x], f), m) == Parts(Of(r + [x], m), f)
  {
    hide Of, Parts;
    PartsSnoc(r, x, f);
    OfAppend(Parts(r, f), f(x), m);
    OfAll(f(x), x.marker, m);
    OfSnoc(r, x, m);
    if x.marker == m {
      PartsSnoc(Of(r, m), x, f);
    }
  }

  /** The span covers the character at column `x`. */
  ghost predicate Covers(o: Span, x: int) {
    (o.from.None? || o.from.value <= x) && (o.to.None? || x < o.to.value)
  }

  /** One of the spans of the marker covers the character at column `x`. */
  ghost predicate Covered(spans: seq<Span>, m: Marker, x: int) {
    exists i :: 0 <= i < |spans| && spans[i].marker == m && Covers(spans[i], x)
  }

  lemma CoveredAppend(a: seq<Span>, b: seq<Span>, m: Marker, x: int)
    ensures Covered(a + b, m, x) <==> Covered(a, m, x) || Covered(b, m, x)
  {
    if Covered(a, m, x) {
      var i :| 0 <= i < |a| && a[i].marker == m && Covers(a[i], x);
      assert (a + b)[i] == a[i];
    }
    if Covered(b, m, x) {
      var i :| 0 <= i < |b| && b[i].marker == m && Covers(b[i], x);
      assert (a + b)[|a| + i] == b[i];
    }
  }

  lemma CoveredOne(o: Span, m: Marker, x: int)
    ensures Covered([o], m, x) <==> o.marker == m && Covers(o, x)
  {
    assert [o][0] == o;
  }

  /** When every span covers as much in its new form, all of them together do. */
  lemma {:induction false} PartsCovered(spans: seq<Span>, f: Span -> seq<Span>, m: Marker, x: int, y: int)
    requires forall i :: 0 <= i < |spans| ==> (Covered(f(spans[i]), m, x) <==> Covered([spans[i]], m, y))
    ensures Covered(Parts(spans, f), m, x) <==> Covered(spans, m, y)
  {
    if spans != [] {
      var r := spans[..|spans| - 1];
      PartsCovered(r, f, m, x, y);
      CoveredAppend(Parts(r, f), f(Last(spans)), m, x);
      assert spans == r + [Last(spans)];
      CoveredAppend(r, [Last(spans)], m, y);
    }
  }

  /** Before the column every marker covers what it covered. */
  lemma BeforeCovered(spans: seq<Span>, at: int, isInsert: bool, m: Marker, x: int)
    requires x < at
    ensures Covered(Parts(spans, KeepBefore(at, isInsert)), m, x) <==> Covered(spans, m, x)
  {
    forall i | 0 <= i < |spans| ensures Covered(KeepBefore(at, isInsert)(spans[i]), m, x) <==> Covered([spans[i]], m, x) {
      CoveredOne(spans[i], m, x);
      var kept := BeforeOne(spans[i], at, isInsert);
      if kept != [] {
        CoveredOne(kept[0], m, x);
      }
    }
    PartsCovered(spans, KeepBefore(at, isInsert), m, x, x);
  }

  /** After the column every marker covers what it covered, counted from there. */
  lemma AfterCovered(spans: seq<Span>, at: int, isInsert: bool, m: Marker, x: int)
    requires x >= 0
    ensures Covered(Parts(spans, KeepAfter(at, isInsert)), m, x) <==> Covered(spans, m, x + at)
  {
    forall i | 0 <= i < |spans| ensures Covered(KeepAfter(at, isInsert)(spans[i]), m, x) <==> Covered([spans[i]], m, x + at) {
      CoveredOne(spans[i], m, x + at);
      var kept := AfterOne(spans[i], at, isInsert);
      if kept != [] {
        CoveredOne(kept[0], m, x);
      }
    }
    PartsCovered(spans, KeepAfter(at, isInsert), m, x, x + at);
  }

  method MarkedSpansBefore(old_: seq<Span>, startCh: int, isInsert: bool) returns (spans: seq<Span>)
    ensures spans == Parts(old_, KeepBefore(startCh, isInsert))
    ensures forall m, x :: x < startCh ==> (Covered(spans, m, x) <==> Covered(old_, m, x))
  {
    spans := [];
    var i := 0;
    while i < |old_|
      invariant 0 <= i <= |old_| && spans == Parts(old_[..i], KeepBefore(startCh, isInsert))
    {
      var o := old_[i];
      assert old_[..i + 1][..i] == old_[..i];
      var startsBefore := o.from.None? || (if o.marker.inclusiveLeft then o.from.value <= startCh else o.from.value < startCh);
      if startsBefore || (o.from == Some(startCh) && o.marker.bookmark && (!isInsert || !o.marker.insertLeft)) {
        var endsAfter := o.to.None? || (if o.marker.inclusiveRight then o.to.value >= startCh else o.to.value > startCh);
        spans := spans + [Span(o.marker, o.from, if endsAfter then None else o.to)];
      }
      i := i + 1;
    }
    assert old_[..i] == old_;
    forall m, x | x < startCh ensures Covered(spans, m, x) <==> Covered(old_, m, x) {
      BeforeCovered(old_, startCh, isInsert, m, x);
    }
  }

  method MarkedSpansAfter(old_: seq<Span>, endCh: int, isInsert: bool) returns (spans: seq<Span>)
    ensures spans == Parts(old_, KeepAfter(endCh, isInsert))
    ensures forall m, x :: x >= 0 ==> (Covered(spans, m, x) <==> Covered(old_, m, x + endCh))
  {
    spans := [];
    var i := 0;
    while i < |old_|
      invariant 0 <= i <= |old_| && spans == Parts(old_[..i], KeepAfter(endCh, isInsert))
    {
      var o := old_[i];
      assert old_[..i + 1][..i] == old_[..i];
      var endsAfter := o.to.None? || (if o.marker.inclusiveRight then o.to.value >= endCh else o.to.value > endCh);
      if endsAfter || (o.from == Some(endCh) && o.marker.bookmark && (!isInsert || o.marker.insertLeft)) {
        var startsBefore := o.from.None? || (if o.marker.inclusiveLeft then o.from.value <= endCh else o.from.value < endCh);
        spans := spans + [Span(o.marker, if startsBefore then None else Some(o.from.value - endCh),
                               if o.to.None? then None else Some(o.to.value - endCh))];
      }
      i := i + 1;
    }
    assert old_[..i] == old_;
    forall m, x | x >= 0 ensures Covered(spans, m, x) <==> Covered(old_, m, x + endCh) {
      AfterCovered(old_, endCh, isInsert, m, x);
    }
  }

  // ----- joining the parts

  /** getMarkedSpanFor: the first span of a marker. */
  function Find(spans: seq<Span>, m: Marker): Option<Span> {
    if spans == [] then None else if spans[0].marker == m then Some(spans[0]) else Find(spans[1..], m)
  }

  lemma {:induction false} FindOf(spans: seq<Span>, m: Marker)
    ensures Find(spans, m) == if Of(spans, m) == [] then None else Some(Of(spans, m)[0])
  {
    if spans != [] {
      FindOf(spans[1..], m);
      assert spans == [spans[0]] + spans[1..];
      OfAppend([spans[0]], spans[1..], m);
      OfOne(spans[0], m);
    }
  }

  method SpanFor(spans: seq<Span>, m: Marker) returns (r: Option<Span>)
    ensures r == Find(spans, m)
  {
    var i := 0;
    while i < |spans|
      invariant 0 <= i <= |spans| && Find(spans, m) == Find(spans[i..], m)
    {
      if spans[i].marker == m { return Some(spans[i]); }
      assert spans[i..][1..] == spans[i + 1..];
      i := i + 1;
    }
    return None;
  }

  /** A span before the edit meets what follows after it. */
  function Ended(p: Span, after: seq<Span>, single: bool, offset: int, ch: int): Span {
    if p.to.Some? then p
    else match Find(after, p.marker)
      case Some(f) => if single then p.(to := if f.to.None? then None else Some(f.to.value + offset)) else p
      case None => p.(to := Some(ch))
  }

  function EndedAll(before: seq<Span>, after: seq<Span>, single: bool, offset: int, ch: int): seq<Span> {
    if before == [] then []
    else EndedAll(before[..|before| - 1], after, single, offset, ch) + [Ended(Last(before), after, single, offset, ch)]
  }

  /** A span after the edit moves to its new column; one that no span before the edit leads to starts there. */
  function MovedSpan(h: Span, before: seq<Span>, offset: int): Span {
    var to := if h.to.None? then None else Some(h.to.value + offset);
    var from := if h.from.None? then (if Find(before, h.marker).Some? then None else Some(offset)) else Some(h.from.value + offset);
    Span(h.marker, from, to)
  }

  /** The spans before the edit and those after it. */
  datatype Sides = Sides(before: seq<Span>, after: seq<Span>)

  function SidesOf(s: Sides, m: Marker): Sides {
    Sides(Of(s.before, m), Of(s.after, m))
  }

  /** One more span after the edit has moved; on a single line it joins those before the edit. */
  function MoveOne(s: Sides, x: Span, single: bool, offset: int): Sides {
    var h := MovedSpan(x, s.before, offset);
    Sides(if single && h.from.Some? then s.before + [h] else s.before, s.after + [h])
  }

  function MovedAll(before: seq<Span>, after: seq<Span>, single: bool, offset: int): Sides {
    if after == [] then Sides(before, [])
    else MoveOne(MovedAll(before, after[..|after| - 1], single, offset), Last(after), single, offset)
  }

  lemma MoveOneOf(s: Sides, x: Span, single: bool, offset: int, m: Marker)
    ensures SidesOf(MoveOne(s, x, single, offset), m) == if x.marker == m then MoveOne(SidesOf(s, m), x, single, offset) else SidesOf(s, m)
  {
    var h := MovedSpan(x, s.before, offset);
    OfSnoc(s.before, h, m);
    OfSnoc(s.after, h, m);
    FindOwn(s.before, m);
  }

  lemma EndedAllSnoc(r: seq<Span>, p: Span, after: seq<Span>, single: bool, offset: int, ch: int)
    ensures EndedAll(r + [p], after, single, offset, ch) == EndedAll(r, after, single, offset, ch) + [Ended(p, after, single, offset, ch)]
  {
    assert (r + [p])[..|r|] == r;
  }

  lemma EndedOwn(p: Span, after: seq<Span>, single: bool, offset: int, ch: int)
    ensures Ended(p, after, single, offset, ch) == Ended(p, Of(after, p.marker), single, offset, ch)
    ensures Ended(p, after, single, offset, ch).marker == p.marker
  {
    hide Find, Of;
    FindOwn(after, p.marker);
  }

  lemma EndedAllOfStep(r: seq<Span>, p: Span, after: seq<Span>, single: bool, offset: int, ch: int, m: Marker)
    requires Of(EndedAll(r, after, single, offset, ch), m) == EndedAll(Of(r, m), Of(after, m), single, offset, ch)
    ensures Of(EndedAll(r + [p], after, single, offset, ch), m) == EndedAll(Of(r + [p], m), Of(after, m), single, offset, ch)
  {
    hide Of, EndedAll, Ended;
    EndedAllSnoc(r, p, after, single, offset, ch);
    EndedOwn(p, after, single, offset, ch);
    OfSnoc(EndedAll(r, after, single, offset, ch), Ended(p, after, single, offset, ch), m);
    OfSnoc(r, p, m);
    if p.marker == m {
      EndedAllSnoc(Of(r, m), p, Of(after, m), single, offset, ch);
    }
  }

  lemma {:induction false} EndedAllOf(before: seq<Span>, after: seq<Span>, single: bool, offset: int, ch: int, m: Marker)
    ensures Of(EndedAll(before, after, single, offset, ch), m) == EndedAll(Of(before, m), Of(after, m), single, offset, ch)
  {
    if before != [] {
      var r, p := before[..|before| - 1], Last(before);
      EndedAllOf(r, after, single, offset, ch, m);
      EndedAllOfStep(r, p, after, single, offset, ch, m);
      assert before == r + [p];
    }
  }

  lemma {:induction false} MovedAllOf(before: seq<Span>, after: seq<Span>, single: bool, offset: int, m: Marker)
    ensures SidesOf(MovedAll(before, after, single, offset), m) == MovedAll(Of(before, m), Of(after, m), single, offset)
    decreases |after|
  {
    if after != [] {
      var r, x := after[..|after| - 1], Last(after);
      MovedAllOf(before, r, single, offset, m);
      MovedAllOfStep(before, r, x, single, offset, m);
      assert after == r + [x];
    }
  }

  lemma MovedAllOfStep(before: seq<Span>, r: seq<Span>, x: Span, single: bool, offset: int, m: Marker)
    requires SidesOf(MovedAll(before, r, single, offset), m) == MovedAll(Of(before, m), Of(r, m), single, offset)
    ensures SidesOf(MovedAll(before, r + [x], single, offset), m) == MovedAll(Of(before, m), Of(r + [x], m), single, offset)
  {
    hide SidesOf, MovedAll, MoveOne, Of;
    MovedAllSnoc(before, r, x, single, offset);
    MoveOneOf(MovedAll(before, r, single, offset), x, single, offset, m);
    OfSnoc(r, x, m);
    if x.marker == m {
      MovedAllSnoc(Of(before, m), Of(r, m), x, single, offset);
    }
  }

  lemma MovedAllSnoc(before: seq<Span>, after: seq<Span>, x: Span, single: bool, offset: int)
    ensures MovedAll(before, after + [x], single, offset) == MoveOne(MovedAll(before, after, single, offset), x, single, offset)
  {
    assert (after + [x])[..|after|] == after;
  }

  // ----- the spans of the lines that take the place of those the edit touches

  /** A span that has become empty goes, unless its marker wants to stay. */
  function Kept(): Span -> seq<Span> {
    (o: Span) => if o.from.Some? && o.from == o.to && o.marker.clearWhenEmpty then [] else [o]
  }

  /** A span that goes on behind its line covers the next one. */
  function Through(): Span -> seq<Span> {
    (o: Span) => if o.to.None? then [Span(o.marker, None, None)] else []
  }

  /** The column where the inserted text ends. */
  function Offset(c: Change): int
    requires |c.text| > 0
  {
    |Last(c.text)| + if |c.text| == 1 then c.from.ch else 0
  }

  /** The spans on both sides of the edit, moved and joined. */
  function JoinedSides(first: seq<Span>, last: seq<Span>, c: Change): Sides
    requires |c.text| > 0
  {
    var single, isInsert, offset := |c.text| == 1, Cmp(c.from, c.to) == 0, Offset(c);
    var before := Parts(first, KeepBefore(c.from.ch, isInsert));
    var after := Parts(last, KeepAfter(c.to.ch, isInsert));
    MovedAll(EndedAll(before, after, single, offset, c.from.ch), after, single, offset)
  }

  /** The spans of line `k` of `n` lines of inserted text. */
  function LineSpans(s: Sides, n: nat, k: nat): seq<Span>
    requires k < n
  {
    if k == 0 then Parts(s.before, Kept())
    else if k == n - 1 then Parts(s.after, Kept())
    else Parts(Parts(s.before, Kept()), Through())
  }

  lemma BeforeKeeps(at: int, isInsert: bool)
    ensures forall o, i :: 0 <= i < |KeepBefore(at, isInsert)(o)| ==> KeepBefore(at, isInsert)(o)[i].marker == o.marker
    ensures forall o, i :: 0 <= i < |KeepAfter(at, isInsert)(o)| ==> KeepAfter(at, isInsert)(o)[i].marker == o.marker
  {
  }

  lemma JoinedOf(first: seq<Span>, last: seq<Span>, c: Change, m: Marker)
    requires |c.text| > 0
    ensures SidesOf(JoinedSides(first, last, c), m) == JoinedSides(Of(first, m), Of(last, m), c)
  {
    var single, isInsert, offset := |c.text| == 1, Cmp(c.from, c.to) == 0, Offset(c);
    var before := Parts(first, KeepBefore(c.from.ch, isInsert));
    var after := Parts(last, KeepAfter(c.to.ch, isInsert));
    BeforeKeeps(c.from.ch, isInsert);
    BeforeKeeps(c.to.ch, isInsert);
    PartsOf(first, KeepBefore(c.from.ch, isInsert), m);
    PartsOf(last, KeepAfter(c.to.ch, isInsert), m);
    EndedAllOf(before, after, single, offset, c.from.ch, m);
    MovedAllOf(EndedAll(before, after, single, offset, c.from.ch), after, single, offset, m);
  }

  lemma LineSpansOf(s: Sides, n: nat, k: nat, m: Marker)
    requires k < n
    ensures Of(LineSpans(s, n, k), m) == LineSpans(SidesOf(s, m), n, k)
  {
    hide Parts, Of;
    PartsOf(s.before, Kept(), m);
    PartsOf(s.after, Kept(), m);
    PartsOf(Parts(s.before, Kept()), Through(), m);
  }

  /** Every marker is stretched on its own. */
  lemma StretchedOf(first: seq<Span>, last: seq<Span>, c: Change, k: nat, m: Marker)
    requires k < |c.text|
    ensures Of(LineSpans(JoinedSides(first, last, c), |c.text|, k), m) == LineSpans(JoinedSides(Of(first, m), Of(last, m), c), |c.text|, k)
  {
    JoinedOf(first, last, c, m);
    LineSpansOf(JoinedSides(first, last, c), |c.text|, k, m);
  }

  method ClearEmptySpans(spans: seq<Span>) returns (r: seq<Span>)
    ensures r == Parts(spans, Kept())
  {
    r := spans;
    var i := 0;
    ghost var n := 0;
    while i < |r|
      invariant 0 <= n <= |spans| && 0 <= i <= |r|
      invariant r[..i] == Parts(spans[..n], Kept()) && r[i..] == spans[n..]
      decreases |r| - i
    {
      var span := r[i];
      assert span == r[i..][0] == spans[n] && spans[..n + 1][..n] == spans[..n];
      assert r[i + 1..] == r[i..][1..] == spans[n + 1..];
      if span.from.Some? && span.from == span.to && span.marker.clearWhenEmpty {
        r := r[..i] + r[i + 1..];
      } else {
        assert r[..i + 1] == r[..i] + [span];
        i := i + 1;
      }
      n := n + 1;
    }
    assert spans[n..] == [] && spans[..n] == spans && r == r[..i] + r[i..];
  }

  /** stretchSpansOverChange: the spans of the lines of the inserted text, from those of the lines where the edit starts and ends. */
  method StretchSpans(first: seq<Span>, last: seq<Span>, c: Change, full: bool) returns (g: seq<seq<Span>>)
    requires |c.text| > 0
    ensures |g| == |c.text| && forall k :: 0 <= k < |c.text| ==> g[k] == if full then [] else LineSpans(JoinedSides(first, last, c), |c.text|, k)
  {
    hide JoinedSides, LineSpans;
    if full {
      g := [];
      while |g| < |c.text|
        invariant |g| <= |c.text| && forall k :: 0 <= k < |g| ==> g[k] == []
      {
        g := g + [[]];
      }
    } else {
      var before, after := JoinSpans(first, last, c);
      g := SpreadSpans(before, after, |c.text|);
    }
  }

  /** The first steps: what is left before and behind the edit, joined where a marker is on both sides. */
  method JoinSpans(first: seq<Span>, last: seq<Span>, c: Change) returns (before: seq<Span>, after: seq<Span>)
    requires |c.text| > 0
    ensures Sides(before, after) == JoinedSides(first, last, c)
  {
    hide Parts, EndedAll, MovedAll;
    var startCh, endCh, isInsert := c.from.ch, c.to.ch, Cmp(c.from, c.to) == 0;
    before := MarkedSpansBefore(first, startCh, isInsert);
    after := MarkedSpansAfter(last, endCh, isInsert);
    var single := |c.text| == 1;
    var offset := |Last(c.text)| + if single then startCh else 0;
    before := EndSpans(before, after, single, offset, startCh);
    before, after := MoveSpans(before, after, single, offset);
  }

  /** The last step: spans for every line of the inserted text. */
  method SpreadSpans(b: seq<Span>, a: seq<Span>, n: nat) returns (g: seq<seq<Span>>)
    requires n > 0
    ensures |g| == n && forall k :: 0 <= k < n ==> g[k] == LineSpans(Sides(b, a), n, k)
  {
    var before := ClearEmptySpans(b);
    var after := ClearEmptySpans(a);
    g := [before];
    if n > 1 {
      var through := ThroughSpans(before);
      while |g| < n - 1
        invariant 1 <= |g| <= n - 1 && g[0] == before && forall k :: 1 <= k < |g| ==> g[k] == through
      {
        g := g + [through];
      }
      g := g + [after];
    }
  }

  /** The first loop: spans before the edit that go on behind it. */
  method EndSpans(before: seq<Span>, after: seq<Span>, single: bool, offset: int, ch: int) returns (r: seq<Span>)
    ensures r == EndedAll(before, after, single, offset, ch)
  {
    r := [];
    while |r| < |before|
      invariant |r| <= |before| && r == EndedAll(before[..|r|], after, single, offset, ch)
    {
      var span := before[|r|];
      assert before[..|r| + 1][..|r|] == before[..|r|];
      if span.to.None? {
        var found := SpanFor(after, span.marker);
        if found.None? {
          span := span.(to := Some(ch));
        } else if single {
          span := span.(to := if found.value.to.None? then None else Some(found.value.to.value + offset));
        }
      }
      r := r + [span];
    }
    assert before[..|r|] == before;
  }

  /** The second loop: spans after the edit move. */
  method MoveSpans(before: seq<Span>, after: seq<Span>, single: bool, offset: int) returns (b: seq<Span>, a: seq<Span>)
    ensures Sides(b, a) == MovedAll(before, after, single, offset)
  {
    b, a := before, [];
    while |a| < |after|
      invariant |a| <= |after| && Sides(b, a) == MovedAll(before, after[..|a|], single, offset)
    {
      var span := after[|a|];
      assert after[..|a| + 1][..|a|] == after[..|a|];
      ghost var s := Sides(b, a);
      if span.to.Some? {
        span := span.(to := Some(span.to.value + offset));
      }
      if span.from.None? {
        var found := SpanFor(b, span.marker);
        if found.None? {
          span := span.(from := Some(offset));
          if single {
            b := b + [span];
          }
        }
      } else {
        span := span.(from := Some(span.from.value + offset));
        if single {
          b := b + [span];
        }
      }
      a := a + [span];
      assert Sides(b, a) == MoveOne(s, after[|s.after|], single, offset);
    }
    assert after[..|a|] == after;
  }

  method ThroughSpans(spans: seq<Span>) returns (r: seq<Span>)
    ensures r == Parts(spans, Through())
  {
    r := [];
    var i := 0;
    while i < |spans|
      invariant 0 <= i <= |spans| && r == Parts(spans[..i], Through())
    {
      assert spans[..i + 1][..i] == spans[..i];
      if spans[i].to.None? {
        r := r + [Span(spans[i].marker, None, None)];
      }
      i := i + 1;
    }
    assert spans[..i] == spans;
  }

  // ----- one marker

  lemma PartsOne(x: Span, f: Span -> seq<Span>)
    ensures Parts([x], f) == f(x) && Parts([], f) == []
  {
    assert [x][..0] == [];
  }

  lemma PartsFew(spans: seq<Span>, f: Span -> seq<Span>)
    requires |spans| <= 1
    ensures Parts(spans, f) == if spans == [] then [] else f(spans[0])
  {
    if spans != [] {
      assert spans == [spans[0]];
      PartsOne(spans[0], f);
    }
  }

  lemma MovedFew(before: seq<Span>, after: seq<Span>, single: bool, offset: int)
    requires |after| <= 1
    ensures MovedAll(before, after, single, offset) == if after == [] then Sides(before, []) else MoveOne(Sides(before, []), after[0], single, offset)
  {
    if after != [] {
      assert after[..0] == [];
    }
  }

  /** The joined sides for at most one span before the edit and at most one after it. */
  lemma JoinedFew(first: seq<Span>, last: seq<Span>, c: Change, before: seq<Span>, after: seq<Span>)
    requires |c.text| > 0 && |before| <= 1 && |after| <= 1
    requires before == Parts(first, KeepBefore(c.from.ch, Cmp(c.from, c.to) == 0))
    requires after == Parts(last, KeepAfter(c.to.ch, Cmp(c.from, c.to) == 0))
    ensures var ended := if before == [] then [] else [Ended(before[0], after, |c.text| == 1, Offset(c), c.from.ch)];
      JoinedSides(first, last, c) == if after == [] then Sides(ended, []) else MoveOne(Sides(ended, []), after[0], |c.text| == 1, Offset(c))
  {
    EndedFew(before, after, |c.text| == 1, Offset(c), c.from.ch);
    MovedFew(EndedAll(before, after, |c.text| == 1, Offset(c), c.from.ch), after, |c.text| == 1, Offset(c));
  }

  lemma EndedFew(before: seq<Span>, after: seq<Span>, single: bool, offset: int, ch: int)
    requires |before| <= 1
    ensures EndedAll(before, after, single, offset, ch) == if before == [] then [] else [Ended(before[0], after, single, offset, ch)]
  {
    if before != [] {
      assert before[..0] == [];
    }
  }

  /** A side after the emptied spans have gone. */
  function Cleared(spans: seq<Span>): seq<Span> {
    if |spans| == 1 && spans[0].from.Some? && spans[0].from == spans[0].to && spans[0].marker.clearWhenEmpty then [] else spans
  }

  function FewOnLine(s: Sides, n: nat, k: nat): seq<Span>
    requires k < n
  {
    if k == 0 then Cleared(s.before)
    else if k == n - 1 then Cleared(s.after)
    else if |Cleared(s.before)| == 1 && s.before[0].to.None? then [Span(s.before[0].marker, None, None)]
    else []
  }

  /** The spans of each inserted line, for at most one span on each side. */
  lemma LineSpansFew(s: Sides, n: nat, k: nat)
    requires k < n && |s.before| <= 1 && |s.after| <= 1
    ensures LineSpans(s, n, k) == FewOnLine(s, n, k)
  {
    hide Parts;
    ClearedIs(s.before);
    ClearedIs(s.after);
    PartsFew(Cleared(s.before), Through());
  }

  lemma ClearedIs(spans: seq<Span>)
    requires |spans| <= 1
    ensures Parts(spans, Kept()) == Cleared(spans)
  {
    hide Parts;
    PartsFew(spans, Kept());
    if spans != [] {
      assert spans == [spans[0]];
    }
  }

  /** The part of a range marker on line `n`. */
  function PieceAt(m: Marker, a: Pos, b: Pos, n: int): seq<Span> {
    if a.line <= n <= b.line then
      [Span(m, if n == a.line then Some(a.ch) else None, if n == b.line then Some(b.ch) else None)]
    else []
  }

  /** The marker covers the text from `a` to `b`: it has a span on every line between and on no other. */
  ghost predicate Marks(spans: seq<seq<Span>>, m: Marker, a: Pos, b: Pos) {
    0 <= a.line <= b.line < |spans| && forall n :: 0 <= n < |spans| ==> Of(spans[n], m) == PieceAt(m, a, b, n)
  }

  /** The marker is on no line. */
  ghost predicate Absent(spans: seq<seq<Span>>, m: Marker) {
    forall n :: 0 <= n < |spans| ==> Of(spans[n], m) == []
  }

  ghost predicate FormOk(c: Change) {
    |c.text| > 0 && Cmp(c.from, c.to) <= 0 && 0 <= c.from.ch && 0 <= c.to.ch && 0 <= c.from.line
  }

  /** A range that starts at `a` takes up text inserted at `p`, or starts before it. */
  predicate StartsBefore(m: Marker, a: Pos, p: Pos) {
    Cmp(a, p) < 0 || (a == p && m.inclusiveLeft)
  }

  /** A range that ends at `b` takes up text inserted at `p`, or ends after it. */
  predicate EndsAfter(m: Marker, b: Pos, p: Pos) {
    Cmp(p, b) < 0 || (b == p && m.inclusiveRight)
  }

  /** Where the edit leaves the start of a range. */
  function MapStart(m: Marker, a: Pos, c: Change): Pos
    requires |c.text| > 0
  {
    if StartsBefore(m, a, c.from) then a else Adjust(a, c)
  }

  /** Where the edit leaves the end of a range. */
  function MapEnd(m: Marker, b: Pos, c: Change): Pos
    requires |c.text| > 0
  {
    if EndsAfter(m, b, c.to) then Adjust(b, c) else MinPos(b, c.from)
  }

  /** Nothing is left of the range, and an emptied one does not stay. */
  predicate Gone(m: Marker, a: Pos, b: Pos, c: Change)
    requires |c.text| > 0
  {
    && Cmp(MapStart(m, a, c), MapEnd(m, b, c)) >= 0
    && (m.clearWhenEmpty || (!StartsBefore(m, a, c.from) && !EndsAfter(m, b, c.to)))
  }

  /** What is to be on line `n` of a marker that goes, or else covers the text from `a` to `b`. */
  function PieceLeft(gone: bool, m: Marker, a: Pos, b: Pos, n: int): seq<Span> {
    if gone then [] else PieceAt(m, a, b, n)
  }

  /** The end of a range that goes on behind the edit, on the last line of the inserted text. */
  function EndBehind(b: Pos, c: Change): Option<int>
    requires |c.text| > 0
  {
    if b.line == c.to.line then Some(b.ch - c.to.ch + Offset(c)) else None
  }

  /** The two sides for a range: it goes across the edit, is left before it, is left behind it, or vanishes in it. */
  function RangeSides(m: Marker, a: Pos, b: Pos, c: Change): Sides
    requires |c.text| > 0
  {
    var single := |c.text| == 1;
    if StartsBefore(m, a, c.from) && EndsAfter(m, b, c.to) then
      var from := if a.line == c.from.line then Some(a.ch) else None;
      Sides([Span(m, from, if single then EndBehind(b, c) else None)], [Span(m, None, EndBehind(b, c))])
    else if StartsBefore(m, a, c.from) then
      Sides(PieceAt(m, a, MinPos(b, c.from), c.from.line), [])
    else if EndsAfter(m, b, c.to) && a.line <= c.to.line then
      var moved := Span(m, Some(Offset(c) + if Cmp(a, c.to) <= 0 then 0 else a.ch - c.to.ch), EndBehind(b, c));
      Sides(if single then [moved] else [], [moved])
    else
      Sides([], [])
  }

  /** A marker that is not a bookmark, over a range; only one that wants to stay when it becomes empty may be empty. */
  predicate IsRange(m: Marker, a: Pos, b: Pos) {
    !m.bookmark && (Cmp(a, b) < 0 || (a == b && !m.clearWhenEmpty))
  }

  /** What is left before the edit, unless it is cut off or goes on behind it. */
  function PartBefore(m: Marker, a: Pos, b: Pos, c: Change): seq<Span> {
    if !StartsBefore(m, a, c.from) || b.line < c.from.line then []
    else [Span(m, if a.line == c.from.line then Some(a.ch) else None, if EndsAfter(m, b, c.from) then None else Some(b.ch))]
  }

  /** What is left behind the edit, counted from its end. */
  function PartAfter(m: Marker, a: Pos, b: Pos, c: Change): seq<Span> {
    if !EndsAfter(m, b, c.to) || a.line > c.to.line then []
    else [Span(m, if StartsBefore(m, a, c.to) then None else Some(a.ch - c.to.ch), if b.line == c.to.line then Some(b.ch - c.to.ch) else None)]
  }

  lemma PartBeforeIs(m: Marker, a: Pos, b: Pos, c: Change)
    requires FormOk(c) && IsRange(m, a, b)
    ensures Parts(PieceAt(m, a, b, c.from.line), KeepBefore(c.from.ch, Cmp(c.from, c.to) == 0)) == PartBefore(m, a, b, c)
  {
    PartsFew(PieceAt(m, a, b, c.from.line), KeepBefore(c.from.ch, Cmp(c.from, c.to) == 0));
  }

  lemma PartAfterIs(m: Marker, a: Pos, b: Pos, c: Change)
    requires FormOk(c) && IsRange(m, a, b)
    ensures Parts(PieceAt(m, a, b, c.to.line), KeepAfter(c.to.ch, Cmp(c.from, c.to) == 0)) == PartAfter(m, a, b, c)
  {
    PartsFew(PieceAt(m, a, b, c.to.line), KeepAfter(c.to.ch, Cmp(c.from, c.to) == 0));
  }

  lemma FindOne(x: Span)
    ensures Find([x], x.marker) == Some(x)
  {
  }

  /** Joining what is left on both sides. */
  lemma JoinedParts(m: Marker, a: Pos, b: Pos, c: Change, before: seq<Span>, after: seq<Span>)
    requires FormOk(c) && IsRange(m, a, b) && before == PartBefore(m, a, b, c) && after == PartAfter(m, a, b, c)
    ensures var ended := if before == [] then [] else [Ended(before[0], after, |c.text| == 1, Offset(c), c.from.ch)];
      RangeSides(m, a, b, c) == if after == [] then Sides(ended, []) else MoveOne(Sides(ended, []), after[0], |c.text| == 1, Offset(c))
  {
    if before != [] {
      FindOne(Ended(before[0], after, |c.text| == 1, Offset(c), c.from.ch));
    }
    if after != [] {
      FindOne(after[0]);
    }
  }

  lemma RangeSidesIs(m: Marker, a: Pos, b: Pos, c: Change)
    requires FormOk(c) && IsRange(m, a, b)
    ensures JoinedSides(PieceAt(m, a, b, c.from.line), PieceAt(m, a, b, c.to.line), c) == RangeSides(m, a, b, c)
  {
    hide JoinedSides, RangeSides, MoveOne, Ended;
    PartBeforeIs(m, a, b, c);
    PartAfterIs(m, a, b, c);
    var before, after := PartBefore(m, a, b, c), PartAfter(m, a, b, c);
    JoinedFew(PieceAt(m, a, b, c.from.line), PieceAt(m, a, b, c.to.line), c, before, after);
    JoinedParts(m, a, b, c, before, after);
  }

  /** On every line of the inserted text the sides leave what is left of the range there. */
  lemma RangeLines(m: Marker, a: Pos, b: Pos, c: Change, k: nat)
    requires FormOk(c) && IsRange(m, a, b) && k < |c.text|
    ensures FewOnLine(RangeSides(m, a, b, c), |c.text|, k)
         == PieceLeft(Gone(m, a, b, c), m, MapStart(m, a, c), MapEnd(m, b, c), c.from.line + k)
  {
  }

  /** On the lines before and behind the edit as well. */
  lemma RangeElsewhere(m: Marker, a: Pos, b: Pos, c: Change, n: int)
    requires FormOk(c) && IsRange(m, a, b)
    ensures n < c.from.line ==> PieceAt(m, a, b, n) == PieceLeft(Gone(m, a, b, c), m, MapStart(m, a, c), MapEnd(m, b, c), n)
    ensures n > c.to.line ==>
      PieceAt(m, a, b, n) == PieceLeft(Gone(m, a, b, c), m, MapStart(m, a, c), MapEnd(m, b, c), n - (c.to.line - c.from.line) + |c.text| - 1)
  {
  }

  /** The spans of all lines after the edit; a replacement of the whole text leaves none. */
  ghost function Edited(spans: seq<seq<Span>>, c: Change, full: bool): seq<seq<Span>>
    requires |c.text| > 0 && 0 <= c.from.line <= c.to.line < |spans|
  {
    if full then seq(|c.text|, k => [])
    else
      spans[..c.from.line]
      + seq(|c.text|, k requires 0 <= k < |c.text| => LineSpans(JoinedSides(spans[c.from.line], spans[c.to.line], c), |c.text|, k))
      + spans[c.to.line + 1..]
  }

  /** A line of the edited document, seen by one marker. */
  lemma EditedOf(spans: seq<seq<Span>>, m: Marker, a: Pos, b: Pos, c: Change, n: nat) returns (k: int)
    requires FormOk(c) && c.to.line < |spans| && Marks(spans, m, a, b) && n < |Edited(spans, c, false)|
    ensures k == if n < c.from.line then n else if n < c.from.line + |c.text| then n - c.from.line else n - c.from.line - |c.text| + c.to.line + 1
    ensures Of(Edited(spans, c, false)[n], m)
         == if c.from.line <= n < c.from.line + |c.text|
            then LineSpans(JoinedSides(PieceAt(m, a, b, c.from.line), PieceAt(m, a, b, c.to.line), c), |c.text|, n - c.from.line)
            else PieceAt(m, a, b, k)
  {
    if n < c.from.line {
      k := n;
      assert Edited(spans, c, false)[n] == spans[n];
    } else if n < c.from.line + |c.text| {
      k := n - c.from.line;
      StretchedOf(spans[c.from.line], spans[c.to.line], c, k, m);
    } else {
      k := n - c.from.line - |c.text| + c.to.line + 1;
      assert Edited(spans, c, false)[n] == spans[k];
    }
  }

  lemma RangeLine(spans: seq<seq<Span>>, m: Marker, a: Pos, b: Pos, c: Change, n: nat)
    requires FormOk(c) && c.to.line < |spans| && Marks(spans, m, a, b) && n < |Edited(spans, c, false)|
    requires IsRange(m, a, b)
    ensures Of(Edited(spans, c, false)[n], m) == PieceLeft(Gone(m, a, b, c), m, MapStart(m, a, c), MapEnd(m, b, c), n)
  {
    hide Edited, JoinedSides, RangeSides, LineSpans, FewOnLine, PieceLeft, MapStart, MapEnd, Gone, PieceAt;
    var k := EditedOf(spans, m, a, b, c, n);
    if c.from.line <= n < c.from.line + |c.text| {
      RangeSidesIs(m, a, b, c);
      RangeSidesFew(m, a, b, c);
      LineSpansFew(RangeSides(m, a, b, c), |c.text|, k);
      RangeLines(m, a, b, c, k);
    } else {
      RangeElsewhere(m, a, b, c, k);
    }
  }

  lemma RangeSidesFew(m: Marker, a: Pos, b: Pos, c: Change)
    requires |c.text| > 0
    ensures |RangeSides(m, a, b, c).before| <= 1 && |RangeSides(m, a, b, c).after| <= 1
  {
  }

  /** The moved ends of a range that stays are in order and within the document. */
  lemma EndsInOrder(m: Marker, a: Pos, b: Pos, c: Change)
    requires FormOk(c) && IsRange(m, a, b) && !Gone(m, a, b, c)
    ensures Cmp(MapStart(m, a, c), MapEnd(m, b, c)) <= 0
    ensures a.line >= 0 ==> MapStart(m, a, c).line >= 0
    ensures MapEnd(m, b, c).line <= if b.line <= c.to.line then c.from.line + |c.text| - 1 else b.line - (c.to.line - c.from.line) + |c.text| - 1
  {
  }

  /**
   What any edit does to a range: a replacement of the whole text drops it.  Otherwise its start stays if it lies
   before the edit, or at its start and takes up text there, and else goes where positions go; its end goes where
   positions go if it lies behind the edit, or at its end and takes up text there, and else is cut off at the start
   of the edit.  The marker covers every line between.  It goes when nothing is left, unless it has just become empty
   and wants to stay.
   */
  lemma RangeFollows(spans: seq<seq<Span>>, m: Marker, a: Pos, b: Pos, c: Change, full: bool)
    requires FormOk(c) && c.to.line < |spans| && Marks(spans, m, a, b)
    requires IsRange(m, a, b)
    ensures full || Gone(m, a, b, c) ==> Absent(Edited(spans, c, full), m)
    ensures !full && !Gone(m, a, b, c) ==> Marks(Edited(spans, c, full), m, MapStart(m, a, c), MapEnd(m, b, c))
  {
    if full { return; }
    forall n | 0 <= n < |Edited(spans, c, false)|
      ensures Of(Edited(spans, c, false)[n], m) == PieceLeft(Gone(m, a, b, c), m, MapStart(m, a, c), MapEnd(m, b, c), n)
    {
      RangeLine(spans, m, a, b, c, n);
    }
    if !Gone(m, a, b, c) {
      EndsInOrder(m, a, b, c);
    }
  }

  /** A range strictly before, behind or around the edit goes where its ends go. */
  lemma ClearRangeFollows(spans: seq<seq<Span>>, m: Marker, a: Pos, b: Pos, c: Change)
    requires FormOk(c) && c.to.line < |spans| && Marks(spans, m, a, b)
    requires IsRange(m, a, b)
    requires Cmp(b, c.from) < 0 || Cmp(c.to, a) < 0 || (Cmp(a, c.from) < 0 && Cmp(c.to, b) < 0)
    ensures Marks(Edited(spans, c, false), m, Adjust(a, c), Adjust(b, c))
  {
    RangeFollows(spans, m, a, b, c, false);
    ClearEnds(m, a, b, c);
  }

  lemma ClearEnds(m: Marker, a: Pos, b: Pos, c: Change)
    requires FormOk(c) && IsRange(m, a, b)
    requires Cmp(b, c.from) < 0 || Cmp(c.to, a) < 0 || (Cmp(a, c.from) < 0 && Cmp(c.to, b) < 0)
    ensures MapStart(m, a, c) == Adjust(a, c) && MapEnd(m, b, c) == Adjust(b, c) && !Gone(m, a, b, c)
  {
  }

  // ----- bookmarks

  /** A bookmark stays before the edit, or at its start unless text is inserted there to its left. */
  predicate StaysBefore(m: Marker, a: Pos, c: Change) {
    Cmp(a, c.from) < 0 || (a == c.from && (Cmp(c.from, c.to) < 0 || !m.insertLeft))
  }

  /** The two sides for a bookmark. */
  function BookmarkSides(m: Marker, a: Pos, c: Change): Sides
    requires |c.text| > 0
  {
    if StaysBefore(m, a, c) then Sides(PieceAt(m, a, a, c.from.line), [])
    else if Cmp(a, c.to) < 0 || a.line > c.to.line then Sides([], [])
    else
      var moved := Span(m, Some(a.ch - c.to.ch + Offset(c)), Some(a.ch - c.to.ch + Offset(c)));
      Sides(if |c.text| == 1 then [moved] else [], [moved])
  }

  ghost predicate IsBookmark(m: Marker) {
    m.bookmark && !m.inclusiveLeft && !m.inclusiveRight && !m.clearWhenEmpty
  }

  lemma BookmarkSidesIs(m: Marker, a: Pos, c: Change)
    requires FormOk(c) && IsBookmark(m)
    ensures JoinedSides(PieceAt(m, a, a, c.from.line), PieceAt(m, a, a, c.to.line), c) == BookmarkSides(m, a, c)
    ensures |BookmarkSides(m, a, c).before| <= 1 && |BookmarkSides(m, a, c).after| <= 1
  {
    hide Parts, JoinedSides;
    var first, last, isInsert := PieceAt(m, a, a, c.from.line), PieceAt(m, a, a, c.to.line), Cmp(c.from, c.to) == 0;
    PartsFew(first, KeepBefore(c.from.ch, isInsert));
    PartsFew(last, KeepAfter(c.to.ch, isInsert));
    if StaysBefore(m, a, c) {
      JoinedFew(first, last, c, first, []);
    } else if Cmp(a, c.to) < 0 || a.line > c.to.line {
      JoinedFew(first, last, c, [], []);
    } else {
      JoinedFew(first, last, c, [], [Span(m, Some(a.ch - c.to.ch), Some(a.ch - c.to.ch))]);
    }
  }

  lemma BookmarkLines(m: Marker, a: Pos, c: Change, n: int)
    requires FormOk(c) && IsBookmark(m)
    ensures var gone, p := !StaysBefore(m, a, c) && Cmp(a, c.to) < 0, if StaysBefore(m, a, c) then a else Adjust(a, c);
      && (n < c.from.line ==> PieceAt(m, a, a, n) == PieceLeft(gone, m, p, p, n))
      && (0 <= n < |c.text| ==> FewOnLine(BookmarkSides(m, a, c), |c.text|, n) == PieceLeft(gone, m, p, p, c.from.line + n))
      && (n > c.to.line ==> PieceAt(m, a, a, n) == PieceLeft(gone, m, p, p, n - (c.to.line - c.from.line) + |c.text| - 1))
  {
  }

  /** A bookmark goes exactly when it lies inside the text taken out; otherwise it stays or goes where positions go. */
  lemma BookmarkFollows(spans: seq<seq<Span>>, m: Marker, a: Pos, c: Change)
    requires FormOk(c) && c.to.line < |spans| && Marks(spans, m, a, a) && IsBookmark(m)
    ensures Cmp(c.from, a) < 0 && Cmp(a, c.to) < 0 ==> Absent(Edited(spans, c, false), m)
    ensures StaysBefore(m, a, c) ==> Marks(Edited(spans, c, false), m, a, a)
    ensures !StaysBefore(m, a, c) && Cmp(a, c.to) >= 0 ==> Marks(Edited(spans, c, false), m, Adjust(a, c), Adjust(a, c))
  {
    var gone, p := !StaysBefore(m, a, c) && Cmp(a, c.to) < 0, if StaysBefore(m, a, c) then a else Adjust(a, c);
    forall n | 0 <= n < |Edited(spans, c, false)| ensures Of(Edited(spans, c, false)[n], m) == PieceLeft(gone, m, p, p, n) {
      BookmarkLine(spans, m, a, c, n);
    }
  }

  lemma BookmarkLine(spans: seq<seq<Span>>, m: Marker, a: Pos, c: Change, n: nat)
    requires FormOk(c) && c.to.line < |spans| && Marks(spans, m, a, a) && IsBookmark(m) && n < |Edited(spans, c, false)|
    ensures var gone, p := !StaysBefore(m, a, c) && Cmp(a, c.to) < 0, if StaysBefore(m, a, c) then a else Adjust(a, c);
      Of(Edited(spans, c, false)[n], m) == PieceLeft(gone, m, p, p, n)
  {
    hide Edited, JoinedSides, LineSpans, FewOnLine, PieceLeft, PieceAt;
    var k := EditedOf(spans, m, a, a, c, n);
    BookmarkSidesIs(m, a, c);
    BookmarkLines(m, a, c, k);
    if c.from.line <= n < c.from.line + |c.text| {
      LineSpansFew(BookmarkSides(m, a, c), |c.text|, k);
    }
  }

  // ----- undoing an edit

  /** attachLocalSpans: the spans of the lines an edit touches, kept with the edit that takes it back. */
  function Attached(spans: seq<seq<Span>>, c: Change): seq<seq<Span>>
    requires 0 <= c.from.line <= c.to.line < |spans|
  {
    spans[c.from.line..c.to.line + 1]
  }

  /** Without the markers that were cleared since. */
  function Uncleared(cleared: set<Marker>): Span -> seq<Span> {
    (o: Span) => if o.marker in cleared then [] else [o]
  }

  /** The old spans, and those of the new ones whose marker has no span yet. */
  function Merged(old_: seq<Span>, new_: seq<Span>): seq<Span>
    decreases |new_|
  {
    if new_ == [] then old_
    else
      var r, x := Merged(old_, new_[..|new_| - 1]), Last(new_);
      if Find(r, x.marker).Some? then r else r + [x]
  }

  /** A line without old spans takes the new ones as they are. */
  function MergedLine(old_: seq<Span>, new_: seq<Span>): seq<Span> {
    if old_ == [] then new_ else Merged(old_, new_)
  }

  /** getOldSpans */
  method OldSpans(attached: seq<seq<Span>>, cleared: set<Marker>) returns (r: seq<seq<Span>>)
    ensures |r| == |attached| && forall k :: 0 <= k < |r| ==> r[k] == Parts(attached[k], Uncleared(cleared))
    ensures forall k, m :: 0 <= k < |r| ==> Of(r[k], m) == if m in cleared then [] else Of(attached[k], m)
  {
    hide Of, Parts;
    r := [];
    while |r| < |attached|
      invariant |r| <= |attached| && forall k :: 0 <= k < |r| ==> r[k] == Parts(attached[k], Uncleared(cleared))
    {
      var kept := RemoveCleared(attached[|r|], cleared);
      r := r + [kept];
    }
    forall k, m | 0 <= k < |r| ensures Of(r[k], m) == if m in cleared then [] else Of(attached[k], m) {
      OldSpansOf(attached[k], cleared, m);
    }
  }

  /** removeClearedSpans */
  method RemoveCleared(spans: seq<Span>, cleared: set<Marker>) returns (kept: seq<Span>)
    ensures kept == Parts(spans, Uncleared(cleared))
  {
    kept := [];
    var i := 0;
    while i < |spans|
      invariant 0 <= i <= |spans| && kept == Parts(spans[..i], Uncleared(cleared))
    {
      assert spans[..i + 1][..i] == spans[..i];
      if spans[i].marker !in cleared {
        kept := kept + [spans[i]];
      }
      i := i + 1;
    }
    assert spans[..i] == spans;
  }

  /** mergeOldSpans: the old spans of every line, and the stretched ones of other markers. */
  method MergeOldSpans(old_: seq<seq<Span>>, stretched: seq<seq<Span>>) returns (r: seq<seq<Span>>)
    requires |old_| == |stretched|
    ensures |r| == |old_| && forall k :: 0 <= k < |r| ==> r[k] == MergedLine(old_[k], stretched[k])
  {
    r := [];
    while |r| < |old_|
      invariant |r| <= |old_| && forall k :: 0 <= k < |r| ==> r[k] == MergedLine(old_[k], stretched[k])
    {
      var line := old_[|r|];
      if line == [] {
        line := stretched[|r|];
      } else {
        line := MergeLine(line, stretched[|r|]);
      }
      r := r + [line];
    }
  }

  method MergeLine(old_: seq<Span>, new_: seq<Span>) returns (r: seq<Span>)
    ensures r == Merged(old_, new_)
  {
    r := old_;
    var j := 0;
    while j < |new_|
      invariant 0 <= j <= |new_| && r == Merged(old_, new_[..j])
    {
      assert new_[..j + 1][..j] == new_[..j];
      var found := SpanFor(r, new_[j].marker);
      if found.None? {
        r := r + [new_[j]];
      }
      j := j + 1;
    }
    assert new_[..j] == new_;
  }

  lemma {:induction false} MergedOf(old_: seq<Span>, new_: seq<Span>, m: Marker)
    ensures Of(Merged(old_, new_), m) == if Of(old_, m) != [] || Of(new_, m) == [] then Of(old_, m) else [Of(new_, m)[0]]
    decreases |new_|
  {
    if new_ != [] {
      var n, x := new_[..|new_| - 1], Last(new_);
      MergedOf(old_, n, m);
      MergedOfStep(Merged(old_, n), old_, n, x, m);
      assert new_ == n + [x];
    }
  }

  lemma MergedOfStep(r: seq<Span>, old_: seq<Span>, n: seq<Span>, x: Span, m: Marker)
    requires Of(r, m) == if Of(old_, m) != [] || Of(n, m) == [] then Of(old_, m) else [Of(n, m)[0]]
    ensures Of(if Find(r, x.marker).Some? then r else r + [x], m)
         == if Of(old_, m) != [] || Of(n + [x], m) == [] then Of(old_, m) else [Of(n + [x], m)[0]]
  {
    hide Of, Find;
    FindOf(r, x.marker);
    OfSnoc(r, x, m);
    OfSnoc(n, x, m);
  }

  /** On a line that comes back a marker has its old spans if there were any, and else the stretched one. */
  lemma MergedLineOf(spans: seq<Span>, cleared: set<Marker>, new_: seq<Span>, m: Marker)
    requires |Of(new_, m)| <= 1 && m !in cleared
    ensures Of(MergedLine(Parts(spans, Uncleared(cleared)), new_), m) == if Of(spans, m) != [] then Of(spans, m) else Of(new_, m)
  {
    UnclearedOf(spans, cleared, m);
    MergedOf(Parts(spans, Uncleared(cleared)), new_, m);
    if Of(new_, m) != [] {
      assert Of(new_, m) == [Of(new_, m)[0]];
    }
  }

  lemma UnclearedOf(spans: seq<Span>, cleared: set<Marker>, m: Marker)
    requires m !in cleared
    ensures Of(Parts(spans, Uncleared(cleared)), m) == Of(spans, m)
  {
    PartsOf(spans, Uncleared(cleared), m);
    OfMine(spans, m);
    PartsSame(Of(spans, m), cleared, m);
  }

  lemma {:induction false} PartsCleared(spans: seq<Span>, cleared: set<Marker>, m: Marker)
    requires m in cleared && forall i :: 0 <= i < |spans| ==> spans[i].marker == m
    ensures Parts(spans, Uncleared(cleared)) == []
  {
    if spans != [] {
      PartsCleared(spans[..|spans| - 1], cleared, m);
    }
  }

  /** Of the spans of a line, those of cleared markers go and the others stay. */
  lemma OldSpansOf(spans: seq<Span>, cleared: set<Marker>, m: Marker)
    ensures Of(Parts(spans, Uncleared(cleared)), m) == if m in cleared then [] else Of(spans, m)
  {
    if m in cleared {
      PartsOf(spans, Uncleared(cleared), m);
      OfMine(spans, m);
      PartsCleared(Of(spans, m), cleared, m);
    } else {
      UnclearedOf(spans, cleared, m);
    }
  }

  lemma {:induction false} PartsSame(spans: seq<Span>, cleared: set<Marker>, m: Marker)
    requires m !in cleared && forall i :: 0 <= i < |spans| ==> spans[i].marker == m
    ensures Parts(spans, Uncleared(cleared)) == spans
  {
    if spans != [] {
      PartsSame(spans[..|spans| - 1], cleared, m);
    }
  }

  /** The edit `c'` takes the edit `c` back, as far as positions go. */
  ghost predicate TakesBack(c: Change, c': Change) {
    |c.text| > 0 && |c'.text| > 0 && |c'.text| == c.to.line - c.from.line + 1 && c'.from == c.from && c'.to == ChangeEnd(c) && ChangeEnd(c') == c.to
  }

  lemma InverseTakesBack(d: seq<string>, c: Change)
    requires ValidChange(d, c)
    ensures TakesBack(c, Inverse(d, c))
  {
    InverseUndoes(d, c);
  }

  /** The spans of all lines after an edit has been taken back. */
  ghost function TakenBack(spans: seq<seq<Span>>, c: Change, attached: seq<seq<Span>>, cleared: set<Marker>): seq<seq<Span>>
    requires 0 <= c.from.line <= c.to.line < |spans| && |c.text| == |attached| > 0
  {
    spans[..c.from.line]
    + seq(|c.text|, k requires 0 <= k < |c.text| =>
        MergedLine(Parts(attached[k], Uncleared(cleared)), LineSpans(JoinedSides(spans[c.from.line], spans[c.to.line], c), |c.text|, k)))
    + spans[c.to.line + 1..]
  }

  /** What is on line `n` of the marker when it is stretched over the text that comes back. */
  ghost function StretchedBack(m: Marker, a: Pos, b: Pos, c: Change, c': Change, full: bool, n: int): seq<Span>
    requires |c.text| > 0 && |c'.text| > 0
  {
    if full || Gone(m, a, b, c) then []
    else
      var a', b' := MapStart(m, a, c), MapEnd(m, b, c);
      PieceLeft(Gone(m, a', b', c'), m, MapStart(m, a', c'), MapEnd(m, b', c'), n)
  }

  lemma BackForm(c: Change, c': Change)
    requires FormOk(c) && TakesBack(c, c')
    ensures FormOk(c') && |c'.text| > 0 && c'.to.line == c.from.line + |c.text| - 1
  {
  }

  /** A marker that is on no line is not stretched. */
  lemma AbsentSides(c: Change, k: nat)
    requires k < |c.text|
    ensures LineSpans(JoinedSides([], [], c), |c.text|, k) == []
  {
    var isInsert := Cmp(c.from, c.to) == 0;
    PartsFew([], KeepBefore(c.from.ch, isInsert));
    PartsFew([], KeepAfter(c.to.ch, isInsert));
    JoinedFew([], [], c, [], []);
    LineSpansFew(Sides([], []), |c.text|, k);
  }

  /** After an edit of a document of `n` lines the range is where the edit has moved it. */
  ghost predicate Moved(e: seq<seq<Span>>, n: nat, m: Marker, a: Pos, b: Pos, c: Change, full: bool)
    requires |c.text| > 0
  {
    && |e| == n - (c.to.line - c.from.line) + |c.text| - 1
    && if full || Gone(m, a, b, c) then Absent(e, m) else Marks(e, m, MapStart(m, a, c), MapEnd(m, b, c))
  }

  lemma EditedMoved(spans: seq<seq<Span>>, m: Marker, a: Pos, b: Pos, c: Change, full: bool)
    requires FormOk(c) && c.to.line < |spans| && Marks(spans, m, a, b) && IsRange(m, a, b)
    requires full ==> c.from.line == 0 && c.to.line == |spans| - 1
    ensures Moved(Edited(spans, c, full), |spans|, m, a, b, c, full)
  {
    RangeFollows(spans, m, a, b, c, full);
    EditedLength(spans, c, full);
  }

  lemma StretchedBackIs(e: seq<seq<Span>>, n: nat, m: Marker, a: Pos, b: Pos, c: Change, c': Change, full: bool, k: nat)
    requires FormOk(c) && c.to.line < n && IsRange(m, a, b) && Moved(e, n, m, a, b, c, full)
    requires TakesBack(c, c') && k < |c'.text|
    ensures c'.to.line < |e|
      && Of(LineSpans(JoinedSides(e[c'.from.line], e[c'.to.line], c'), |c'.text|, k), m) == StretchedBack(m, a, b, c, c', full, c.from.line + k)
  {
    hide JoinedSides, LineSpans, RangeSides, FewOnLine, PieceLeft, Marks, Gone, MapStart, MapEnd;
    BackForm(c, c');
    StretchedOf(e[c'.from.line], e[c'.to.line], c', k, m);
    if full || Gone(m, a, b, c) {
      AbsentSides(c', k);
    } else {
      var a', b' := MapStart(m, a, c), MapEnd(m, b, c);
      MarksLine(e, m, a', b', c'.from.line);
      MarksLine(e, m, a', b', c'.to.line);
      StillRange(m, a, b, c);
      RangeSidesIs(m, a', b', c');
      RangeSidesFew(m, a', b', c');
      LineSpansFew(RangeSides(m, a', b', c'), |c'.text|, k);
      RangeLines(m, a', b', c', k);
    }
  }

  lemma EditedLength(spans: seq<seq<Span>>, c: Change, full: bool)
    requires |c.text| > 0 && 0 <= c.from.line <= c.to.line < |spans| && (full ==> c.from.line == 0 && c.to.line == |spans| - 1)
    ensures |Edited(spans, c, full)| == |spans| - (c.to.line - c.from.line) + |c.text| - 1
    ensures forall n :: 0 <= n < c.from.line ==> Edited(spans, c, full)[n] == spans[n]
    ensures forall n :: c.to.line < n < |spans| ==> Edited(spans, c, full)[n - (c.to.line - c.from.line) + |c.text| - 1] == spans[n]
  {
  }

  lemma MarksLine(spans: seq<seq<Span>>, m: Marker, a: Pos, b: Pos, n: int)
    requires Marks(spans, m, a, b) && 0 <= n < |spans|
    ensures Of(spans[n], m) == PieceAt(m, a, b, n)
  {
  }

  lemma StillRange(m: Marker, a: Pos, b: Pos, c: Change)
    requires FormOk(c) && IsRange(m, a, b) && !Gone(m, a, b, c)
    ensures IsRange(m, MapStart(m, a, c), MapEnd(m, b, c))
  {
    EndsInOrder(m, a, b, c);
  }

  /** On line `n` the marker comes back although it was not there. */
  predicate SpreadsAt(m: Marker, a: Pos, b: Pos, c: Change, n: int)
    requires |c.text| > 0
  {
    && c.text == [""] && !Gone(m, a, b, c)
    && ((m.inclusiveLeft && c.from.line <= n < a.line && Cmp(a, c.to) <= 0)
        || (m.inclusiveRight && b.line < n <= c.to.line && Cmp(c.from, b) <= 0))
  }

  lemma BackCovers(m: Marker, a: Pos, b: Pos, c: Change, c': Change, n: int)
    requires FormOk(c) && IsRange(m, a, b) && TakesBack(c, c') && c.from.line <= n <= c.to.line && PieceAt(m, a, b, n) == []
    ensures |c'.text| > 0 && (StretchedBack(m, a, b, c, c', false, n) != [] <==> SpreadsAt(m, a, b, c, n))
  {
  }

  /** A line after the edit has been taken back. */
  lemma TakenBackAt(spans: seq<seq<Span>>, e: seq<seq<Span>>, c: Change, c': Change, cleared: set<Marker>, n: nat)
    requires FormOk(c) && c.to.line < |spans| && TakesBack(c, c') && |e| == |spans| - (c.to.line - c.from.line) + |c.text| - 1 && n < |spans|
    ensures |c.text| > 0 && |c'.text| > 0 && 0 <= c.from.line <= c.to.line
    ensures FormOk(c') && 0 <= c'.from.line <= c'.to.line < |e| && |Attached(spans, c)| == |c'.text|
    ensures var u := TakenBack(e, c', Attached(spans, c), cleared);
      && |u| == |spans|
      && u[n] == if n < c.from.line then e[n]
         else if n <= c.to.line then
           MergedLine(Parts(spans[n], Uncleared(cleared)), LineSpans(JoinedSides(e[c'.from.line], e[c'.to.line], c'), |c'.text|, n - c.from.line))
         else e[n - (c.to.line - c.from.line) + |c.text| - 1]
  {
    hide JoinedSides, LineSpans, MergedLine, Parts;
    BackForm(c, c');
    if c.from.line <= n <= c.to.line {
      assert Attached(spans, c)[n - c.from.line] == spans[n];
    }
  }

  /** Lines away from the edit have the spans they had. */
  lemma MovedAside(spans: seq<seq<Span>>, e: seq<seq<Span>>, m: Marker, a: Pos, b: Pos, c: Change, full: bool, n: nat)
    requires FormOk(c) && c.to.line < |spans| && Marks(spans, m, a, b) && IsRange(m, a, b) && Moved(e, |spans|, m, a, b, c, full)
    requires (full ==> c.from.line == 0 && c.to.line == |spans| - 1) && n < |spans| && !(c.from.line <= n <= c.to.line)
    ensures Of(e[if n < c.from.line then n else n - (c.to.line - c.from.line) + |c.text| - 1], m) == PieceAt(m, a, b, n)
  {
    hide Edited, PieceAt, Gone, MapStart, MapEnd;
    EditedMoved(spans, m, a, b, c, full);
    EditedLength(spans, c, full);
    MarksLine(spans, m, a, b, n);
  }

  /** A line after the edit has been taken back, seen by one marker. */
  lemma BackLine(spans: seq<seq<Span>>, e: seq<seq<Span>>, m: Marker, a: Pos, b: Pos, c: Change, c': Change, full: bool, cleared: set<Marker>, n: nat)
    requires FormOk(c) && c.to.line < |spans| && Marks(spans, m, a, b) && IsRange(m, a, b) && m !in cleared && Moved(e, |spans|, m, a, b, c, full)
    requires TakesBack(c, c') && (full ==> c.from.line == 0 && c.to.line == |spans| - 1) && n < |spans|
    ensures FormOk(c') && c'.to.line < |e|
    ensures var u := TakenBack(e, c', Attached(spans, c), cleared);
      && |u| == |spans|
      && Of(u[n], m) == if c.from.line <= n <= c.to.line && PieceAt(m, a, b, n) == [] then StretchedBack(m, a, b, c, c', full, n) else PieceAt(m, a, b, n)
  {
    hide JoinedSides, LineSpans, TakenBack, Attached, StretchedBack, PieceAt, MergedLine, Parts, IsRange, Of, Marks;
    TakenBackAt(spans, e, c, c', cleared, n);
    MarksLine(spans, m, a, b, n);
    if c.from.line <= n <= c.to.line {
      var k := n - c.from.line;
      var line := LineSpans(JoinedSides(e[c'.from.line], e[c'.to.line], c'), |c'.text|, k);
      StretchedBackIs(e, |spans|, m, a, b, c, c', full, k);
      StretchedBackFew(m, a, b, c, c', full, n);
      MergedLineOf(spans[n], cleared, line, m);
    } else {
      MovedAside(spans, e, m, a, b, c, full, n);
    }
  }

  lemma StretchedBackFew(m: Marker, a: Pos, b: Pos, c: Change, c': Change, full: bool, n: int)
    requires |c.text| > 0 && |c'.text| > 0
    ensures |StretchedBack(m, a, b, c, c', full, n)| <= 1
  {
  }

  /** Taking the edit back gives the range spans on lines where it had none. */
  predicate Spreads(m: Marker, a: Pos, b: Pos, c: Change)
    requires |c.text| > 0
  {
    && c.text == [""] && !Gone(m, a, b, c)
    && ((m.inclusiveLeft && c.from.line < a.line && Cmp(a, c.to) <= 0)
        || (m.inclusiveRight && b.line < c.to.line && Cmp(c.from, b) <= 0))
  }

  lemma SpreadsSomewhere(m: Marker, a: Pos, b: Pos, c: Change) returns (n: int)
    requires FormOk(c) && IsRange(m, a, b) && Spreads(m, a, b, c)
    ensures c.from.line <= n <= c.to.line && PieceAt(m, a, b, n) == [] && SpreadsAt(m, a, b, c, n)
  {
    n := if m.inclusiveLeft && c.from.line < a.line && Cmp(a, c.to) <= 0 then c.from.line else c.to.line;
  }

  /**
   Taking an edit back brings every range back as it was, unless the edit only took text out, over the end of a line,
   and the range ended in that text or at its edge on a side on which it takes up text: then the text that comes back
   is taken up on the lines on which the range had no span.
   */
  lemma RangeRestored(spans: seq<seq<Span>>, e: seq<seq<Span>>, m: Marker, a: Pos, b: Pos, c: Change, c': Change, full: bool, cleared: set<Marker>)
    requires FormOk(c) && c.to.line < |spans| && Marks(spans, m, a, b) && IsRange(m, a, b) && m !in cleared && Moved(e, |spans|, m, a, b, c, full)
    requires TakesBack(c, c') && (full ==> c.from.line == 0 && c.to.line == |spans| - 1)
    ensures FormOk(c') && c'.to.line < |e|
    ensures var u := TakenBack(e, c', Attached(spans, c), cleared);
      |u| == |spans| && (Marks(u, m, a, b) <==> full || !Spreads(m, a, b, c))
  {
    hide TakenBack, IsRange, Gone, Moved;
    BackForm(c, c');
    BackLine(spans, e, m, a, b, c, c', full, cleared, 0);
    var u := TakenBack(e, c', Attached(spans, c), cleared);
    if full || !Spreads(m, a, b, c) {
      forall n | 0 <= n < |u| ensures Of(u[n], m) == PieceAt(m, a, b, n) {
        BackLine(spans, e, m, a, b, c, c', full, cleared, n);
        if !full && c.from.line <= n <= c.to.line && PieceAt(m, a, b, n) == [] {
          BackCovers(m, a, b, c, c', n);
        }
      }
    } else {
      var n := SpreadsSomewhere(m, a, b, c);
      BackLine(spans, e, m, a, b, c, c', full, cleared, n);
      BackCovers(m, a, b, c, c', n);
    }
  }

  /**
   A range over the first of two lines that takes up text at its end: after a deletion over the end of the line
   and its undo it has a span on the second line too.
   */
  lemma SpreadRange() returns (m: Marker, spans: seq<seq<Span>>)
    ensures spans == [[Span(m, Some(0), Some(2))], []] && Marks(spans, m, Pos(0, 0), Pos(0, 2))
    ensures var c, c' := Change(Pos(0, 1), Pos(1, 1), [""]), Change(Pos(0, 1), Pos(0, 1), ["b", "c"]);
      && ValidChange(["ab", "cd"], c) && c' == Inverse(["ab", "cd"], c) && |Edited(spans, c, false)| == 1
      && !Marks(TakenBack(Edited(spans, c, false), c', Attached(spans, c), {}), m, Pos(0, 0), Pos(0, 2))
  {
    hide Edited, TakenBack, Inverse;
    var c, c' := Change(Pos(0, 1), Pos(1, 1), [""]), Change(Pos(0, 1), Pos(0, 1), ["b", "c"]);
    m := Marker(0, false, true, false, false, true);
    spans := [[Span(m, Some(0), Some(2))], []];
    OfOne(spans[0][0], m);
    InverseIs();
    InverseTakesBack(["ab", "cd"], c);
    EditedLength(spans, c, false);
    EditedMoved(spans, m, Pos(0, 0), Pos(0, 2), c, false);
    RangeRestored(spans, Edited(spans, c, false), m, Pos(0, 0), Pos(0, 2), c, c', false, {});
  }

  lemma InverseIs()
    ensures var c := Change(Pos(0, 1), Pos(1, 1), [""]);
      ValidChange(["ab", "cd"], c) && Inverse(["ab", "cd"], c) == Change(Pos(0, 1), Pos(0, 1), ["b", "c"])
  {
    assert "ab"[1..] == "b" && "cd"[..1] == "c" && ["ab", "cd"][1..1] == [];
  }

  // The same for bookmarks.

  predicate BookmarkGone(m: Marker, a: Pos, c: Change) {
    !StaysBefore(m, a, c) && Cmp(a, c.to) < 0
  }

  function MapBookmark(m: Marker, a: Pos, c: Change): Pos
    requires |c.text| > 0
  {
    if StaysBefore(m, a, c) then a else Adjust(a, c)
  }

  /** What is on line `n` of a bookmark when it is stretched over the text that comes back. */
  ghost function BookmarkBack(m: Marker, a: Pos, c: Change, c': Change, full: bool, n: int): seq<Span>
    requires |c.text| > 0 && |c'.text| > 0
  {
    if full || BookmarkGone(m, a, c) then []
    else
      var a' := MapBookmark(m, a, c);
      PieceLeft(BookmarkGone(m, a', c'), m, MapBookmark(m, a', c'), MapBookmark(m, a', c'), n)
  }

  /** After an edit of a document of `n` lines the bookmark is where the edit has moved it. */
  ghost predicate BookmarkMoved(e: seq<seq<Span>>, n: nat, m: Marker, a: Pos, c: Change, full: bool)
    requires |c.text| > 0
  {
    && |e| == n - (c.to.line - c.from.line) + |c.text| - 1
    && if full || BookmarkGone(m, a, c) then Absent(e, m) else Marks(e, m, MapBookmark(m, a, c), MapBookmark(m, a, c))
  }

  lemma EditedBookmark(spans: seq<seq<Span>>, m: Marker, a: Pos, c: Change, full: bool)
    requires FormOk(c) && c.to.line < |spans| && Marks(spans, m, a, a) && IsBookmark(m)
    requires full ==> c.from.line == 0 && c.to.line == |spans| - 1
    ensures BookmarkMoved(Edited(spans, c, full), |spans|, m, a, c, full)
  {
    hide Marks;
    EditedLength(spans, c, full);
    if !full {
      BookmarkFollows(spans, m, a, c);
    }
  }

  lemma BookmarkBackIs(e: seq<seq<Span>>, n: nat, m: Marker, a: Pos, c: Change, c': Change, full: bool, k: nat)
    requires FormOk(c) && c.to.line < n && IsBookmark(m) && BookmarkMoved(e, n, m, a, c, full)
    requires TakesBack(c, c') && k < |c'.text|
    ensures c'.to.line < |e|
      && Of(LineSpans(JoinedSides(e[c'.from.line], e[c'.to.line], c'), |c'.text|, k), m) == BookmarkBack(m, a, c, c', full, c.from.line + k)
  {
    hide JoinedSides, LineSpans, BookmarkSides, FewOnLine, PieceLeft, Marks, StaysBefore, Adjust;
    BackForm(c, c');
    StretchedOf(e[c'.from.line], e[c'.to.line], c', k, m);
    if full || BookmarkGone(m, a, c) {
      AbsentSides(c', k);
    } else {
      var a' := MapBookmark(m, a, c);
      MarksLine(e, m, a', a', c'.from.line);
      MarksLine(e, m, a', a', c'.to.line);
      BookmarkSidesIs(m, a', c');
      LineSpansFew(BookmarkSides(m, a', c'), |c'.text|, k);
      BookmarkLines(m, a', c', k);
    }
  }

  /** On line `n` the bookmark comes back although it was not there. */
  predicate BookmarkSpreadsAt(m: Marker, a: Pos, c: Change, n: int) {
    c.text == [""] && n != a.line && ((a == c.from && m.insertLeft && n == c.to.line) || (a == c.to && !m.insertLeft && n == c.from.line))
  }

  lemma BookmarkCovers(m: Marker, a: Pos, c: Change, c': Change, n: int)
    requires FormOk(c) && IsBookmark(m) && TakesBack(c, c') && c.from.line <= n <= c.to.line && n != a.line
    ensures |c'.text| > 0 && (BookmarkBack(m, a, c, c', false, n) != [] <==> BookmarkSpreadsAt(m, a, c, n))
  {
  }

  lemma BookmarkAside(spans: seq<seq<Span>>, e: seq<seq<Span>>, m: Marker, a: Pos, c: Change, full: bool, n: nat)
    requires FormOk(c) && c.to.line < |spans| && Marks(spans, m, a, a) && IsBookmark(m) && BookmarkMoved(e, |spans|, m, a, c, full)
    requires (full ==> c.from.line == 0 && c.to.line == |spans| - 1) && n < |spans| && !(c.from.line <= n <= c.to.line)
    ensures Of(e[if n < c.from.line then n else n - (c.to.line - c.from.line) + |c.text| - 1], m) == PieceAt(m, a, a, n)
  {
    hide Edited, PieceAt, BookmarkGone, MapBookmark;
    EditedBookmark(spans, m, a, c, full);
    EditedLength(spans, c, full);
    MarksLine(spans, m, a, a, n);
  }

  lemma BookmarkBackLine(spans: seq<seq<Span>>, e: seq<seq<Span>>, m: Marker, a: Pos, c: Change, c': Change, full: bool, cleared: set<Marker>, n: nat)
    requires FormOk(c) && c.to.line < |spans| && Marks(spans, m, a, a) && IsBookmark(m) && m !in cleared && BookmarkMoved(e, |spans|, m, a, c, full)
    requires TakesBack(c, c') && (full ==> c.from.line == 0 && c.to.line == |spans| - 1) && n < |spans|
    ensures FormOk(c') && c'.to.line < |e|
    ensures var u := TakenBack(e, c', Attached(spans, c), cleared);
      && |u| == |spans|
      && Of(u[n], m) == if c.from.line <= n <= c.to.line && n != a.line then BookmarkBack(m, a, c, c', full, n) else PieceAt(m, a, a, n)
  {
    hide JoinedSides, LineSpans, TakenBack, Attached, BookmarkBack, MergedLine, Parts, Of, Marks;
    TakenBackAt(spans, e, c, c', cleared, n);
    MarksLine(spans, m, a, a, n);
    if c.from.line <= n <= c.to.line {
      var k := n - c.from.line;
      var line := LineSpans(JoinedSides(e[c'.from.line], e[c'.to.line], c'), |c'.text|, k);
      BookmarkBackIs(e, |spans|, m, a, c, c', full, k);
      BookmarkBackFew(m, a, c, c', full, n);
      MergedLineOf(spans[n], cleared, line, m);
    } else {
      BookmarkAside(spans, e, m, a, c, full, n);
    }
  }

  lemma BookmarkBackFew(m: Marker, a: Pos, c: Change, c': Change, full: bool, n: int)
    requires |c.text| > 0 && |c'.text| > 0
    ensures |BookmarkBack(m, a, c, c', full, n)| <= 1
  {
  }

  /** Taking the edit back gives the bookmark a second place. */
  predicate Doubles(m: Marker, a: Pos, c: Change) {
    c.text == [""] && c.from.line < c.to.line && a == if m.insertLeft then c.from else c.to
  }

  /**
   Taking an edit back brings every bookmark back as it was, unless the edit only took text out, over the end of a
   line, and the bookmark was at the edge at which the text comes back on its other side: then it is there twice.
   */
  lemma BookmarkRestored(spans: seq<seq<Span>>, e: seq<seq<Span>>, m: Marker, a: Pos, c: Change, c': Change, full: bool, cleared: set<Marker>)
    requires FormOk(c) && c.to.line < |spans| && Marks(spans, m, a, a) && IsBookmark(m) && m !in cleared && BookmarkMoved(e, |spans|, m, a, c, full)
    requires TakesBack(c, c') && (full ==> c.from.line == 0 && c.to.line == |spans| - 1)
    ensures FormOk(c') && c'.to.line < |e|
    ensures var u := TakenBack(e, c', Attached(spans, c), cleared);
      && |u| == |spans| && (Marks(u, m, a, a) <==> full || !Doubles(m, a, c))
  {
    hide TakenBack, BookmarkMoved;
    BackForm(c, c');
    BookmarkBackLine(spans, e, m, a, c, c', full, cleared, 0);
    var u := TakenBack(e, c', Attached(spans, c), cleared);
    if full || !Doubles(m, a, c) {
      forall n | 0 <= n < |u| ensures Of(u[n], m) == PieceAt(m, a, a, n) {
        BookmarkBackLine(spans, e, m, a, c, c', full, cleared, n);
        if !full && c.from.line <= n <= c.to.line && n != a.line {
          BookmarkCovers(m, a, c, c', n);
        }
      }
    } else {
      var n := if m.insertLeft then c.to.line else c.from.line;
      BookmarkBackLine(spans, e, m, a, c, c', full, cleared, n);
      BookmarkCovers(m, a, c, c', n);
    }
  }

  // ----- undoing several edits, from the last to the first

  /** An edit and the one recorded to take it back. */
  datatype Edit = Edit(change: Change, back: Change, full: bool)

  /** The edits can be made one after the other on a document of `n` lines. */
  ghost predicate Makeable(n: nat, es: seq<Edit>)
    decreases |es|
  {
    es == [] || (
      var c := es[0].change;
      && FormOk(c) && c.to.line < n && TakesBack(c, es[0].back) && (es[0].full ==> c.from.line == 0 && c.to.line == n - 1)
      && Makeable(n - (c.to.line - c.from.line) + |c.text| - 1, es[1..]))
  }

  /** The spans of all lines after these markers have been cleared. */
  ghost function WithoutCleared(spans: seq<seq<Span>>, cleared: set<Marker>): seq<seq<Span>> {
    seq(|spans|, k requires 0 <= k < |spans| => Parts(spans[k], Uncleared(cleared)))
  }

  lemma WithoutClearedOf(spans: seq<seq<Span>>, cleared: set<Marker>, m: Marker)
    ensures forall k :: 0 <= k < |spans| ==> Of(WithoutCleared(spans, cleared)[k], m) == if m in cleared then [] else Of(spans[k], m)
  {
    forall k | 0 <= k < |spans| ensures Of(WithoutCleared(spans, cleared)[k], m) == if m in cleared then [] else Of(spans[k], m) {
      OldSpansOf(spans[k], cleared, m);
    }
  }

  lemma OthersStay(spans: seq<seq<Span>>, cleared: set<Marker>, m: Marker)
    requires m !in cleared
    ensures Absent(spans, m) ==> Absent(WithoutCleared(spans, cleared), m)
    ensures forall a, b :: Marks(spans, m, a, b) ==> Marks(WithoutCleared(spans, cleared), m, a, b)
  {
    hide Of;
    WithoutClearedOf(spans, cleared, m);
  }

  /** The spans after the edits have been made, the markers cleared, and the edits taken back. */
  ghost function MadeAndBack(spans: seq<seq<Span>>, es: seq<Edit>, cleared: set<Marker>): (u: seq<seq<Span>>)
    requires Makeable(|spans|, es)
    ensures |u| == |spans|
    decreases |es|
  {
    if es == [] then WithoutCleared(spans, cleared)
    else
      var c := es[0].change;
      EditedLength(spans, c, es[0].full);
      BackForm(c, es[0].back);
      TakenBack(MadeAndBack(Edited(spans, c, es[0].full), es[1..], cleared), es[0].back, Attached(spans, c), cleared)
  }

  /** A marker that is nowhere does not come up. */
  lemma AbsentEdited(spans: seq<seq<Span>>, m: Marker, c: Change, full: bool)
    requires FormOk(c) && c.to.line < |spans| && Absent(spans, m) && (full ==> c.from.line == 0 && c.to.line == |spans| - 1)
    ensures Absent(Edited(spans, c, full), m)
  {
    hide JoinedSides, LineSpans, Of;
    EditedLength(spans, c, full);
    forall n | 0 <= n < |Edited(spans, c, full)| ensures Of(Edited(spans, c, full)[n], m) == [] {
      if full {
        OfNone(m);
      } else if c.from.line <= n < c.from.line + |c.text| {
        StretchedOf(spans[c.from.line], spans[c.to.line], c, n - c.from.line, m);
        AbsentSides(c, n - c.from.line);
      }
    }
  }

  lemma OfNone(m: Marker)
    ensures Of([], m) == []
  {
  }

  lemma AbsentBack(spans: seq<seq<Span>>, e: seq<seq<Span>>, m: Marker, c: Change, c': Change, cleared: set<Marker>)
    requires FormOk(c) && c.to.line < |spans| && TakesBack(c, c') && |e| == |spans| - (c.to.line - c.from.line) + |c.text| - 1
    requires Absent(spans, m) && Absent(e, m) && m !in cleared
    ensures FormOk(c') && c'.to.line < |e| && Absent(TakenBack(e, c', Attached(spans, c), cleared), m)
  {
    hide JoinedSides, LineSpans, Of, TakenBack, MergedLine, Parts;
    BackForm(c, c');
    TakenBackAt(spans, e, c, c', cleared, 0);
    var u := TakenBack(e, c', Attached(spans, c), cleared);
    forall n | 0 <= n < |u| ensures Of(u[n], m) == [] {
      TakenBackAt(spans, e, c, c', cleared, n);
      if c.from.line <= n <= c.to.line {
        var line := LineSpans(JoinedSides(e[c'.from.line], e[c'.to.line], c'), |c'.text|, n - c.from.line);
        StretchedOf(e[c'.from.line], e[c'.to.line], c', n - c.from.line, m);
        AbsentSides(c', n - c.from.line);
        MergedLineOf(spans[n], cleared, line, m);
      }
    }
  }

  lemma {:induction false} AbsentThroughout(spans: seq<seq<Span>>, m: Marker, es: seq<Edit>, cleared: set<Marker>)
    requires Makeable(|spans|, es) && Absent(spans, m) && m !in cleared
    ensures Absent(MadeAndBack(spans, es, cleared), m)
    decreases |es|
  {
    hide Absent, Edited, TakenBack, Attached, TakesBack, FormOk;
    if es != [] {
      var c, full := es[0].change, es[0].full;
      EditedForm(|spans|, es);
      EditedLength(spans, c, full);
      AbsentEdited(spans, m, c, full);
      AbsentThroughout(Edited(spans, c, full), m, es[1..], cleared);
      AbsentBack(spans, MadeAndBack(Edited(spans, c, full), es[1..], cleared), m, c, es[0].back, cleared);
    } else {
      OthersStay(spans, cleared, m);
    }
  }

  /** A cleared marker is not on the lines that come back, wherever it was when the edit was made. */
  lemma ClearedBack(spans: seq<seq<Span>>, e: seq<seq<Span>>, m: Marker, c: Change, c': Change, cleared: set<Marker>)
    requires FormOk(c) && c.to.line < |spans| && TakesBack(c, c') && |e| == |spans| - (c.to.line - c.from.line) + |c.text| - 1
    requires m in cleared && Absent(e, m)
    ensures FormOk(c') && c'.to.line < |e| && Absent(TakenBack(e, c', Attached(spans, c), cleared), m)
  {
    hide JoinedSides, LineSpans, Of, TakenBack, MergedLine, Parts;
    BackForm(c, c');
    TakenBackAt(spans, e, c, c', cleared, 0);
    var u := TakenBack(e, c', Attached(spans, c), cleared);
    forall n | 0 <= n < |u| ensures Of(u[n], m) == [] {
      TakenBackAt(spans, e, c, c', cleared, n);
      if c.from.line <= n <= c.to.line {
        var line := LineSpans(JoinedSides(e[c'.from.line], e[c'.to.line], c'), |c'.text|, n - c.from.line);
        StretchedOf(e[c'.from.line], e[c'.to.line], c', n - c.from.line, m);
        AbsentSides(c', n - c.from.line);
        OldSpansOf(spans[n], cleared, m);
        MergedNone(Parts(spans[n], Uncleared(cleared)), line, m);
      }
    }
  }

  lemma MergedNone(old_: seq<Span>, new_: seq<Span>, m: Marker)
    requires Of(old_, m) == [] && Of(new_, m) == []
    ensures Of(MergedLine(old_, new_), m) == []
  {
    MergedOf(old_, new_, m);
  }

  /** Markers that were cleared after any number of edits do not come back with any number of undos. */
  lemma {:induction false} ClearedStayAway(spans: seq<seq<Span>>, m: Marker, es: seq<Edit>, cleared: set<Marker>)
    requires Makeable(|spans|, es) && m in cleared
    ensures Absent(MadeAndBack(spans, es, cleared), m)
    decreases |es|
  {
    hide Absent, Edited, TakenBack, Attached, TakesBack, FormOk;
    if es != [] {
      var c, full := es[0].change, es[0].full;
      EditedForm(|spans|, es);
      EditedLength(spans, c, full);
      ClearedStayAway(Edited(spans, c, full), m, es[1..], cleared);
      ClearedBack(spans, MadeAndBack(Edited(spans, c, full), es[1..], cleared), m, c, es[0].back, cleared);
    } else {
      ClearedAbsent(spans, m, cleared);
    }
  }

  lemma ClearedAbsent(spans: seq<seq<Span>>, m: Marker, cleared: set<Marker>)
    requires m in cleared
    ensures Absent(WithoutCleared(spans, cleared), m)
  {
    hide Of;
    WithoutClearedOf(spans, cleared, m);
  }

  lemma EditedForm(n: nat, es: seq<Edit>)
    requires Makeable(n, es) && es != []
    ensures var c := es[0].change; |c.text| > 0 && 0 <= c.from.line <= c.to.line < n
  {
  }

  /** None of the edits is one whose undo spreads the range, wherever the earlier ones have moved it. */
  ghost predicate NeverSpreads(m: Marker, a: Pos, b: Pos, es: seq<Edit>)
    decreases |es|
  {
    es == [] || es[0].change.text == [] || es[0].full || (
      && !Spreads(m, a, b, es[0].change)
      && (Gone(m, a, b, es[0].change) || NeverSpreads(m, MapStart(m, a, es[0].change), MapEnd(m, b, es[0].change), es[1..])))
  }

  /** Any number of edits and as many undos: the range is back as it was, whatever other markers were cleared in between. */
  lemma {:induction false} RangeReturns(spans: seq<seq<Span>>, m: Marker, a: Pos, b: Pos, es: seq<Edit>, cleared: set<Marker>)
    requires Makeable(|spans|, es) && Marks(spans, m, a, b) && IsRange(m, a, b) && m !in cleared && NeverSpreads(m, a, b, es)
    ensures Marks(MadeAndBack(spans, es, cleared), m, a, b)
    decreases |es|
  {
    hide Marks, Absent, Edited, TakenBack, Attached, IsRange, Spreads, Gone, MapStart, MapEnd;
    if es != [] {
      var c, full := es[0].change, es[0].full;
      EditedMoved(spans, m, a, b, c, full);
      if full || Gone(m, a, b, c) {
        AbsentThroughout(Edited(spans, c, full), m, es[1..], cleared);
      } else {
        StillRange(m, a, b, c);
        RangeReturns(Edited(spans, c, full), m, MapStart(m, a, c), MapEnd(m, b, c), es[1..], cleared);
      }
      RangeRestored(spans, MadeAndBack(Edited(spans, c, full), es[1..], cleared), m, a, b, c, es[0].back, full, cleared);
    } else {
      OthersStay(spans, cleared, m);
    }
  }

  ghost predicate NeverDoubles(m: Marker, a: Pos, es: seq<Edit>)
    decreases |es|
  {
    es == [] || es[0].change.text == [] || es[0].full || (
      && !Doubles(m, a, es[0].change)
      && (BookmarkGone(m, a, es[0].change) || NeverDoubles(m, MapBookmark(m, a, es[0].change), es[1..])))
  }

  lemma {:induction false} BookmarkReturns(spans: seq<seq<Span>>, m: Marker, a: Pos, es: seq<Edit>, cleared: set<Marker>)
    requires Makeable(|spans|, es) && Marks(spans, m, a, a) && IsBookmark(m) && m !in cleared && NeverDoubles(m, a, es)
    ensures Marks(MadeAndBack(spans, es, cleared), m, a, a)
    decreases |es|
  {
    hide Marks, Absent, Edited, TakenBack, Attached, IsBookmark, Doubles, BookmarkGone, MapBookmark;
    if es != [] {
      var c, full := es[0].change, es[0].full;
      EditedBookmark(spans, m, a, c, full);
      if full || BookmarkGone(m, a, c) {
        AbsentThroughout(Edited(spans, c, full), m, es[1..], cleared);
      } else {
        BookmarkReturns(Edited(spans, c, full), m, MapBookmark(m, a, c), es[1..], cleared);
      }
      BookmarkRestored(spans, MadeAndBack(Edited(spans, c, full), es[1..], cleared), m, a, c, es[0].back, full, cleared);
    } else {
      OthersStay(spans, cleared, m);
    }
  }

  /** Edits of a document and their inverses. */
  ghost function WithInverses(d: seq<string>, cs: seq<Change>): seq<Edit>
    requires Fit(d, cs)
    decreases |cs|
  {
    if cs == [] then []
    else [Edit(cs[0], Inverse(d, cs[0]), false)] + WithInverses(Splice(d, cs[0]), cs[1..])
  }

  /** The edits fit the text, one after the other. */
  ghost predicate Fit(d: seq<string>, cs: seq<Change>)
    decreases |cs|
  {
    |d| > 0 && (cs == [] || (ValidChange(d, cs[0]) && Fit(Splice(d, cs[0]), cs[1..])))
  }

  lemma {:induction false} InversesMakeable(d: seq<string>, cs: seq<Change>)
    requires Fit(d, cs)
    ensures Makeable(|d|, WithInverses(d, cs))
    decreases |cs|
  {
    hide Splice, Inverse, TakesBack, FormOk, ValidChange;
    if cs != [] {
      var c, rest := cs[0], WithInverses(Splice(d, cs[0]), cs[1..]);
      InverseTakesBack(d, c);
      SpliceLength(d, c);
      InversesMakeable(Splice(d, c), cs[1..]);
      assert WithInverses(d, cs)[1..] == rest;
    }
  }

  lemma SpliceLength(d: seq<string>, c: Change)
    requires ValidChange(d, c)
    ensures FormOk(c) && c.to.line < |d| && |Splice(d, c)| == |d| - (c.to.line - c.from.line) + |c.text| - 1
  {
  }

  // ----- undoing insertions that the record has merged into one edit

  /** Two insertions, the second right behind the first, as one. */
  function Both(c: Change, c2: Change): Change
    requires |c.text| > 0 && |c2.text| > 0
  {
    Change(c.from, c.to, Cat(c.text, c2.text))
  }

  ghost predicate Typed(c: Change, c2: Change) {
    FormOk(c) && FormOk(c2) && c.from == c.to && c2.from == c2.to == ChangeEnd(c)
  }

  lemma BothForm(c: Change, c2: Change)
    requires Typed(c, c2)
    ensures var l := Both(c, c2); FormOk(l) && |l.text| == |c.text| + |c2.text| - 1 && ChangeEnd(l) == ChangeEnd(c2)
  {
  }

  lemma BothEnds(m: Marker, a: Pos, b: Pos, c: Change, c2: Change)
    requires Typed(c, c2) && IsRange(m, a, b) && !Gone(m, a, b, c)
    ensures var l, a', b' := Both(c, c2), MapStart(m, a, c), MapEnd(m, b, c);
      && |l.text| > 0 && (Gone(m, a, b, l) <==> Gone(m, a', b', c2))
      && (!Gone(m, a, b, l) ==> MapStart(m, a, l) == MapStart(m, a', c2) && MapEnd(m, b, l) == MapEnd(m, b', c2))
  {
    hide Cat;
    BothForm(c, c2);
  }

  lemma BothGone(m: Marker, a: Pos, b: Pos, c: Change, c2: Change)
    requires Typed(c, c2) && IsRange(m, a, b) && Gone(m, a, b, c)
    ensures |Both(c, c2).text| > 0 && Gone(m, a, b, Both(c, c2))
  {
    hide Cat;
    BothForm(c, c2);
  }

  /** Text typed right behind an insertion leaves a range where one insertion of both leaves it: one undo brings it back. */
  lemma TypedMoved(e: seq<seq<Span>>, n: nat, m: Marker, a: Pos, b: Pos, c: Change, c2: Change)
    requires Typed(c, c2) && c.to.line < n && IsRange(m, a, b) && Moved(e, n, m, a, b, c, false)
    ensures c2.to.line < |e| && |Both(c, c2).text| > 0 && Moved(Edited(e, c2, false), n, m, a, b, Both(c, c2), false)
  {
    hide Cat, Edited, Gone, MapStart, MapEnd, Marks, Absent, IsRange;
    BothForm(c, c2);
    TypedLine(c, c2);
    if Gone(m, a, b, c) {
      BothGone(m, a, b, c, c2);
      AbsentEdited(e, m, c2, false);
      EditedLength(e, c2, false);
    } else {
      BothEnds(m, a, b, c, c2);
      StillRange(m, a, b, c);
      EditedMoved(e, m, MapStart(m, a, c), MapEnd(m, b, c), c2, false);
    }
  }

  lemma TypedLine(c: Change, c2: Change)
    requires Typed(c, c2)
    ensures c2.to.line == c2.from.line == c.from.line + |c.text| - 1 && c.from.line == c.to.line >= 0
  {
  }

  lemma TypedBookmark(e: seq<seq<Span>>, n: nat, m: Marker, a: Pos, c: Change, c2: Change)
    requires Typed(c, c2) && c.to.line < n && IsBookmark(m) && BookmarkMoved(e, n, m, a, c, false)
    ensures c2.to.line < |e| && |Both(c, c2).text| > 0 && BookmarkMoved(Edited(e, c2, false), n, m, a, Both(c, c2), false)
  {
    hide Cat, Edited, Marks, Absent, IsBookmark;
    BothForm(c, c2);
    TypedLine(c, c2);
    EditedBookmark(e, m, MapBookmark(m, a, c), c2, false);
  }

  /** Any number of insertions, each right behind the one before. */
  ghost predicate TypedAll(c: Change, cs: seq<Change>)
    decreases |cs|
  {
    cs == [] || (Typed(c, cs[0]) && TypedAll(Both(c, cs[0]), cs[1..]))
  }

  /** All of them as one. */
  ghost function Typing(c: Change, cs: seq<Change>): Change
    requires TypedAll(c, cs)
    decreases |cs|
  {
    if cs == [] then c else Typing(Both(c, cs[0]), cs[1..])
  }

  /** The spans after those behind the first. */
  ghost function AfterTyping(e: seq<seq<Span>>, c: Change, cs: seq<Change>): (r: seq<seq<Span>>)
    requires TypedAll(c, cs) && c.from.line + |c.text| - 1 < |e|
    decreases |cs|
  {
    if cs == [] then e
    else
      TypedLine(c, cs[0]);
      BothForm(c, cs[0]);
      EditedLength(e, cs[0], false);
      AfterTyping(Edited(e, cs[0], false), Both(c, cs[0]), cs[1..])
  }

  lemma {:induction false} TypingMoved(e: seq<seq<Span>>, n: nat, m: Marker, a: Pos, b: Pos, c: Change, cs: seq<Change>)
    requires TypedAll(c, cs) && FormOk(c) && c.from == c.to && c.to.line < n
    requires if IsBookmark(m) then BookmarkMoved(e, n, m, a, c, false) else IsRange(m, a, b) && Moved(e, n, m, a, b, c, false)
    ensures c.from.line + |c.text| - 1 < |e|
    ensures var l, r := Typing(c, cs), AfterTyping(e, c, cs);
      && FormOk(l) && l.from == l.to == c.from
      && if IsBookmark(m) then BookmarkMoved(r, n, m, a, l, false) else Moved(r, n, m, a, b, l, false)
    decreases |cs|
  {
    hide Cat, Edited, Gone, MapStart, MapEnd, Marks, Absent, IsRange, BookmarkGone, MapBookmark;
    if cs != [] {
      BothForm(c, cs[0]);
      if IsBookmark(m) {
        TypedBookmark(e, n, m, a, c, cs[0]);
      } else {
        TypedMoved(e, n, m, a, b, c, cs[0]);
      }
      TypingMoved(Edited(e, cs[0], false), n, m, a, b, Both(c, cs[0]), cs[1..]);
    }
  }

  /** Text typed in one go and taken back at once, with the spans that the record kept of the first insertion: all is back as it was. */
  lemma TypingReturns(spans: seq<seq<Span>>, m: Marker, a: Pos, b: Pos, c: Change, cs: seq<Change>, c': Change, cleared: set<Marker>)
    requires FormOk(c) && c.from == c.to && c.to.line < |spans| && TypedAll(c, cs) && TakesBack(Typing(c, cs), c')
    requires Marks(spans, m, a, b) && m !in cleared && (IsRange(m, a, b) || (IsBookmark(m) && a == b))
    ensures |Edited(spans, c, false)| > c.from.line + |c.text| - 1
    ensures var e := AfterTyping(Edited(spans, c, false), c, cs);
      && FormOk(c') && c'.to.line < |e| && |Attached(spans, c)| == |c'.text|
      && Marks(TakenBack(e, c', Attached(spans, c), cleared), m, a, b)
  {
    hide Edited, Gone, MapStart, MapEnd, Marks, Absent, BookmarkGone, MapBookmark, TakenBack;
    EditedLength(spans, c, false);
    if IsBookmark(m) {
      EditedBookmark(spans, m, a, c, false);
    } else {
      EditedMoved(spans, m, a, b, c, false);
    }
    TypingMoved(Edited(spans, c, false), |spans|, m, a, b, c, cs);
    var l, e := Typing(c, cs), AfterTyping(Edited(spans, c, false), c, cs);
    assert Attached(spans, l) == Attached(spans, c);
    if IsBookmark(m) {
      BookmarkRestored(spans, e, m, a, l, c', false, cleared);
    } else {
      RangeRestored(spans, e, m, a, b, l, c', false, cleared);
    }
  }
}
