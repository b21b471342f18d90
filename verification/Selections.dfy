/** Ranges of a selection, and bringing a list of ranges into order. */
module Selections {
  import opened Positions
  import Lists

  /** A selected range: `head` is the end that moves. */
  datatype Range = Range(anchor: Pos, head: Pos) {
    function From(): Pos {
      MinPos(anchor, head)
    }

    function To(): Pos {
      MaxPos(anchor, head)
    }

    predicate Empty() {
      head == anchor
    }

    predicate Covers(p: Pos) {
      Cmp(From(), p) <= 0 && Cmp(p, To()) <= 0
    }
  }

  ghost predicate StartsFirst(a: Range, b: Range) {
    Cmp(a.From(), b.From()) <= 0
  }

  ghost predicate Sorted(rs: seq<Range>) {
    forall i, j :: 0 <= i < j < |rs| ==> StartsFirst(rs[i], rs[j])
  }

  /** Two ranges that may stand side by side: with a gap between them, or touching if that is allowed and the second is not empty. */
  predicate Separate(a: Range, b: Range, mayTouch: bool) {
    if mayTouch && !b.Empty() then Cmp(a.To(), b.From()) <= 0 else Cmp(a.To(), b.From()) < 0
  }

  ghost predicate AllSeparate(rs: seq<Range>, mayTouch: bool) {
    forall i :: 0 < i < |rs| ==> Separate(rs[i - 1], rs[i], mayTouch)
  }

  /** Of two ranges in their order: no position is in both, or, if that is allowed, only the one where the first ends and the second starts. */
  lemma SeparateMeans(a: Range, b: Range, mayTouch: bool)
    requires StartsFirst(a, b)
    ensures Separate(a, b, mayTouch) <==>
      || (forall p :: a.Covers(p) ==> !b.Covers(p))
      || (mayTouch && !b.Empty() && a.To() == b.From())
  {
    if !Separate(a, b, mayTouch) {
      assert a.Covers(b.From()) && b.Covers(b.From());
    }
  }

  ghost predicate Covered(rs: seq<Range>, p: Pos) {
    exists i :: 0 <= i < |rs| && rs[i].Covers(p)
  }

  ghost predicate SameCover(rs: seq<Range>, rs': seq<Range>) {
    forall p: Pos :: Covered(rs, p) <==> Covered(rs', p)
  }

  /** Where the first ranges of a list stand when they are sorted by where they start; those that start together keep their order. */
  ghost predicate StableOrder(rs: seq<Range>, order: seq<nat>) {
    && |order| <= |rs|
    && (forall n :: 0 <= n < |order| ==> n in order)
    && (forall i :: 0 <= i < |order| ==> order[i] < |order|)
    && (forall i, j :: 0 <= i < j < |order| ==> InTurn(rs, order[i], order[j]))
  }

  ghost predicate InTurn(rs: seq<Range>, m: nat, n: nat) {
    m < |rs| && n < |rs| && m != n && StartsFirst(rs[m], rs[n]) && (StartsFirst(rs[n], rs[m]) ==> m < n)
  }

  ghost function Picked(rs: seq<Range>, order: seq<nat>): seq<Range>
    requires StableOrder(rs, order)
  {
    seq(|order|, i requires 0 <= i < |order| => rs[order[i]])
  }

  lemma InTurnTrans(rs: seq<Range>, a: nat, b: nat, c: nat)
    requires InTurn(rs, a, b) && InTurn(rs, b, c)
    ensures InTurn(rs, a, c)
  {
  }

  lemma OrderMore(order: seq<nat>, k: nat)
    requires k <= |order| && (forall i :: 0 <= i < |order| ==> order[i] < |order|) && forall n :: 0 <= n < |order| ==> n in order
    ensures var order' := order[..k] + [|order|] + order[k..];
      (forall i :: 0 <= i < |order'| ==> order'[i] < |order'|) && forall n :: 0 <= n < |order'| ==> n in order'
  {
    var order' := order[..k] + [|order|] + order[k..];
    forall n | 0 <= n < |order'| ensures n in order' {
      if n == |order| {
        assert order'[k] == n;
      } else {
        assert n in order;
        var i :| 0 <= i < |order| && order[i] == n;
        assert order'[if i < k then i else i + 1] == n;
      }
    }
  }

  lemma InsertInOrder(rs: seq<Range>, order: seq<nat>, k: nat)
    requires StableOrder(rs, order) && |order| < |rs| && k <= |order|
    requires forall i :: k <= i < |order| ==> InTurn(rs, |order|, order[i])
    requires k > 0 ==> InTurn(rs, order[k - 1], |order|)
    ensures StableOrder(rs, order[..k] + [|order|] + order[k..])
  {
    hide InTurn;
    var n, order' := |order|, order[..k] + [|order|] + order[k..];
    OrderMore(order, k);
    forall i, j | 0 <= i < j < |order'| ensures InTurn(rs, order'[i], order'[j]) {
      if j < k {
        assert InTurn(rs, order[i], order[j]);
      } else if i > k {
        assert InTurn(rs, order[i - 1], order[j - 1]);
      } else if i == k {
        assert InTurn(rs, n, order[j - 1]);
      } else if j > k {
        assert InTurn(rs, order[i], order[j - 1]);
      } else if i < k - 1 {
        assert InTurn(rs, order[i], order[k - 1]);
        InTurnTrans(rs, order[i], order[k - 1], n);
      }
    }
  }

  lemma PickedInsert(rs: seq<Range>, order: seq<nat>, k: nat)
    requires StableOrder(rs, order) && |order| < |rs| && k <= |order| && StableOrder(rs, order[..k] + [|order|] + order[k..])
    ensures Picked(rs, order[..k] + [|order|] + order[k..]) == Picked(rs, order)[..k] + [rs[|order|]] + Picked(rs, order)[k..]
  {
    hide InTurn;
  }

  /** Where the next range goes: behind the last that does not start behind it. */
  method PlaceOf(rs: seq<Range>, sorted: seq<Range>, ghost order: seq<nat>) returns (k: nat)
    requires StableOrder(rs, order) && sorted == Picked(rs, order) && |order| < |rs|
    ensures k <= |order| && forall i :: k <= i < |order| ==> InTurn(rs, |order|, order[i])
    ensures k > 0 ==> InTurn(rs, order[k - 1], |order|)
  {
    var n := |sorted|;
    k := n;
    while k > 0 && Cmp(sorted[k - 1].From(), rs[n].From()) > 0
      invariant 0 <= k <= n
      invariant forall i :: k <= i < n ==> InTurn(rs, n, order[i])
    {
      k := k - 1;
    }
  }

  /** Sorting by where the ranges start. */
  method SortByFrom(rs: seq<Range>) returns (sorted: seq<Range>, ghost order: seq<nat>)
    ensures StableOrder(rs, order) && |order| == |rs| && sorted == Picked(rs, order)
  {
    sorted, order := [], [];
    while |sorted| < |rs|
      invariant |sorted| <= |rs| && StableOrder(rs, order) && |order| == |sorted| && sorted == Picked(rs, order)
    {
      var n := |sorted|;
      var k := PlaceOf(rs, sorted, order);
      InsertInOrder(rs, order, k);
      PickedInsert(rs, order, k);
      sorted := sorted[..k] + [rs[n]] + sorted[k..];
      order := order[..k] + [n] + order[k..];
    }
  }

  lemma PickedSorted(rs: seq<Range>, order: seq<nat>)
    requires StableOrder(rs, order)
    ensures Sorted(Picked(rs, order))
  {
    var sorted := Picked(rs, order);
    forall i, j | 0 <= i < j < |sorted| ensures StartsFirst(sorted[i], sorted[j]) {
      assert InTurn(rs, order[i], order[j]);
    }
  }

  lemma PickedCover(rs: seq<Range>, order: seq<nat>)
    requires StableOrder(rs, order) && |order| == |rs|
    ensures SameCover(rs, Picked(rs, order)) && forall r :: r in rs ==> r in Picked(rs, order)
  {
    var sorted := Picked(rs, order);
    forall n | 0 <= n < |rs| ensures exists i :: 0 <= i < |order| && sorted[i] == rs[n] {
      assert n in order;
      var i :| 0 <= i < |order| && order[i] == n;
      assert sorted[i] == rs[n];
    }
    forall p: Pos ensures Covered(rs, p) <==> Covered(sorted, p) {
      if n :| 0 <= n < |rs| && rs[n].Covers(p) {
        var i :| 0 <= i < |order| && sorted[i] == rs[n];
      }
      if i :| 0 <= i < |sorted| && sorted[i].Covers(p) {
        assert sorted[i] == rs[order[i]];
      }
    }
  }

  /** The range that takes the place of two that meet; it points the way of the first, or of the second if the first is empty. */
  function Merged(s: Range, a: Range): Range {
    var from, to := MinPos(s.From(), a.From()), MaxPos(s.To(), a.To());
    var backwards := if s.Empty() then a.From() == a.head else s.From() == s.head;
    if backwards then Range(to, from) else Range(from, to)
  }

  /** A merged range covers what the two covered and points the way of the first, or of the second if the first is empty. */
  lemma MergedCovers(s: Range, a: Range, mayTouch: bool)
    requires Cmp(s.From(), a.From()) <= 0 && !Separate(s, a, mayTouch)
    ensures Merged(s, a).From() == s.From()
    ensures forall p :: Merged(s, a).Covers(p) <==> s.Covers(p) || a.Covers(p)
    ensures !s.Empty() ==> !Merged(s, a).Empty()
    ensures var r, m := if s.Empty() then a else s, Merged(s, a);
      !m.Empty() ==> (Cmp(m.head, m.anchor) < 0 <==> Cmp(r.head, r.anchor) <= 0)
  {
  }

  ghost predicate Within(r: Range, r': Range) {
    Cmp(r'.From(), r.From()) <= 0 && Cmp(r.To(), r'.To()) <= 0
  }

  /** The ranges with neighbours `o - 1` and `o` merged. */
  function MergedAt(rs: seq<Range>, o: nat): seq<Range>
    requires 0 < o < |rs|
  {
    rs[..o - 1] + [Merged(rs[o - 1], rs[o])] + rs[o + 1..]
  }

  lemma MergedSorted(rs: seq<Range>, o: nat, mayTouch: bool)
    requires 0 < o < |rs| && Sorted(rs) && !Separate(rs[o - 1], rs[o], mayTouch)
    ensures Sorted(MergedAt(rs, o))
  {
    var rs' := MergedAt(rs, o);
    MergedCovers(rs[o - 1], rs[o], mayTouch);
    forall i, j | 0 <= i < j < |rs'| ensures StartsFirst(rs'[i], rs'[j]) {
      assert StartsFirst(rs[if i < o then i else i + 1], rs[if j < o then j else j + 1]);
    }
  }

  lemma MergedCover(rs: seq<Range>, o: nat, mayTouch: bool)
    requires 0 < o < |rs| && Sorted(rs) && !Separate(rs[o - 1], rs[o], mayTouch)
    ensures SameCover(rs, MergedAt(rs, o))
  {
    var rs' := MergedAt(rs, o);
    MergedCovers(rs[o - 1], rs[o], mayTouch);
    forall p: Pos ensures Covered(rs, p) <==> Covered(rs', p) {
      if i :| 0 <= i < |rs| && rs[i].Covers(p) {
        assert rs'[if i < o then i else i - 1].Covers(p);
      }
      if i :| 0 <= i < |rs'| && rs'[i].Covers(p) {
        assert if i < o - 1 then rs[i].Covers(p) else if i >= o then rs[i + 1].Covers(p) else rs[o - 1].Covers(p) || rs[o].Covers(p);
      }
    }
  }

  /** Merging keeps the ranges before apart, and the primary range within one of them. */
  lemma MergedSeparate(rs: seq<Range>, o: nat, mayTouch: bool, index: nat, prim: Range)
    requires 0 < o < |rs| && Sorted(rs) && !Separate(rs[o - 1], rs[o], mayTouch)
    requires SeparateUpto(rs, o, mayTouch) && index < |rs| && Within(prim, rs[index])
    ensures SeparateUpto(MergedAt(rs, o), o, mayTouch)
    ensures var index' := if o <= index then index - 1 else index;
      index' < |MergedAt(rs, o)| && Within(prim, MergedAt(rs, o)[index'])
  {
    var m, rs' := Merged(rs[o - 1], rs[o]), MergedAt(rs, o);
    MergedCovers(rs[o - 1], rs[o], mayTouch);
    assert Within(rs[o - 1], m) && Within(rs[o], m);
    forall i | 0 < i < o ensures Separate(rs'[i - 1], rs'[i], mayTouch) {
      assert Separate(rs[i - 1], rs[i], mayTouch);
    }
  }

  // ----- what each range of the result is made of

  /** Neither or both of the ranges point backwards. */
  predicate SameWay(r: Range, q: Range) {
    Cmp(r.head, r.anchor) < 0 <==> Cmp(q.head, q.anchor) < 0
  }

  /** Range `r` reaches from the first of these ranges to where they end, and points the way of the first that is not empty. */
  ghost predicate Hull(block: seq<Range>, r: Range) {
    && block != [] && r.From() == block[0].From()
    && (exists k :: 0 <= k < |block| && block[k].To() == r.To())
    && (forall k :: 0 <= k < |block| ==> Within(block[k], r))
    && (|block| == 1 ==> r == block[0])
    && ((forall k :: 0 <= k < |block| ==> block[k].Empty()) ==> r.Empty())
    && (forall k :: IsFirstNonempty(block, k) ==> SameWay(r, block[k]))
  }

  ghost predicate IsFirstNonempty(block: seq<Range>, k: int) {
    0 <= k < |block| && !block[k].Empty() && forall j :: 0 <= j < k ==> block[j].Empty()
  }

  /** Every range but the first meets one before it. */
  ghost predicate Linked(block: seq<Range>, mayTouch: bool) {
    forall k :: 0 < k < |block| ==> MeetsBefore(block, k, mayTouch)
  }

  ghost predicate MeetsBefore(block: seq<Range>, k: nat, mayTouch: bool)
    requires k < |block|
  {
    exists j :: 0 <= j < k && !Separate(block[j], block[k], mayTouch)
  }

  lemma HullOne(r: Range, mayTouch: bool)
    ensures Hull([r], r) && Linked([r], mayTouch)
  {
    assert [r][0].To() == r.To();
  }

  /** One more range that meets the ones before. */
  lemma HullMore(block: seq<Range>, s: Range, a: Range, mayTouch: bool)
    requires Hull(block, s) && Linked(block, mayTouch) && Cmp(s.From(), a.From()) <= 0 && !Separate(s, a, mayTouch)
    ensures Hull(block + [a], Merged(s, a)) && Linked(block + [a], mayTouch)
  {
    HullLinked(block, s, a, mayTouch);
    HullReach(block, s, a, mayTouch);
    HullWay(block, s, a, mayTouch);
  }

  lemma HullLinked(block: seq<Range>, s: Range, a: Range, mayTouch: bool)
    requires Hull(block, s) && Linked(block, mayTouch) && !Separate(s, a, mayTouch)
    ensures Linked(block + [a], mayTouch)
  {
    var b := block + [a];
    forall k | 0 < k < |b| ensures MeetsBefore(b, k, mayTouch) {
      if k < |block| {
        assert MeetsBefore(block, k, mayTouch);
        var j :| 0 <= j < k && !Separate(block[j], block[k], mayTouch);
        assert b[j] == block[j] && b[k] == block[k];
      } else {
        var j :| 0 <= j < |block| && block[j].To() == s.To();
        assert b[j] == block[j] && b[k] == a;
      }
    }
  }

  lemma HullReach(block: seq<Range>, s: Range, a: Range, mayTouch: bool)
    requires Hull(block, s) && Cmp(s.From(), a.From()) <= 0 && !Separate(s, a, mayTouch)
    ensures var b, r := block + [a], Merged(s, a);
      && r.From() == b[0].From()
      && (exists k :: 0 <= k < |b| && b[k].To() == r.To())
      && (forall k :: 0 <= k < |b| ==> Within(b[k], r))
      && ((forall k :: 0 <= k < |b| ==> b[k].Empty()) ==> r.Empty())
  {
    MergedEnds(s, a, mayTouch);
    hide Merged, Separate;
    var b, r := block + [a], Merged(s, a);
    var k :| 0 <= k < |block| && block[k].To() == s.To();
    assert b[k].To() == s.To() && b[|block|].To() == a.To();
    forall k | 0 <= k < |b| ensures Within(b[k], r) {
      if k < |block| {
        WithinTrans(block[k], s, r);
      }
    }
    if forall k :: 0 <= k < |b| ==> b[k].Empty() {
      assert forall k :: 0 <= k < |block| ==> block[k] == b[k];
    }
  }

  lemma MergedEnds(s: Range, a: Range, mayTouch: bool)
    requires Cmp(s.From(), a.From()) <= 0 && !Separate(s, a, mayTouch)
    ensures var r := Merged(s, a);
      && r.From() == s.From() && (r.To() == s.To() || r.To() == a.To()) && Within(s, r) && Within(a, r)
      && (s.Empty() && a.Empty() ==> r.Empty())
  {
  }

  lemma WithinTrans(a: Range, b: Range, c: Range)
    requires Within(a, b) && Within(b, c)
    ensures Within(a, c)
  {
  }

  lemma HullWay(block: seq<Range>, s: Range, a: Range, mayTouch: bool)
    requires Hull(block, s) && Cmp(s.From(), a.From()) <= 0 && !Separate(s, a, mayTouch)
    ensures forall k :: IsFirstNonempty(block + [a], k) ==> SameWay(Merged(s, a), (block + [a])[k])
  {
    var b := block + [a];
    forall k | IsFirstNonempty(b, k) ensures SameWay(Merged(s, a), b[k]) {
      assert forall j :: 0 <= j < |block| ==> b[j] == block[j];
      if k < |block| {
        assert IsFirstNonempty(block, k);
        FirstWithin(block, s, k);
        MergedWay(s, a, mayTouch);
      } else {
        assert s.Empty();
        MergedWay(s, a, mayTouch);
      }
    }
  }

  lemma FirstWithin(block: seq<Range>, s: Range, k: nat)
    requires Hull(block, s) && IsFirstNonempty(block, k)
    ensures !s.Empty()
  {
  }

  lemma MergedWay(s: Range, a: Range, mayTouch: bool)
    requires Cmp(s.From(), a.From()) <= 0 && !Separate(s, a, mayTouch)
    ensures !s.Empty() ==> SameWay(Merged(s, a), s)
    ensures s.Empty() && !a.Empty() ==> SameWay(Merged(s, a), a)
  {
  }

  /** The result is made of these sorted ranges, group by group: group `i` are those from number `cuts[i]` on. */
  ghost predicate Groups(sorted: seq<Range>, cuts: seq<nat>, rs: seq<Range>, mayTouch: bool) {
    && |cuts| == |rs| + 1 && cuts[0] == 0 && cuts[|rs|] == |sorted|
    && forall i :: 0 <= i < |rs| ==> GroupAt(sorted, cuts, rs, i, mayTouch)
  }

  ghost predicate GroupAt(sorted: seq<Range>, cuts: seq<nat>, rs: seq<Range>, i: nat, mayTouch: bool)
    requires i < |rs| < |cuts|
  {
    && cuts[i] < cuts[i + 1] <= |sorted|
    && Hull(sorted[cuts[i]..cuts[i + 1]], rs[i]) && Linked(sorted[cuts[i]..cuts[i + 1]], mayTouch)
  }

  lemma GroupsStart(sorted: seq<Range>, mayTouch: bool)
    ensures Groups(sorted, seq(|sorted| + 1, i => i), sorted, mayTouch)
  {
    hide Hull, Linked;
    var cuts: seq<nat> := seq(|sorted| + 1, i => i);
    forall i | 0 <= i < |sorted| ensures GroupAt(sorted, cuts, sorted, i, mayTouch) {
      assert sorted[i..i + 1] == [sorted[i]];
      HullOne(sorted[i], mayTouch);
    }
  }

  lemma GroupsMerged(sorted: seq<Range>, cuts: seq<nat>, rs: seq<Range>, o: nat, mayTouch: bool)
    requires Groups(sorted, cuts, rs, mayTouch) && 0 < o < |rs| && cuts[o + 1] == cuts[o] + 1
    requires StartsFirst(rs[o - 1], rs[o]) && !Separate(rs[o - 1], rs[o], mayTouch)
    ensures Groups(sorted, cuts[..o] + cuts[o + 1..], MergedAt(rs, o), mayTouch)
  {
    hide Hull, Linked, Merged, Separate;
    var cuts', rs' := cuts[..o] + cuts[o + 1..], MergedAt(rs, o);
    assert GroupAt(sorted, cuts, rs, o - 1, mayTouch) && GroupAt(sorted, cuts, rs, o, mayTouch);
    var block := sorted[cuts[o - 1]..cuts[o]];
    HullSingle(sorted[cuts[o]..cuts[o + 1]], rs[o]);
    HullMore(block, rs[o - 1], rs[o], mayTouch);
    assert sorted[cuts[o - 1]..cuts[o + 1]] == block + [rs[o]];
    forall i | 0 <= i < |rs'| ensures GroupAt(sorted, cuts', rs', i, mayTouch) {
      if i < o - 1 {
        assert GroupAt(sorted, cuts, rs, i, mayTouch);
      } else if i >= o {
        assert GroupAt(sorted, cuts, rs, i + 1, mayTouch);
      }
    }
  }

  lemma HullSingle(block: seq<Range>, r: Range)
    requires Hull(block, r) && |block| == 1
    ensures block == [r]
  {
  }

  /** The group of a sorted range. */
  lemma GroupOf(sorted: seq<Range>, cuts: seq<nat>, rs: seq<Range>, mayTouch: bool, l: nat) returns (i: nat)
    requires Groups(sorted, cuts, rs, mayTouch) && l < |sorted|
    ensures i < |rs| && GroupAt(sorted, cuts, rs, i, mayTouch) && cuts[i] <= l < cuts[i + 1]
  {
    hide Hull, Linked;
    i := 0;
    while cuts[i + 1] <= l
      invariant i < |rs| && cuts[i] <= l
      decreases |rs| - i
    {
      assert i + 1 < |rs|;
      i := i + 1;
    }
    assert GroupAt(sorted, cuts, rs, i, mayTouch);
  }

  /** Empty ranges at the start of a group, and the first that is not, start where the group does. */
  lemma {:induction false} StartTogether(block: seq<Range>, k: nat, mayTouch: bool)
    requires k < |block| && Sorted(block) && Linked(block, mayTouch) && forall j :: 0 <= j < k ==> block[j].Empty()
    ensures block[k].From() == block[0].From()
  {
    if k > 0 {
      assert MeetsBefore(block, k, mayTouch);
      var j :| 0 <= j < k && !Separate(block[j], block[k], mayTouch);
      StartTogether(block, j, mayTouch);
      assert StartsFirst(block[j], block[k]);
    }
  }

  lemma SomeNonempty(block: seq<Range>, r: Range) returns (k: nat)
    requires Hull(block, r) && !r.Empty()
    ensures IsFirstNonempty(block, k)
  {
    var n :| 0 <= n < |block| && !block[n].Empty();
    k := FirstNonempty(block, n);
  }

  lemma HullFirst(block: seq<Range>, r: Range, k: nat)
    requires Hull(block, r) && IsFirstNonempty(block, k)
    ensures SameWay(r, block[k]) && r.From() == block[0].From()
  {
  }

  lemma {:induction false} FirstNonempty(block: seq<Range>, n: nat) returns (k: nat)
    requires n < |block| && !block[n].Empty()
    ensures IsFirstNonempty(block, k)
  {
    if j :| 0 <= j < n && !block[j].Empty() {
      k := FirstNonempty(block, j);
    } else {
      k := n;
    }
  }

  lemma EarlierEnds(rs: seq<Range>, mayTouch: bool, i: nat, j: nat)
    requires Sorted(rs) && AllSeparate(rs, mayTouch) && i < j < |rs|
    ensures Cmp(rs[i].To(), rs[j].From()) <= 0
  {
    assert Separate(rs[i], rs[i + 1], mayTouch);
    assert i + 1 < j ==> StartsFirst(rs[i + 1], rs[j]);
  }

  /** Range `n` is the first of those given that start where `r` starts and are not empty. */
  ghost predicate FirstThere(ranges: seq<Range>, n: int, r: Range) {
    && 0 <= n < |ranges| && ranges[n].From() == r.From() && !ranges[n].Empty()
    && forall m :: 0 <= m < n && ranges[m].From() == r.From() ==> ranges[m].Empty()
  }

  /** It is the first of those, and `r` points its way. */
  ghost predicate PointsLike(ranges: seq<Range>, n: int, r: Range) {
    FirstThere(ranges, n, r) && SameWay(r, ranges[n])
  }

  /** A range of the result points the way of the first given range that starts where it starts and is not empty. */
  lemma WayOfFirst(ranges: seq<Range>, order: seq<nat>, cuts: seq<nat>, rs: seq<Range>, mayTouch: bool, i: nat) returns (n: nat)
    requires StableOrder(ranges, order) && |order| == |ranges| && Groups(Picked(ranges, order), cuts, rs, mayTouch)
    requires Sorted(rs) && AllSeparate(rs, mayTouch) && i < |rs| && !rs[i].Empty()
    ensures PointsLike(ranges, n, rs[i])
  {
    hide SameWay, AllSeparate, Sorted, GroupAt;
    var l := FirstOfGroup(ranges, order, cuts, rs, mayTouch, i);
    n := order[l];
    forall m | 0 <= m < n && ranges[m].From() == rs[i].From() ensures ranges[m].Empty() {
      FirstInOrder(ranges, order, cuts, rs, mayTouch, i, l - cuts[i], m);
    }
  }

  lemma FirstOfGroup(ranges: seq<Range>, order: seq<nat>, cuts: seq<nat>, rs: seq<Range>, mayTouch: bool, i: nat) returns (l: nat)
    requires StableOrder(ranges, order) && Groups(Picked(ranges, order), cuts, rs, mayTouch) && i < |rs| && !rs[i].Empty()
    ensures GroupAt(Picked(ranges, order), cuts, rs, i, mayTouch) && cuts[i] <= l < cuts[i + 1] <= |order|
    ensures IsFirstNonempty(Picked(ranges, order)[cuts[i]..cuts[i + 1]], l - cuts[i])
    ensures ranges[order[l]].From() == rs[i].From() && !ranges[order[l]].Empty() && SameWay(rs[i], ranges[order[l]])
  {
    hide SameWay, Hull, Linked, Sorted, InTurn;
    var sorted := Picked(ranges, order);
    PickedSorted(ranges, order);
    assert GroupAt(sorted, cuts, rs, i, mayTouch);
    var block := sorted[cuts[i]..cuts[i + 1]];
    BlockSorted(sorted, cuts[i], cuts[i + 1]);
    var k := SomeNonempty(block, rs[i]);
    StartTogether(block, k, mayTouch);
    HullFirst(block, rs[i], k);
    l := cuts[i] + k;
    assert block[k] == sorted[l] == ranges[order[l]];
  }

  lemma BlockSorted(sorted: seq<Range>, a: nat, b: nat)
    requires Sorted(sorted) && a <= b <= |sorted|
    ensures Sorted(sorted[a..b])
  {
    forall i, j | 0 <= i < j < b - a ensures StartsFirst(sorted[a..b][i], sorted[a..b][j]) {
      assert StartsFirst(sorted[a + i], sorted[a + j]);
    }
  }

  lemma FirstInOrder(ranges: seq<Range>, order: seq<nat>, cuts: seq<nat>, rs: seq<Range>, mayTouch: bool, i: nat, k: nat, m: nat)
    requires StableOrder(ranges, order) && |order| == |ranges| && Groups(Picked(ranges, order), cuts, rs, mayTouch)
    requires Sorted(rs) && AllSeparate(rs, mayTouch) && i < |rs| && GroupAt(Picked(ranges, order), cuts, rs, i, mayTouch)
    requires IsFirstNonempty(Picked(ranges, order)[cuts[i]..cuts[i + 1]], k)
    requires m < order[cuts[i] + k] && ranges[order[cuts[i] + k]].From() == ranges[m].From() == rs[i].From()
    ensures ranges[m].Empty()
  {
    hide Linked, Separate, Hull;
    var sorted, l := Picked(ranges, order), cuts[i] + k;
    assert m in order;
    var q :| 0 <= q < |order| && order[q] == m;
    assert q > l ==> InTurn(ranges, order[l], order[q]);
    if q >= cuts[i] {
      assert sorted[cuts[i]..cuts[i + 1]][q - cuts[i]] == sorted[q] == ranges[m];
    } else {
      var j := GroupOf(sorted, cuts, rs, mayTouch, q);
      GroupBefore(sorted, cuts, rs, mayTouch, j, i, q);
      EarlierEnds(rs, mayTouch, j, i);
      HullHolds(sorted[cuts[j]..cuts[j + 1]], rs[j], q - cuts[j]);
      assert sorted[cuts[j]..cuts[j + 1]][q - cuts[j]] == ranges[m];
    }
  }

  lemma HullHolds(block: seq<Range>, r: Range, k: nat)
    requires Hull(block, r) && k < |block|
    ensures Cmp(block[k].To(), r.To()) <= 0
  {
  }

  lemma {:induction false} CutsGrow(sorted: seq<Range>, cuts: seq<nat>, rs: seq<Range>, mayTouch: bool, i: nat, j: nat)
    requires Groups(sorted, cuts, rs, mayTouch) && i <= j <= |rs|
    ensures cuts[i] <= cuts[j]
    decreases j - i
  {
    if i < j {
      assert GroupAt(sorted, cuts, rs, i, mayTouch);
      CutsGrow(sorted, cuts, rs, mayTouch, i + 1, j);
    }
  }

  lemma GroupBefore(sorted: seq<Range>, cuts: seq<nat>, rs: seq<Range>, mayTouch: bool, j: nat, i: nat, q: nat)
    requires Groups(sorted, cuts, rs, mayTouch) && j < |rs| && i < |rs| && cuts[j] <= q < cuts[i]
    ensures j < i
  {
    if i <= j {
      CutsGrow(sorted, cuts, rs, mayTouch, i, j);
    }
  }

  /** Two ranges that are merged when they come one after the other. */
  ghost predicate Meets(a: Range, b: Range, mayTouch: bool) {
    (StartsFirst(a, b) && !Separate(a, b, mayTouch)) || (StartsFirst(b, a) && !Separate(b, a, mayTouch))
  }

  ghost predicate Alone(ranges: seq<Range>, n: nat, mayTouch: bool) {
    n < |ranges| && forall m :: 0 <= m < |ranges| && m != n ==> !Meets(ranges[n], ranges[m], mayTouch)
  }

  /** A range that meets no other comes back as it was. */
  lemma AloneStays(ranges: seq<Range>, order: seq<nat>, cuts: seq<nat>, rs: seq<Range>, mayTouch: bool, n: nat)
    requires StableOrder(ranges, order) && |order| == |ranges| && Groups(Picked(ranges, order), cuts, rs, mayTouch)
    requires Alone(ranges, n, mayTouch)
    ensures ranges[n] in rs
  {
    hide Meets, Hull, Linked, Sorted, InTurn;
    var sorted := Picked(ranges, order);
    PickedSorted(ranges, order);
    assert n in order;
    var l :| 0 <= l < |order| && order[l] == n;
    var i := GroupOf(sorted, cuts, rs, mayTouch, l);
    var block := sorted[cuts[i]..cuts[i + 1]];
    BlockSorted(sorted, cuts[i], cuts[i + 1]);
    AloneInGroup(ranges, order, mayTouch, n, l, cuts[i], cuts[i + 1]);
    HullOfOne(block, rs[i], l - cuts[i], mayTouch);
    assert ranges[n] == sorted[l] == block[l - cuts[i]];
  }

  lemma AloneInGroup(ranges: seq<Range>, order: seq<nat>, mayTouch: bool, n: nat, l: nat, a: nat, b: nat)
    requires StableOrder(ranges, order) && Alone(ranges, n, mayTouch) && a <= l < b <= |order| && order[l] == n
    ensures var block := Picked(ranges, order)[a..b];
      forall j :: 0 <= j < |block| && j != l - a ==> !Meets(block[l - a], block[j], mayTouch)
  {
    hide Meets;
    var block := Picked(ranges, order)[a..b];
    forall j | 0 <= j < |block| && j != l - a ensures !Meets(block[l - a], block[j], mayTouch) {
      assert block[j] == ranges[order[a + j]] && block[l - a] == ranges[n];
      assert InTurn(ranges, order[if a + j < l then a + j else l], order[if a + j < l then l else a + j]);
    }
  }

  /** A range of a group that meets no other of it is the whole group. */
  lemma HullOfOne(block: seq<Range>, r: Range, k: nat, mayTouch: bool)
    requires Hull(block, r) && Sorted(block) && Linked(block, mayTouch) && k < |block|
    requires forall j :: 0 <= j < |block| && j != k ==> !Meets(block[k], block[j], mayTouch)
    ensures block == [r] && k == 0
  {
    hide Meets, Linked, Sorted;
    if |block| > 1 {
      var j := BlockMeets(block, k, mayTouch);
    }
  }

  /** In a group of several every range meets another. */
  lemma BlockMeets(block: seq<Range>, k: nat, mayTouch: bool) returns (j: nat)
    requires Sorted(block) && Linked(block, mayTouch) && k < |block| && |block| > 1
    ensures j < |block| && j != k && Meets(block[k], block[j], mayTouch)
  {
    hide Separate, StartsFirst;
    var x := if k > 0 then k else 1;
    assert MeetsBefore(block, x, mayTouch);
    j :| 0 <= j < x && !Separate(block[j], block[x], mayTouch);
    assert StartsFirst(block[j], block[x]);
    if k == 0 {
      j := 1;
    }
  }

  /** normalizeSelection: sorted, merged where ranges meet, with the same positions selected. */
  method Normalize(ranges: seq<Range>, primary: nat, mayTouch: bool) returns (rs: seq<Range>, index: nat)
    requires primary < |ranges|
    ensures Sorted(rs) && AllSeparate(rs, mayTouch) && SameCover(ranges, rs)
    ensures index < |rs| && Within(ranges[primary], rs[index])
    ensures exists order, cuts {:trigger Made(ranges, order, cuts, rs, mayTouch)} :: Made(ranges, order, cuts, rs, mayTouch)
    ensures forall i :: 0 <= i < |rs| && !rs[i].Empty() ==> exists n :: PointsLike(ranges, n, rs[i])
    ensures forall n :: 0 <= n < |ranges| && Alone(ranges, n, mayTouch) ==> ranges[n] in rs
  {
    hide Hull, Linked, Sorted, AllSeparate, SameCover, Within, Separate, StableOrder, Groups, PointsLike, Alone;
    var prim := ranges[primary];
    ghost var order;
    rs, order := SortByFrom(ranges);
    PickedCover(ranges, order);
    PickedSorted(ranges, order);
    index := Lists.IndexOf(rs, prim);
    ghost var sorted := rs;
    ghost var cuts: seq<nat> := seq(|rs| + 1, i => i);
    GroupsStart(rs, mayTouch);
    StartSeparate(rs, mayTouch, prim, index);
    var o := 1;
    while o < |rs|
      invariant 1 <= o && index < |rs| && Sorted(rs) && SameCover(ranges, rs) && Within(prim, rs[index])
      invariant SeparateUpto(rs, o, mayTouch) && Groups(sorted, cuts, rs, mayTouch) && SinglesFrom(cuts, o)
      decreases |rs| - o
    {
      ghost var before := rs;
      rs, o, index, cuts := MergeTurn(rs, o, index, mayTouch, prim, sorted, cuts);
      SameCoverTrans(ranges, before, rs);
    }
    EndSeparate(rs, o, mayTouch);
    assert Made(ranges, order, cuts, rs, mayTouch);
    forall i | 0 <= i < |rs| && !rs[i].Empty()
      ensures exists n :: PointsLike(ranges, n, rs[i])
    {
      var n := WayOfFirst(ranges, order, cuts, rs, mayTouch, i);
      assert PointsLike(ranges, n, rs[i]);
    }
    forall n | 0 <= n < |ranges| && Alone(ranges, n, mayTouch) ensures ranges[n] in rs {
      AloneStays(ranges, order, cuts, rs, mayTouch, n);
    }
  }

  /** The ranges `rs` are made of those given, sorted and in groups. */
  ghost predicate Made(ranges: seq<Range>, order: seq<nat>, cuts: seq<nat>, rs: seq<Range>, mayTouch: bool) {
    StableOrder(ranges, order) && |order| == |ranges| && Groups(Picked(ranges, order), cuts, rs, mayTouch)
  }

  ghost predicate SinglesFrom(cuts: seq<nat>, o: nat) {
    forall i :: o <= i < |cuts| - 1 ==> cuts[i + 1] == cuts[i] + 1
  }

  lemma StartSeparate(rs: seq<Range>, mayTouch: bool, prim: Range, index: nat)
    requires index < |rs| && rs[index] == prim
    ensures SeparateUpto(rs, 1, mayTouch) && SinglesFrom(seq(|rs| + 1, i => i), 1) && Within(prim, rs[index])
  {
  }

  lemma EndSeparate(rs: seq<Range>, o: nat, mayTouch: bool)
    requires SeparateUpto(rs, o, mayTouch) && o >= |rs|
    ensures AllSeparate(rs, mayTouch)
  {
  }

  /** One turn of the merging loop, at neighbours `o - 1` and `o`. */
  method MergeTurn(rs: seq<Range>, o: nat, index: nat, mayTouch: bool, ghost prim: Range, ghost sorted: seq<Range>, ghost cuts: seq<nat>)
    returns (rs': seq<Range>, o': nat, index': nat, ghost cuts': seq<nat>)
    requires 0 < o < |rs| && index < |rs| && Sorted(rs) && SeparateUpto(rs, o, mayTouch) && Within(prim, rs[index])
    requires Groups(sorted, cuts, rs, mayTouch) && SinglesFrom(cuts, o)
    ensures 0 < o' && index' < |rs'| && Sorted(rs') && SeparateUpto(rs', o', mayTouch) && Within(prim, rs'[index'])
    ensures SameCover(rs, rs') && |rs'| - o' < |rs| - o
    ensures Groups(sorted, cuts', rs', mayTouch) && SinglesFrom(cuts', o')
  {
    hide Hull, Linked, GroupAt, SameCover, Within, Merged;
    var a, s := rs[o], rs[o - 1];
    var diff := Cmp(s.To(), a.From());
    rs', o', index', cuts' := rs, o, index, cuts;
    if if mayTouch && !a.Empty() then diff > 0 else diff >= 0 {
      assert StartsFirst(s, a);
      MergedSorted(rs, o, mayTouch);
      MergedCover(rs, o, mayTouch);
      MergedSeparate(rs, o, mayTouch, index, prim);
      GroupsMerged(sorted, cuts, rs, o, mayTouch);
      cuts' := cuts[..o] + cuts[o + 1..];
      if o <= index {
        index' := index - 1;
      }
      o' := o - 1;
      rs' := rs[..o'] + [Merged(s, a)] + rs[o' + 2..];
      assert rs' == MergedAt(rs, o);
    } else {
      SameCoverSelf(rs);
    }
    o' := o' + 1;
  }

  lemma SameCoverSelf(rs: seq<Range>)
    ensures SameCover(rs, rs)
  {
  }

  ghost predicate SeparateUpto(rs: seq<Range>, o: nat, mayTouch: bool) {
    forall i :: 0 < i < o && i < |rs| ==> Separate(rs[i - 1], rs[i], mayTouch)
  }

  lemma SameCoverTrans(a: seq<Range>, b: seq<Range>, c: seq<Range>)
    requires SameCover(a, b) && SameCover(b, c)
    ensures SameCover(a, c)
  {
  }
}
