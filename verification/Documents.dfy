/**
 The document: the root of the tree of lines, with the look-ups by number and by height and the
 two ways its lines change, insertion and removal.  Lines are numbered from 0.
 */
module Documents {
  import opened Graphs
  import opened Shapes
  import opened Lists
  import opened Walks
  import opened LineTree
  import opened Positions
  import opened Texts
  import opened Wrappers

  /** The shape with the heights of some new lines. */
  lemma Introduce(g: Shape, at: nat, ls: seq<Line>, heights: map<Line, nat>) returns (g': Shape)
    requires Whole(g) && BranchesSmall(g, {}) && LeafSizes(g, {}) && at <= |g.text[g.root]|
    requires NoDup(ls) && forall l :: l in ls ==> l !in g.heights
    requires heights == g.heights + map l | l in ls :: l.height
    ensures ReadyToInsert(g', g.root, at, ls, Sum(ls, heights))
    ensures g'.root == g.root && g'.kids == g.kids && g'.text == g.text && g'.heights == heights
  {
    g' := g.(heights := heights);
    IntroduceChunks(g, g');
    forall c | c in g'.text && c !in g'.kids ensures OwnsText(c, g') && NoneShared(ls, g'.text[c]) {
      assert OwnsText(c, g);
    }
  }

  lemma IntroduceChunks(g: Shape, g': Shape)
    requires Whole(g) && g' == g.(heights := g'.heights)
    requires forall l :: l in g.heights ==> l in g'.heights && g'.heights[l] == g.heights[l]
    ensures ChunksOk(g', {})
  {
    forall c | c in g'.text ensures BodyOk(c, g') && ParentOk(c, g') && TotalsOk(c, g') {
      assert BodyOk(c, g) && ParentOk(c, g) && TotalsOk(c, g);
      HeldOwned(g, c, {});
      assert Held(g, c) == g.text[c];
      assert forall l :: l in g.text[c] ==> LineUnder(g, c, l);
      SumSame(g.text[c], g.heights, g'.heights);
    }
  }

  method HeightOf(ls: seq<Line>, ghost heights: map<Line, nat>) returns (h: nat)
    requires forall l :: l in ls ==> l in heights && l.height == heights[l]
    ensures h == Sum(ls, heights)
  {
    h := 0;
    var n := 0;
    while n < |ls|
      invariant 0 <= n <= |ls| && h == Sum(ls[..n], heights)
    {
      assert ls[n] in ls && ls[..n + 1] == ls[..n] + [ls[n]];
      SumAppend(ls[..n], [ls[n]], heights);
      h, n := h + ls[n].height, n + 1;
    }
    assert ls[..n] == ls;
  }

  /** The shape of a tree with a single leaf that holds a single line. */
  lemma OneLeaf(top: Chunk, leaf: Chunk, line: Line, heights: map<Line, nat>) returns (g: Shape)
    requires top != leaf && heights.Keys == {line}
    ensures g.root == top && g.kids == map[top := [leaf]] && g.text == map[top := [line], leaf := [line]]
    ensures g.up == map[leaf := top] && g.heights == heights
    ensures Structure(g) && Balanced(g, {}) && BranchesSmall(g, {}) && LeafSizes(g, {})
  {
    g := Graph(top, map[top := [leaf]], map[top := [line], leaf := [line]], map[leaf := top],
               map[top := 1, leaf := 0], heights);
    FlatOne(leaf, g.text);
  }

  lemma OneLeafWhole(g: Shape, top: Chunk, leaf: Chunk, line: Line)
    requires Structure(g) && Balanced(g, {})
    requires g.kids == map[top := [leaf]] && g.text == map[top := [line], leaf := [line]] && g.up == map[leaf := top]
    requires g.heights == map[line := line.height]
    requires !top.leaf && leaf.leaf && top.children == [leaf] && leaf.lines == [line]
    requires top.parent == null && leaf.parent == top && line.parent == leaf
    requires leaf.height == Sum([line], g.heights) && top.size == 1 && top.height == Sum([line], g.heights)
    ensures Whole(g)
  {
    assert forall c :: c in g.text ==> c == top || c == leaf;
    assert BodyOk(top, g) && BodyOk(leaf, g) && ParentOk(top, g) && ParentOk(leaf, g);
    assert TotalsOk(top, g) && TotalsOk(leaf, g) && OwnsText(leaf, g);
  }

  lemma SpliceOfLines(d: seq<string>, e: seq<string>, c: Change)
    requires ValidChange(d, c)
    requires var k, n, rest := c.from.line, |c.text|, c.to.line + 1;
      && |e| == k + n + (|d| - rest)
      && (forall i :: 0 <= i < k ==> e[i] == d[i])
      && (forall i :: 0 <= i < n ==> e[k + i] == Glued(d, c)[i])
      && (forall i :: k + n <= i < |e| ==> e[i] == d[i - (k + n) + rest])
    ensures e == Splice(d, c)
  {
    var k := c.from.line;
    forall i | 0 <= i < |e| ensures e[i] == Splice(d, c)[i] {
      if k <= i < k + |c.text| {
        assert e[k + (i - k)] == Glued(d, c)[i - k];
      }
    }
  }

  /** The texts around an edit are those of before. */
  lemma OuterTexts(was: seq<Line>, now: seq<Line>, d: seq<string>, k: nat, n: nat, rest: nat)
    requires |d| == |was| && k <= rest <= |was| && |now| == k + n + (|was| - rest)
    requires now[..k] == was[..k] && now[k + n..] == was[rest..]
    requires forall i :: 0 <= i < k || rest <= i < |was| ==> was[i].text == d[i]
    ensures forall i :: 0 <= i < k ==> now[i].text == d[i]
    ensures forall i :: k + n <= i < |now| ==> now[i].text == d[i - (k + n) + rest]
  {
    forall i | 0 <= i < k ensures now[i].text == d[i] {
      assert now[i] == now[..k][i] == was[i];
    }
    forall i | k + n <= i < |now| ensures now[i].text == d[i - (k + n) + rest] {
      assert now[i] == now[k + n..][i - (k + n)] == was[rest..][i - (k + n)];
    }
  }

  /** The list `was` with `mid` in the place of its elements from `k` up to `rest`. */
  ghost predicate Rebuilt<T>(was: seq<T>, now: seq<T>, k: nat, mid: seq<T>, rest: nat) {
    && k <= rest <= |was|
    && |now| == k + |mid| + (|was| - rest)
    && now[..k] == was[..k] && now[k + |mid|..] == was[rest..]
    && forall i :: 0 <= i < |mid| ==> now[k + i] == mid[i]
  }

  /** Where the parts of a list are that stands in another one. */
  lemma PartsAt<T>(now: seq<T>, k: nat, first: seq<T>, v: seq<T>, last: seq<T>)
    requires k + |first| + |v| + |last| <= |now|
    requires var mid := first + v + last; forall i :: 0 <= i < |mid| ==> now[k + i] == mid[i]
    ensures forall i :: 0 <= i < |first| ==> now[k + i] == first[i]
    ensures forall i :: k + |first| <= i < k + |first| + |v| ==> now[i] == v[i - k - |first|]
    ensures forall i :: 0 <= i < |last| ==> now[k + |first| + |v| + i] == last[i]
  {
    var mid := first + v + last;
    forall i | 0 <= i < |first| ensures now[k + i] == first[i] {
      assert mid[i] == first[i];
    }
    forall i | k + |first| <= i < k + |first| + |v| ensures now[i] == v[i - k - |first|] {
      assert now[k + (i - k)] == mid[i - k];
    }
    forall i | 0 <= i < |last| ensures now[k + |first| + |v| + i] == last[i] {
      assert now[k + (|first| + |v| + i)] == mid[|first| + |v| + i];
    }
  }

  lemma RebuiltBySplit<T>(was: seq<T>, k: nat, v: seq<T>)
    requires k < |was|
    ensures Rebuilt(was, Spliced(Without(was, k + 1, 0), k + 1, v), k, [was[k]] + v, k + 1)
  {
    assert Without(was, k + 1, 0) == was;
    assert Spliced(was, k + 1, v) == was[..k] + ([was[k]] + v) + was[k + 1..];
  }

  lemma RebuiltByJoin<T>(was: seq<T>, k: nat, m: nat)
    requires k + 1 + m <= |was|
    ensures Rebuilt(was, Spliced(Without(was, k + 1, m), k + 1, []), k, [was[k]], k + 1 + m)
  {
    assert Spliced(Without(was, k + 1, m), k + 1, []) == Without(was, k + 1, m);
    assert Without(was, k + 1, m) == was[..k] + [was[k]] + was[k + 1 + m..];
  }

  lemma RebuiltByBoth<T>(was: seq<T>, k: nat, m: nat, v: seq<T>)
    requires k + 1 + m < |was|
    ensures Rebuilt(was, Spliced(Without(was, k + 1, m), k + 1, v), k, [was[k]] + v + [was[k + 1 + m]], k + m + 2)
  {
    assert Spliced(Without(was, k + 1, m), k + 1, v) == was[..k] + ([was[k]] + v + [was[k + 1 + m]]) + was[k + m + 2..];
  }

  lemma RebuiltByLines<T>(was: seq<T>, k: nat, m: nat, v: seq<T>)
    requires k + m < |was|
    ensures Rebuilt(was, Spliced(Without(was, k, m), k, v), k, v + [was[k + m]], k + m + 1)
  {
    assert Spliced(Without(was, k, m), k, v) == was[..k] + (v + [was[k + m]]) + was[k + m + 1..];
  }

  /** An edit that replaces whole lines by whole lines (isWholeLineUpdate); an editor can turn this treatment off. */
  predicate IsWholeLineUpdate(c: Change, wholeLines: bool)
    requires |c.text| > 0
  {
    c.from.ch == 0 && c.to.ch == 0 && Last(c.text) == "" && wholeLines
  }

  /** An edit that only changes the text of one line. */
  predicate InPlace(c: Change, full: bool, wholeLines: bool)
    requires |c.text| > 0
  {
    c.from.line == c.to.line && |c.text| == 1 && !IsWholeLineUpdate(c, wholeLines) && !full
  }

  lemma GlueNothing(text: seq<string>)
    requires |text| > 0
    ensures Glue("", text, "") == text
  {
    assert "" + text[0] + "" == text[0] && Last(text) + "" == Last(text) && "" + text[0] == text[0];
  }

  /** Lines that show these texts and have the heights estimated for them. */
  ghost predicate Shows(ls: seq<Line>, texts: seq<string>, estimate: string -> nat)
    reads ls`text, ls`height
  {
    |ls| == |texts| && forall i :: 0 <= i < |ls| ==> ls[i].text == texts[i] && ls[i].height == estimate(texts[i])
  }

  lemma ShowsCons(u: Line, v: seq<Line>, texts: seq<string>, estimate: string -> nat)
    requires |texts| > 0 && u.text == texts[0] && u.height == estimate(texts[0]) && Shows(v, texts[1..], estimate)
    ensures Shows([u] + v, texts, estimate)
  {
  }

  lemma ShowsEnds(u: Line, v: seq<Line>, d: Line, texts: seq<string>, estimate: string -> nat)
    requires |texts| > 1 && u.text == texts[0] && u.height == estimate(texts[0])
    requires d.text == Last(texts) && d.height == estimate(Last(texts)) && Shows(v, texts[1..|texts| - 1], estimate)
    ensures Shows([u] + v + [d], texts, estimate)
  {
  }

  /** The lines that an edit puts in the place of those it touches. */
  function Glued(d: seq<string>, c: Change): seq<string>
    requires ValidChange(d, c)
  {
    Glue(d[c.from.line][..c.from.ch], c.text, d[c.to.line][c.to.ch..])
  }

  lemma RemovalReady(g: Shape)
    requires Whole(g) && BranchesSmall(g, {}) && LeafSizes(g, {})
    ensures ReadyToRemove(g, g.root, {}) && g.root in g.kids && g.root in g.text
  {
  }

  lemma RemovalWhole(g: Shape, g': Shape, at: nat, n: nat)
    requires g.root in g.text && at + n <= |g.text[g.root]| && Removed(g, g', g.root, Without(g.text[g.root], at, n), {})
    ensures Whole(g') && BranchesSmall(g', {}) && g'.root == g.root && g'.heights == g.heights
    ensures g.root in g'.text && g'.text[g.root] == Without(g.text[g.root], at, n)
    ensures n < |g.text[g.root]| ==> LeafSizes(g', {}) && |g'.text[g.root]| > 0
  {
    if n < |g.text[g.root]| {
      KeptChildSizes(g', g.root);
    }
  }

  /** A line of the text between two positions. */
  ghost function BetweenLine(d: seq<string>, start: Pos, end: Pos, i: nat): string
    requires ValidPos(d, start) && ValidPos(d, end) && Cmp(start, end) <= 0 && i <= end.line - start.line
  {
    d[start.line + i][if i == 0 then start.ch else 0..if start.line + i == end.line then end.ch else |d[start.line + i]|]
  }

  lemma CutLine(d: seq<string>, start: Pos, end: Pos, i: nat)
    requires ValidPos(d, start) && ValidPos(d, end) && Cmp(start, end) <= 0 && i <= end.line - start.line
    ensures var text := d[start.line + i];
      var cut := if start.line + i == end.line then text[..end.ch] else text;
      BetweenLine(d, start, end, i) == if i == 0 then cut[start.ch..] else cut
  {
  }

  lemma BetweenLines(d: seq<string>, start: Pos, end: Pos, out: seq<string>)
    requires ValidPos(d, start) && ValidPos(d, end) && Cmp(start, end) <= 0 && |out| == end.line + 1 - start.line
    requires forall i :: 0 <= i < |out| ==> out[i] == BetweenLine(d, start, end, i)
    ensures out == Between(d, start, end)
  {
    forall i | 0 <= i < |out| ensures out[i] == Between(d, start, end)[i] {
      assert out[i] == BetweenLine(d, start, end, i);
    }
  }

  lemma GluedLength(d: seq<string>, c: Change)
    requires ValidChange(d, c)
    ensures |Glued(d, c)| == |c.text|
  {
  }

  class Doc {
    const root: Chunk
    ghost var g: Shape

    ghost predicate Valid()
      reads *
    {
      g.root == root && root in g.text && Whole(g) && BranchesSmall(g, {}) && LeafSizes(g, {}) && |g.text[root]| > 0
    }

    /** The lines of the document, in order. */
    ghost function Lines(): seq<Line>
      reads this
    {
      if root in g.text then g.text[root] else []
    }

    ghost function Texts(): seq<string>
      reads this, Lines()
    {
      seq(|Lines()|, i requires 0 <= i < |Lines()| reads this, Lines() => Lines()[i].text)
    }

    /** A document with one empty line. */
    constructor Empty()
      ensures Valid() && fresh(g.text.Keys) && fresh(g.heights.Keys)
      ensures |Lines()| == 1 && Lines()[0].text == "" && Lines()[0].height == 1 && Texts() == [""]
    {
      var line := new Line("", 1);
      ghost var heights := map[line := 1];
      var leaf := new Chunk.Leaf([line], heights);
      ghost var g0: Shape := Graph(leaf, map[], map[leaf := [line]], map[], map[leaf := 0], heights);
      var top := new Chunk.Branch([leaf], g0);
      FlatOne(leaf, g0.text);
      ghost var g1 := OneLeaf(top, leaf, line, heights);
      OneLeafWhole(g1, top, leaf, line);
      root, g := top, g1;
    }

    /** A document stays as it is when only other objects change. */
    twostate lemma Stays()
      requires old(Valid()) && unchanged(this) && unchanged(g.text.Keys) && unchanged(g.heights.Keys)
      ensures Valid()
    {
      StaysWhole(g);
    }

    /** No line is in the document twice, and every line is in a leaf that knows it. */
    lemma LinesOwned()
      requires Valid()
      ensures NoDup(Lines()) && forall l :: l in Lines() ==> LineUnder(g, root, l)
    {
      HeldOwned(g, root, {});
      assert Held(g, root) == g.text[root];
    }

    /** insert: put lines that are not yet in any document before line `at`. */
    method Insert(at: nat, ls: seq<Line>)
      requires Valid() && at <= |Lines()| && NoDup(ls) && forall l :: l in ls ==> l !in g.heights
      modifies `g, g.text.Keys, g.heights.Keys`parent, ls`parent
      ensures Valid() && Lines() == Spliced(old(Lines()), at, ls)
      ensures g.heights.Keys == old(g.heights.Keys) + set l | l in ls
      ensures forall c {:trigger c in g.text} :: c in g.text && c !in old(g.text) ==> fresh(c)
    {
      hide Whole, BranchesSmall, LeafSizes;
      ghost var heights := g.heights + map l | l in ls :: l.height;
      var h := HeightOf(ls, heights);
      StaysWhole(g);
      ghost var g1 := Introduce(g, at, ls, heights);
      ghost var g2 := root.InsertInner(at, ls, h, g1);
      Become(g2);
    }

    /** The tree has this shape now. */
    ghost method Become(g': Shape)
      requires Whole(g')
      modifies `g
      ensures Whole(g') && g == g'
    {
      g := g';
      StaysWhole(g');
    }

    /**
     remove: take `n` lines away from line `at` on.  A document that loses all its lines keeps one empty leaf;
     the editor never lets that happen.
     */
    method Remove(at: nat, n: nat)
      requires Valid() && at + n <= |Lines()|
      modifies `g, g.text.Keys, g.heights.Keys`parent
      ensures Lines() == Without(old(Lines()), at, n)
      ensures if n < |old(Lines())| then Valid() else g.root == root && Whole(g) && BranchesSmall(g, {})
      ensures |Lines()| < 25 ==> SingleLeaf(g, root)
      ensures g.heights == old(g.heights)
      ensures forall c {:trigger c in g.text} :: c in g.text && c !in old(g.text) ==> fresh(c)
    {
      hide Whole, BranchesSmall, LeafSizes;
      RemovalReady(g);
      ghost var g2 := root.RemoveInner(at, n, g, {});
      RemovalWhole(g, g2, at, n);
      Become(g2);
    }

    // ----- look-ups

    /** getLine: the line with a number, if there is one. */
    method GetLine(n: int) returns (r: Option<Line>)
      requires Valid()
      ensures r == if 0 <= n < |Lines()| then Some(Lines()[n]) else None
    {
      hide Flat, BranchesSmall, LeafSizes;
      assert BodyOk(root, g) && TotalsOk(root, g);
      if n < 0 || n >= root.size { return None; }
      var c, t := root, n;
      while !c.leaf
        invariant ChunksOk(g, {}) && c in g.text && 0 <= t < |g.text[c]| && g.text[c][t] == Lines()[n]
        decreases RankOf(g, c)
      {
        assert BodyOk(c, g) && g.text[c] == Flat(g.kids[c], g.text);
        var k;
        k, t := c.ChildAt(t, g);
        GatherBelow(g, c, {}, k);
        FlatAt(g.kids[c], k, g.text, t);
        c := c.children[k];
      }
      assert BodyOk(c, g);
      r := Some(c.lines[t]);
    }

    /** lineNo: the number of a line, or nothing for a line that is in no document. */
    method LineNo(line: Line) returns (r: Option<nat>)
      requires Valid() && (line.parent == null || line in Lines())
      ensures line in Lines() ==> r.Some? && r.value < |Lines()| && Lines()[r.value] == line
      ensures line.parent == null ==> r.None?
    {
      hide Flat, BranchesSmall, LeafSizes;
      if line.parent == null { LinesOwned(); return None; }
      LinesOwned();
      assert LineUnder(g, root, line);
      var c := line.parent;
      assert BodyOk(c, g);
      var n := IndexOf(c.lines, line);
      while c.parent != null
        invariant ChunksOk(g, {}) && c in g.text && 0 <= n < |g.text[c]| && g.text[c][n] == line
        decreases RankOf(g, g.root) - RankOf(g, c)
      {
        assert ParentOk(c, g);
        var p := c.parent;
        assert BodyOk(p, g) && g.text[p] == Flat(g.kids[p], g.text);
        var k, before := p.Before(c, g);
        FlatAt(g.kids[p], k, g.text, n);
        c, n := p, before + n;
      }
      assert ParentOk(c, g);
      r := Some(n);
    }

    /** heightAtLine: the height of everything above a line. */
    method HeightAtLine(line: Line) returns (h: int)
      requires Valid() && line in Lines()
      ensures forall n :: 0 <= n < |Lines()| && Lines()[n] == line ==> h == Above(Lines(), g.heights, n)
    {
      hide Sum, Flat, BranchesSmall, LeafSizes;
      LinesOwned();
      assert LineUnder(g, root, line);
      var c := line.parent;
      assert BodyOk(c, g) && OwnsText(c, g);
      ghost var n: nat;
      h, n := c.HeightBeforeLine(line, g.heights);
      while c.parent != null
        invariant ChunksOk(g, {}) && c in g.text && 0 <= n < |g.text[c]| && g.text[c][n] == line
        invariant h == Above(g.text[c], g.heights, n)
        decreases RankOf(g, g.root) - RankOf(g, c)
      {
        assert ParentOk(c, g);
        var p := c.parent;
        assert BodyOk(p, g) && g.text[p] == Flat(g.kids[p], g.text);
        var before;
        ghost var k;
        before, k := p.HeightBefore(c, g);
        FlatAt(g.kids[p], k, g.text, n);
        SumAround(g.kids[p], k, g.text, n, g.heights);
        c, h, n := p, before + h, |Flat(g.kids[p][..k], g.text)| + n;
      }
      assert ParentOk(c, g);
      OnlyPlace(Lines(), line, n);
    }

    /** lineAtHeight: the first line that ends below a height, or the number of lines if there is none. */
    method LineAtHeight(h: int) returns (n: nat)
      requires Valid()
      ensures IsLineAt(Lines(), g.heights, h, n)
    {
      hide Structure, Balanced, LinesOk, BranchesSmall, LeafSizes, Flat, Sum, Falls, RankOf;
      RootBranch(g);
      var c, r: nat, t := root, 0, h;
      ghost var a, b := FallsStart(Lines(), g.heights, h);
      while !c.leaf
        invariant ChunksOk(g, {}) && c in g.text && r == |a| && Falls(Lines(), g.heights, h, a, g.text[c], b, t)
        invariant c == root || t < Sum(g.text[c], g.heights)
        invariant c == root ==> g.text[c] == Lines() && t == h && a == []
        decreases RankOf(g, c)
      {
        assert BodyOk(c, g);
        BranchText(g, c);
        var k, lines, rest := c.ChildAtHeight(t, g);
        if k == |c.children| {
          assert c.children[..k] == g.kids[c];
          FallsPast(Lines(), g.kids[c], g.text, g.heights, h);
          return r + lines;
        }
        GatherBelow(g, c, {}, k);
        a, b := FallsInto(Lines(), g.heights, h, a, g.kids[c], g.text, b, t, k);
        c, r, t := c.children[k], r + lines, rest;
      }
      assert BodyOk(c, g);
      var i := LineInLeaf(c, t, h, a, b);
      n := r + i;
    }

    /** The line at a height that falls into the leaf `c`, behind the lines `a`. */
    method LineInLeaf(c: Chunk, t: int, ghost h: int, ghost a: seq<Line>, ghost b: seq<Line>) returns (n: nat)
      requires Valid() && c in g.text && c.leaf
      requires Falls(Lines(), g.heights, h, a, g.text[c], b, t) && t < Sum(g.text[c], g.heights)
      ensures IsLineAt(Lines(), g.heights, h, |a| + n)
    {
      assert BodyOk(c, g) && OwnsText(c, g);
      n := c.LineAtHeight(t, g.heights);
      FallsLine(Lines(), g.heights, h, a, g.text[c], b, t, n);
    }

    // ----- changing lines

    /** updateLineHeight: give a line a height and pass the difference on to all chunks above it. */
    method UpdateLineHeight(line: Line, h: nat)
      requires Valid() && line in Lines()
      modifies `g, line`height, g.text.Keys`height
      ensures Valid() && Lines() == old(Lines()) && line.height == h
      ensures g.text == old(g.text) && g.heights == old(g.heights)[line := h]
    {
      hide Structure, Balanced, Under, Sum, Flat;
      LinesOwned();
      assert LineUnder(g, root, line);
      if h == line.height {
        assert g.heights == g.heights[line := h];
        return;
      }
      PassOn(line, h);
      ghost var g2 := HeightChanged(g, line, h);
      Become(g2);
    }

    /** The heap between the change of the heights and that of the shape. */
    method PassOn(line: Line, h: nat)
      requires Valid() && LineUnder(g, root, line)
      modifies line`height, g.text.Keys`height
      ensures line.height == h && LinesOkButHeight(g, line)
      ensures forall c {:trigger BodyOk(c, g)} :: c in g.text ==> BodyOk(c, g)
      ensures forall c {:trigger ParentOk(c, g)} :: c in g.text ==> ParentOk(c, g)
      ensures AllAhead(g, line.parent, h - g.heights[line])
    {
      hide Structure, Balanced, BranchesSmall, LeafSizes, Under, Sum, Flat;
      assert line.height == g.heights[line];
      var d, leaf := h - line.height, line.parent;
      line.height := line.height + d;
      leaf.AddHeight(d, g);
      FieldsStay(g);
      OwnersStay(g);
      forall c | c in g.text ensures Ahead(c, g, line.parent, h - g.heights[line]) {
        assert old(TotalsOk(c, g));
        ghost var h' := c.height;
      }
    }

    method SetText(line: Line, text: string)
      requires Valid() && line in Lines()
      modifies line`text
      ensures Valid() && line.text == text && line in g.heights && line.height == g.heights[line]
    {
      hide Structure, Balanced, BranchesSmall, LeafSizes, Under, Sum, Flat;
      LinesOwned();
      assert LineUnder(g, root, line);
      line.text := text;
      StaysWhole(g);
    }

    /** updateLine: give a line another text and the height estimated for it. */
    method UpdateLine(line: Line, text: string, estimate: string -> nat)
      requires Valid() && line in Lines()
      modifies `g, line`height, line`text, g.text.Keys`height
      ensures Valid() && Lines() == old(Lines()) && line.text == text && line.height == estimate(text)
      ensures g.text == old(g.text) && g.heights.Keys == old(g.heights.Keys)
    {
      hide Whole, BranchesSmall, LeafSizes;
      SetText(line, text);
      var h := estimate(text);
      if h != line.height {
        UpdateLineHeight(line, h);
      }
    }

    /** New lines for the texts from number `from` up to number `to`. */
    method NewLines(texts: seq<string>, from: nat, to: nat, estimate: string -> nat) returns (ls: seq<Line>)
      requires from <= to <= |texts|
      ensures NoDup(ls) && |ls| == to - from && forall i :: 0 <= i < |ls| ==>
        fresh(ls[i]) && ls[i].text == texts[from + i] && ls[i].height == estimate(texts[from + i]) && ls[i].parent == null
    {
      ls := [];
      while |ls| < to - from
        invariant NoDup(ls) && |ls| <= to - from
        invariant forall i :: 0 <= i < |ls| ==>
          fresh(ls[i]) && ls[i].text == texts[from + i] && ls[i].height == estimate(texts[from + i]) && ls[i].parent == null
      {
        var line := new Line(texts[from + |ls|], estimate(texts[from + |ls|]));
        NoDupSnoc(ls, line);
        ls := ls + [line];
      }
    }

    /**
     The lines before `k` and from `rest` on stay as they are, and the lines between them show `texts`,
     with the heights estimated for these.
     */
    twostate predicate Relined(k: nat, rest: nat, texts: seq<string>, estimate: string -> nat)
      reads *
    {
      var was, now := old(Lines()), Lines();
      && k <= rest <= |was| && |now| == k + |texts| + (|was| - rest)
      && now[..k] == was[..k] && now[k + |texts|..] == was[rest..]
      && (forall i :: 0 <= i < k || rest <= i < |was| ==> was[i].text == old(was[i].text) && was[i].height == old(was[i].height))
      && (forall i :: 0 <= i < |texts| ==> now[k + i].text == texts[i] && now[k + i].height == estimate(texts[i]))
    }

    /** From number `k` on stand the lines `first`, then `n` that were not among those of `before`, then the lines `last`. */
    ghost predicate Stand(k: nat, first: seq<Line>, n: nat, last: seq<Line>, before: set<Line>)
      reads this
    {
      var now, rest := Lines(), k + |first| + n;
      && rest + |last| <= |now|
      && (forall i :: 0 <= i < |first| ==> now[k + i] == first[i])
      && (forall i :: k + |first| <= i < rest ==> now[i] !in before)
      && (forall i :: 0 <= i < |last| ==> now[rest + i] == last[i])
    }

    lemma StandParts(k: nat, first: seq<Line>, v: seq<Line>, last: seq<Line>, before: set<Line>)
      requires k + |first| + |v| + |last| <= |Lines()| && forall l :: l in v ==> l !in before
      requires var mid := first + v + last; forall i :: 0 <= i < |mid| ==> Lines()[k + i] == mid[i]
      ensures Stand(k, first, |v|, last, before)
    {
      PartsAt(Lines(), k, first, v, last);
    }

    /** Line number `k` is the one that is updated; the others stay as they are. */
    twostate predicate OnlyAt(k: nat, text: string, h: nat)
      reads *
    {
      && Lines() == old(Lines()) && k < |Lines()| && Lines()[k].text == text && Lines()[k].height == h
      && forall i :: 0 <= i < |Lines()| && i != k ==> Lines()[i].text == old(Lines()[i].text) && Lines()[i].height == old(Lines()[i].height)
    }

    method UpdateAt(line: Line, ghost k: nat, text: string, estimate: string -> nat)
      requires Valid() && k < |Lines()| && line == Lines()[k]
      modifies `g, line`height, line`text, g.text.Keys`height
      ensures Valid() && OnlyAt(k, text, estimate(text))
      ensures g.text == old(g.text) && g.heights.Keys == old(g.heights.Keys)
    {
      hide Whole, BranchesSmall, LeafSizes;
      LinesOwned();
      forall i | 0 <= i < |Lines()| && i != k ensures Lines()[i] != line {
        assert Apart(Lines(), i, k) && Apart(Lines(), k, i);
      }
      UpdateLine(line, text, estimate);
    }

    /** Line `k` and line `k + m` are updated. */
    method UpdateEnds(u: Line, d: Line, ghost k: nat, ghost m: nat, first: string, last: string, estimate: string -> nat)
      requires Valid() && k + m < |Lines()| && m > 0 && u == Lines()[k] && d == Lines()[k + m]
      modifies `g, u`height, u`text, d`height, d`text, g.text.Keys`height
      ensures Valid() && Lines() == old(Lines()) && g.text == old(g.text) && g.heights.Keys == old(g.heights.Keys)
      ensures u.text == first && u.height == estimate(first) && d.text == last && d.height == estimate(last)
      ensures forall i :: 0 <= i < |Lines()| && i != k && i != k + m ==>
        Lines()[i].text == old(Lines()[i].text) && Lines()[i].height == old(Lines()[i].height)
    {
      hide Whole, BranchesSmall, LeafSizes;
      UpdateAt(u, k, first, estimate);
      UpdateAt(d, k + m, last, estimate);
    }

    /** One line in, one line out. */
    method ReplaceInLine(u: Line, k: nat, from: nat, to: nat, text: seq<string>, estimate: string -> nat)
      requires Valid() && k < |Lines()| && u == Lines()[k] && from <= to <= |u.text| && |text| == 1
      modifies `g, u`height, u`text, g.text.Keys`height
      ensures Valid() && OnlyNew() && Relined(k, k + 1, Glue(old(u.text)[..from], text, old(u.text)[to..]), estimate) && Lines() == old(Lines())
      ensures Stand(k, [u], 0, [], old(g.heights.Keys))
    {
      hide Whole, BranchesSmall, LeafSizes;
      UpdateAt(u, k, u.text[..from] + Last(text) + u.text[to..], estimate);
    }

    /** New lines for all of a text but its first line, with `tail` glued to the last. */
    method NewTail(ghost head: string, text: seq<string>, tail: string, estimate: string -> nat) returns (v: seq<Line>)
      requires |text| > 1
      ensures NoDup(v) && |v| == |text| - 1 && forall i :: 0 <= i < |v| ==> fresh(v[i])
      ensures Shows(v, Glue(head, text, tail)[1..], estimate)
    {
      v := NewLines(text, 1, |text| - 1, estimate);
      var last := new Line(Last(text) + tail, estimate(Last(text) + tail));
      NoDupSnoc(v, last);
      ghost var texts := Glue(head, text, tail);
      forall i | 0 <= i < |text| - 1
        ensures (v + [last])[i].text == texts[1..][i] && (v + [last])[i].height == estimate(texts[1..][i])
      {
      }
      v := v + [last];
    }

    /** No chunk or line has come into the tree from elsewhere. */
    twostate predicate OnlyNew()
      reads this
    {
      && (forall c {:trigger c in g.text} :: c in g.text && c !in old(g.text) ==> fresh(c))
      && (forall l {:trigger l in g.heights} :: l in g.heights && l !in old(g.heights) ==> fresh(l))
    }

    /** The same, except that `v` has come into the tree. */
    twostate predicate OnlyFrom(new v: seq<Line>)
      reads this
    {
      && (forall c {:trigger c in g.text} :: c in g.text && c !in old(g.text) ==> fresh(c))
      && (forall l {:trigger l in g.heights} :: l in g.heights && l !in old(g.heights) ==> l in v)
    }

    /** Take `m` lines away and put new ones in their place; no line changes what it shows. */
    method Exchange(at: nat, m: nat, v: seq<Line>, ghost mid: seq<Line>, ghost texts: seq<string>, ghost estimate: string -> nat)
      requires Valid() && at + m <= |Lines()| && m < |Lines()| && NoDup(v) && forall l :: l in v ==> l !in g.heights
      requires Shows(mid, texts, estimate)
      modifies `g, g.text.Keys, g.heights.Keys`parent, v`parent
      ensures Valid() && OnlyFrom(v) && Lines() == Spliced(Without(old(Lines()), at, m), at, v)
      ensures Shows(mid, texts, estimate)
      ensures forall i :: 0 <= i < |old(Lines())| ==>
        old(Lines())[i].text == old(Lines()[i].text) && old(Lines())[i].height == old(Lines()[i].height)
    {
      hide Whole, BranchesSmall, LeafSizes;
      ghost var was := Lines();
      if m > 0 {
        Remove(at, m);
      }
      assert Lines() == Without(was, at, m);
      if |v| > 0 {
        Insert(at, v);
      }
      assert Lines() == Spliced(Without(was, at, m), at, v);
      forall i | 0 <= i < |mid| ensures mid[i].text == texts[i] && mid[i].height == estimate(texts[i]) {
        assert old(mid[i].text) == texts[i] && old(mid[i].height) == estimate(texts[i]);
      }
    }

    /** The same, when `mid` is what stands between the unchanged lines in the end. */
    method Renew(at: nat, m: nat, v: seq<Line>, ghost k: nat, ghost rest: nat, ghost mid: seq<Line>, ghost texts: seq<string>, ghost estimate: string -> nat)
      requires Valid() && at + m <= |Lines()| && m < |Lines()| && NoDup(v) && forall l :: l in v ==> l !in g.heights
      requires Shows(mid, texts, estimate) && Rebuilt(Lines(), Spliced(Without(Lines(), at, m), at, v), k, mid, rest)
      modifies `g, g.text.Keys, g.heights.Keys`parent, v`parent
      ensures Valid() && OnlyFrom(v) && Relined(k, rest, texts, estimate)
      ensures k + |mid| <= |Lines()| && forall i :: 0 <= i < |mid| ==> Lines()[k + i] == mid[i]
    {
      hide Whole, BranchesSmall, LeafSizes;
      Exchange(at, m, v, mid, texts, estimate);
    }

    /** Behind line `k`, which has the first line of the text already, come new lines for the others. */
    method InsertTail(u: Line, k: nat, ghost head: string, text: seq<string>, tail: string, estimate: string -> nat)
      requires Valid() && k < |Lines()| && u == Lines()[k] && |text| > 1 && u.text == head + text[0] && u.height == estimate(u.text)
      modifies `g, g.text.Keys, g.heights.Keys`parent
      ensures Valid() && OnlyNew() && Relined(k, k + 1, Glue(head, text, tail), estimate) && Stand(k, [u], |text| - 1, [], old(g.heights.Keys))
    {
      hide Whole, BranchesSmall, LeafSizes, Shows, Rebuilt, Spliced, Without, NoDup;
      ghost var texts := Glue(head, text, tail);
      var v := NewTail(head, text, tail, estimate);
      StaysWhole(g);
      ShowsCons(u, v, texts, estimate);
      RebuiltBySplit(Lines(), k, v);
      Renew(k + 1, 0, v, k, k + 1, [u] + v, texts, estimate);
      assert [u] + v + [] == [u] + v;
      StandParts(k, [u], v, [], old(g.heights.Keys));
    }

    /** One line in, several out: the first keeps its line, the others are new lines behind it. */
    method SplitLine(u: Line, k: nat, from: nat, to: nat, text: seq<string>, estimate: string -> nat)
      requires Valid() && k < |Lines()| && u == Lines()[k] && from <= to <= |u.text| && |text| > 1
      modifies `g, g.text.Keys, g.heights.Keys, u
      ensures Valid() && OnlyNew() && Relined(k, k + 1, Glue(old(u.text)[..from], text, old(u.text)[to..]), estimate)
      ensures Stand(k, [u], |text| - 1, [], old(g.heights.Keys))
    {
      hide Valid, Glue, Stand;
      var head, tail := u.text[..from], u.text[to..];
      UpdateAt(u, k, head + text[0], estimate);
      InsertTail(u, k, head, text, tail, estimate);
    }

    method RemoveRest(u: Line, k: nat, m: nat, estimate: string -> nat)
      requires Valid() && k + m < |Lines()| && u == Lines()[k] && u.height == estimate(u.text)
      modifies `g, g.text.Keys, g.heights.Keys`parent
      ensures Valid() && OnlyNew() && Relined(k, k + m + 1, [u.text], estimate) && Stand(k, [u], 0, [], old(g.heights.Keys))
    {
      hide Whole, BranchesSmall, LeafSizes;
      RebuiltByJoin(Lines(), k, m);
      Renew(k + 1, m, [], k, k + m + 1, [u], [u.text], estimate);
    }

    /** Several lines in, one out: the first line keeps the text before and after the edit, the others go. */
    method JoinLines(u: Line, d: Line, k: nat, m: nat, from: nat, to: nat, text: seq<string>, estimate: string -> nat)
      requires Valid() && k + m < |Lines()| && m > 0 && u == Lines()[k] && d == Lines()[k + m]
      requires from <= |u.text| && to <= |d.text| && |text| == 1
      modifies `g, g.text.Keys, g.heights.Keys, u
      ensures Valid() && OnlyNew() && Relined(k, k + m + 1, Glue(old(u.text)[..from], text, old(d.text)[to..]), estimate)
      ensures Stand(k, [u], 0, [], old(g.heights.Keys))
    {
      hide Valid, Stand;
      UpdateAt(u, k, u.text[..from] + text[0] + d.text[to..], estimate);
      RemoveRest(u, k, m, estimate);
    }

    /** New lines for the middle of a text whose first and last line are in place. */
    method NewMiddle(ghost u: Line, ghost d: Line, ghost head: string, text: seq<string>, ghost tail: string, estimate: string -> nat)
      returns (v: seq<Line>)
      requires |text| > 1 && u.text == head + text[0] && u.height == estimate(u.text)
      requires d.text == Last(text) + tail && d.height == estimate(d.text)
      ensures NoDup(v) && |v| == |text| - 2 && forall i :: 0 <= i < |v| ==> fresh(v[i])
      ensures Shows([u] + v + [d], Glue(head, text, tail), estimate)
    {
      v := NewLines(text, 1, |text| - 1, estimate);
      ShowsEnds(u, v, d, Glue(head, text, tail), estimate);
    }

    /** Between line `k` and line `k + m`, which have the ends of the text already, come new lines for its middle. */
    method ExchangeMiddle(u: Line, d: Line, k: nat, m: nat, ghost head: string, text: seq<string>, ghost tail: string, estimate: string -> nat)
      requires Valid() && k + m < |Lines()| && m > 0 && u == Lines()[k] && d == Lines()[k + m]
      requires |text| > 1 && u.text == head + text[0] && u.height == estimate(u.text)
      requires d.text == Last(text) + tail && d.height == estimate(d.text)
      modifies `g, g.text.Keys, g.heights.Keys`parent
      ensures Valid() && OnlyNew() && Relined(k, k + m + 1, Glue(head, text, tail), estimate) && Stand(k, [u], |text| - 2, [d], old(g.heights.Keys))
    {
      hide Whole, BranchesSmall, LeafSizes, Shows, Glue, Rebuilt, Spliced, Without, NoDup, Stand;
      ghost var was, texts := Lines(), Glue(head, text, tail);
      var v := NewMiddle(u, d, head, text, tail, estimate);
      StaysWhole(g);
      RebuiltByBoth(was, k, m - 1, v);
      Renew(k + 1, m - 1, v, k, k + m + 1, [was[k]] + v + [was[k + m]], texts, estimate);
      StandParts(k, [u], v, [d], old(g.heights.Keys));
    }

    /** Several lines in, several out: the first and the last line stay, new lines come between them. */
    method ReplaceLines(u: Line, d: Line, k: nat, m: nat, from: nat, to: nat, text: seq<string>, estimate: string -> nat)
      requires Valid() && k + m < |Lines()| && m > 0 && u == Lines()[k] && d == Lines()[k + m]
      requires from <= |u.text| && to <= |d.text| && |text| > 1
      modifies `g, g.text.Keys, g.heights.Keys, u, d
      ensures Valid() && OnlyNew() && Relined(k, k + m + 1, Glue(old(u.text)[..from], text, old(d.text)[to..]), estimate)
      ensures Stand(k, [u], |text| - 2, [d], old(g.heights.Keys))
    {
      hide Valid, Glue, Stand;
      ghost var head, tail := u.text[..from], d.text[to..];
      UpdateEnds(u, d, k, m, u.text[..from] + text[0], Last(text) + d.text[to..], estimate);
      ExchangeMiddle(u, d, k, m, head, text, tail, estimate);
    }

    /** New lines in front of line `d`, for a text that ends with a line break. */
    method NewWhole(ghost d: Line, text: seq<string>, estimate: string -> nat) returns (v: seq<Line>)
      requires |text| > 0 && Last(text) == "" && d.height == estimate(d.text)
      ensures NoDup(v) && |v| == |text| - 1 && forall i :: 0 <= i < |v| ==> fresh(v[i])
      ensures Shows(v + [d], Glue("", text, d.text), estimate)
    {
      v := NewLines(text, 0, |text| - 1, estimate);
      assert "" + Last(text) + d.text == d.text && "" + text[0] == text[0];
    }

    method ExchangeWhole(d: Line, k: nat, m: nat, text: seq<string>, ghost tail: string, estimate: string -> nat)
      requires Valid() && k + m < |Lines()| && d == Lines()[k + m] && d.text == tail && d.height == estimate(d.text)
      requires |text| > 0 && Last(text) == ""
      modifies `g, g.text.Keys, g.heights.Keys`parent
      ensures Valid() && OnlyNew() && Relined(k, k + m + 1, Glue("", text, tail), estimate) && Stand(k, [], |text| - 1, [d], old(g.heights.Keys))
    {
      hide Whole, BranchesSmall, LeafSizes, Shows, Glue, Rebuilt, Spliced, Without, NoDup, Stand;
      ghost var was, texts := Lines(), Glue("", text, tail);
      var v := NewWhole(d, text, estimate);
      StaysWhole(g);
      RebuiltByLines(was, k, m, v);
      Renew(k, m, v, k, k + m + 1, v + [was[k + m]], texts, estimate);
      assert [] + v + [d] == v + [was[k + m]];
      StandParts(k, [], v, [d], old(g.heights.Keys));
    }

    /** Whole lines in, whole lines out: the line behind the edit keeps its text, new lines come before it. */
    method ReplaceWhole(d: Line, k: nat, m: nat, text: seq<string>, estimate: string -> nat)
      requires Valid() && k + m < |Lines()| && d == Lines()[k + m] && |text| > 0 && Last(text) == ""
      modifies `g, g.text.Keys, g.heights.Keys, d
      ensures Valid() && OnlyNew() && Relined(k, k + m + 1, Glue("", text, old(d.text)), estimate) && Stand(k, [], |text| - 1, [d], old(g.heights.Keys))
    {
      hide Valid, Glue, Stand;
      ghost var tail := d.text;
      UpdateAt(d, k + m, d.text, estimate);
      ExchangeWhole(d, k, m, text, tail, estimate);
    }

    /** New lines take the place of all others: insert them first, then remove the rest. */
    method ExchangeAll(v: seq<Line>, ghost texts: seq<string>, ghost estimate: string -> nat)
      requires Valid() && |v| > 0 && NoDup(v) && (forall l :: l in v ==> l !in g.heights) && Shows(v, texts, estimate)
      modifies `g, g.text.Keys, g.heights.Keys`parent, v`parent
      ensures Valid() && OnlyFrom(v) && Lines() == v && Shows(v, texts, estimate)
    {
      hide Whole, BranchesSmall, LeafSizes;
      ghost var was := Lines();
      Exchange(0, 0, v, v, texts, estimate);
      assert Without(was, 0, 0) == was && Lines() == v + was;
      var size := Size();
      Exchange(|v|, size - |v|, [], v, texts, estimate);
      assert Lines() == v;
    }

    /** The whole text is new: all lines are. */
    method ReplaceAll(text: seq<string>, estimate: string -> nat)
      requires Valid() && |text| > 0
      modifies `g, g.text.Keys, g.heights.Keys`parent
      ensures Valid() && OnlyNew() && Relined(0, |old(Lines())|, text, estimate) && Stand(0, [], |text|, [], old(g.heights.Keys))
    {
      hide Whole, BranchesSmall, LeafSizes;
      var v := NewLines(text, 0, |text|, estimate);
      StaysWhole(g);
      ExchangeAll(v, text, estimate);
    }

    /**
     Which line objects an edit keeps of those it touches, `u` the first and `d` the last of them: none if the whole text is
     new, the last if whole lines are replaced by whole lines, the first if it stays one line or becomes one, and else both.
     */
    ghost predicate EndsStay(c: Change, full: bool, wholeLines: bool, u: Line, d: Line, before: set<Line>)
      requires |c.text| > 0 && c.from.line >= 0
      reads this
    {
      if full then Stand(0, [], |c.text|, [], before)
      else if IsWholeLineUpdate(c, wholeLines) then Stand(c.from.line, [], |c.text| - 1, [d], before)
      else if c.from.line == c.to.line || |c.text| == 1 then Stand(c.from.line, [u], |c.text| - 1, [], before)
      else Stand(c.from.line, [u], |c.text| - 2, [d], before)
    }

    /** The branches of updateDoc; `u` and `d` are the lines where the edit starts and ends. */
    method ApplyEdit(c: Change, full: bool, wholeLines: bool, u: Line, d: Line, estimate: string -> nat)
      requires Valid() && |c.text| > 0 && 0 <= c.from.line <= c.to.line < |Lines()| && u == Lines()[c.from.line] && d == Lines()[c.to.line]
      requires 0 <= c.from.ch <= |u.text| && 0 <= c.to.ch <= |d.text| && Cmp(c.from, c.to) <= 0
      requires full ==> c.from == Pos(0, 0) && c.to == Pos(|Lines()| - 1, |d.text|)
      modifies `g, g.text.Keys, g.heights.Keys
      ensures Valid() && OnlyNew()
      ensures Relined(c.from.line, c.to.line + 1, Glue(old(u.text)[..c.from.ch], c.text, old(d.text)[c.to.ch..]), estimate)
      ensures InPlace(c, full, wholeLines) ==> Lines() == old(Lines())
      ensures EndsStay(c, full, wholeLines, u, d, old(g.heights.Keys))
    {
      hide Whole, BranchesSmall, LeafSizes, Stand, Doc.Relined, OnlyNew;
      var k, m := c.from.line, c.to.line - c.from.line;
      SameLine(u, d, k, k + m);
      ghost var texts := Glue(u.text[..c.from.ch], c.text, d.text[c.to.ch..]);
      if full {
        GlueNothing(c.text);
        assert texts == c.text;
        ReplaceAll(c.text, estimate);
      } else if IsWholeLineUpdate(c, wholeLines) {
        assert texts == Glue("", c.text, d.text);
        ReplaceWhole(d, k, m, c.text, estimate);
      } else if u == d {
        if |c.text| == 1 {
          ReplaceInLine(u, k, c.from.ch, c.to.ch, c.text, estimate);
        } else {
          SplitLine(u, k, c.from.ch, c.to.ch, c.text, estimate);
        }
      } else if |c.text| == 1 {
        JoinLines(u, d, k, m, c.from.ch, c.to.ch, c.text, estimate);
      } else {
        ReplaceLines(u, d, k, m, c.from.ch, c.to.ch, c.text, estimate);
      }
    }

    /** The same line is at the same place. */
    lemma SameLine(u: Line, d: Line, i: nat, j: nat)
      requires Valid() && i <= j < |Lines()| && u == Lines()[i] && d == Lines()[j]
      ensures u == d <==> i == j
      ensures u in g.heights && d in g.heights
    {
      LinesOwned();
      assert Apart(Lines(), i, j) && LineUnder(g, root, u) && LineUnder(g, root, d);
    }

    /** The lines where an edit starts and ends. */
    method FindEnds(c: Change) returns (u: Line, d: Line)
      requires Valid() && ValidChange(Texts(), c)
      ensures Valid() && 0 <= c.from.line <= c.to.line < |Lines()| && u == Lines()[c.from.line] && d == Lines()[c.to.line]
      ensures u.text == Texts()[c.from.line] && d.text == Texts()[c.to.line]
    {
      hide Whole, BranchesSmall, LeafSizes;
      assert forall i :: 0 <= i < |Texts()| ==> Texts()[i] == Lines()[i].text;
      var found := GetLine(c.from.line);
      u := found.value;
      found := GetLine(c.to.line);
      d := found.value;
      StaysWhole(g);
    }

    /** Find the lines where the edit starts and ends, and edit them. */
    method EditLines(c: Change, full: bool, wholeLines: bool, estimate: string -> nat)
      requires Valid() && ValidChange(Texts(), c) && (full ==> c.from == Pos(0, 0) && c.to == EndPos(Texts()))
      modifies `g, g.text.Keys, g.heights.Keys
      ensures Valid() && OnlyNew() && Relined(c.from.line, c.to.line + 1, Glued(old(Texts()), c), estimate)
      ensures InPlace(c, full, wholeLines) ==> Lines() == old(Lines())
      ensures c.to.line < |old(Lines())| && EndsStay(c, full, wholeLines, old(Lines())[c.from.line], old(Lines())[c.to.line], old(g.heights.Keys))
    {
      hide Whole, BranchesSmall, LeafSizes, Stand, EndsStay;
      var u, d := FindEnds(c);
      ghost var texts := Glued(Texts(), c);
      assert texts == Glue(u.text[..c.from.ch], c.text, d.text[c.to.ch..]);
      ApplyEdit(c, full, wholeLines, u, d, estimate);
    }

    /** The texts after an edit, from the lines before it and the texts they had. */
    lemma TextsAfter(was: seq<Line>, d: seq<string>, c: Change)
      requires ValidChange(d, c) && |was| == |d| && |Lines()| == c.from.line + |c.text| + (|was| - (c.to.line + 1))
      requires Lines()[..c.from.line] == was[..c.from.line] && Lines()[c.from.line + |c.text|..] == was[c.to.line + 1..]
      requires forall i :: 0 <= i < c.from.line || c.to.line + 1 <= i < |was| ==> was[i].text == d[i]
      requires forall i :: 0 <= i < |c.text| ==> Lines()[c.from.line + i].text == Glued(d, c)[i]
      ensures Texts() == Splice(d, c)
    {
      OuterTexts(was, Lines(), d, c.from.line, |c.text|, c.to.line + 1);
      SpliceOfLines(d, Texts(), c);
    }

    /** updateDoc: carry out an edit on the tree of lines. */
    method UpdateDoc(c: Change, full: bool, wholeLines: bool, estimate: string -> nat)
      requires Valid() && ValidChange(Texts(), c) && (full ==> c.from == Pos(0, 0) && c.to == EndPos(Texts()))
      modifies `g, g.text.Keys, g.heights.Keys
      ensures Valid() && OnlyNew() && Relined(c.from.line, c.to.line + 1, Glued(old(Texts()), c), estimate)
      ensures InPlace(c, full, wholeLines) ==> Lines() == old(Lines())
      ensures c.to.line < |old(Lines())| && EndsStay(c, full, wholeLines, old(Lines())[c.from.line], old(Lines())[c.to.line], old(g.heights.Keys))
      ensures Texts() == Splice(old(Texts()), c)
    {
      hide Valid, Splice, Glue, Glued;
      ghost var was, d := Lines(), Texts();
      assert forall i :: 0 <= i < |d| ==> d[i] == was[i].text;
      EditLines(c, full, wholeLines, estimate);
      GluedLength(d, c);
      TextsAfter(was, d, c);
    }

    /** getLines: the texts of the lines from `start` up to `end`, gathered by a walk that is never told to stop. */
    method GetLines(start: nat, end: nat) returns (texts: seq<string>)
      requires Valid() && start <= end <= |Lines()|
      ensures texts == Texts()[start..end]
    {
      hide Structure, Balanced, BranchesSmall, LeafSizes, Upto, Flat;
      var lines, stopped := root.IterN(start, end - start, Never, [], g);
      NeverStops(Lines()[start..end]);
      assert lines == Lines()[start..end];
      texts := [];
      while |texts| < |lines|
        invariant |texts| <= |lines| && forall i :: 0 <= i < |texts| ==> texts[i] == lines[i].text
      {
        texts := texts + [lines[|texts|].text];
      }
    }

    /** getBetween: the lines that hold the text between two positions, cut at both ends. */
    method GetBetween(start: Pos, end: Pos) returns (out: seq<string>)
      requires Valid() && ValidPos(Texts(), start) && ValidPos(Texts(), end) && Cmp(start, end) <= 0
      ensures out == Between(Texts(), start, end)
    {
      hide Valid, Between, BetweenLine;
      var lines := GetLines(start.line, end.line + 1);
      out := [];
      var n := start.line;
      while n < end.line + 1
        invariant start.line <= n <= end.line + 1 && |out| == n - start.line
        invariant forall i :: 0 <= i < |out| ==> out[i] == BetweenLine(Texts(), start, end, i)
      {
        var text := lines[n - start.line];
        CutLine(Texts(), start, end, n - start.line);
        if n == end.line {
          text := text[..end.ch];
        }
        if n == start.line {
          text := text[start.ch..];
        }
        out, n := out + [text], n + 1;
      }
      BetweenLines(Texts(), start, end, out);
    }

    /** The number of lines, as the root counts them. */
    method Size() returns (n: nat)
      requires Valid()
      ensures n == |Lines()|
    {
      assert BodyOk(root, g) && TotalsOk(root, g);
      n := root.size;
    }

    /** getValue: the whole text as one string. */
    method GetValue(sep: string) returns (value: string)
      requires Valid()
      ensures value == Join(Texts(), sep)
    {
      var size := Size();
      var texts := GetLines(0, size);
      assert texts == Texts();
      var n := |texts| - 1;
      value := texts[n];
      assert texts[n..] == [texts[n]];
      while n > 0
        invariant 0 <= n < |texts| && value == Join(texts[n..], sep)
      {
        n := n - 1;
        assert texts[n..][1..] == texts[n + 1..];
        value := texts[n] + sep + value;
      }
      assert texts[0..] == texts;
    }

    /** In every branch of updateDoc the value of the document changes by a splice of strings. */
    method UpdateValue(c: Change, full: bool, wholeLines: bool, estimate: string -> nat, ghost sep: string)
      requires Valid() && ValidChange(Texts(), c) && (full ==> c.from == Pos(0, 0) && c.to == EndPos(Texts()))
      modifies `g, g.text.Keys, g.heights.Keys
      ensures Valid()
      ensures var i, j := old(Offset(Texts(), sep, c.from)), old(Offset(Texts(), sep, c.to));
        && i <= j <= |old(Join(Texts(), sep))|
        && Join(Texts(), sep) == old(Join(Texts(), sep))[..i] + Join(c.text, sep) + old(Join(Texts(), sep))[j..]
    {
      hide Whole, BranchesSmall, LeafSizes;
      SpliceIsStringSplice(Texts(), c, sep);
      UpdateDoc(c, full, wholeLines, estimate);
    }
  }

  function Never(line: Line): bool {
    false
  }

  lemma NeverStops(ls: seq<Line>)
    ensures [] + Upto(ls, Never) == ls
  {
    UptoIsPrefix(ls, Never);
  }

  /** The height of a line as long as there is nothing to measure it with. */
  function OneRow(text: string): nat {
    1
  }

  lemma StartText(text: seq<string>)
    requires |text| > 0
    ensures var c := Change(Pos(0, 0), Pos(0, 0), text); ValidChange([""], c) && Splice([""], c) == text
  {
    GlueNothing(text);
  }

  /** A new document with a text: an empty one, into which the text is put by an edit. */
  method NewDoc(text: seq<string>) returns (doc: Doc)
    requires |text| > 0
    ensures fresh(doc) && fresh(doc.g.text.Keys) && fresh(doc.g.heights.Keys) && doc.Valid() && doc.Texts() == text
  {
    hide Whole, BranchesSmall, LeafSizes, Splice, ValidChange;
    doc := new Doc.Empty();
    var start := Change(Pos(0, 0), Pos(0, 0), text);
    StartText(text);
    doc.UpdateDoc(start, false, true, OneRow);
  }
}
