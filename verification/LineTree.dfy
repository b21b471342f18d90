/**
 The tree of lines behind a document: leaf chunks hold lines, branch chunks hold chunks, every
 chunk knows its parent and caches how many lines and how much height lie below it.
 Every method takes the shape of the tree as a ghost value and returns the shape it leaves behind.
 */
module LineTree {
  import opened Graphs
  import opened Lists
  import opened Shapes
  import opened Walks

  type Shape = Graph<Chunk, Line>

  class Line {
    var text: string
    var height: nat
    var parent: Chunk?

    constructor (text: string, height: nat)
      ensures this.text == text && this.height == height && parent == null
    {
      this.text, this.height, parent := text, height, null;
    }
  }

  /** The lines or children a chunk stores agree with the shape. */
  ghost predicate BodyOk(c: Chunk, g: Shape)
    reads c`lines, c`children
  {
    && (c.leaf <==> c !in g.kids)
    && (if c.leaf then c in g.text && c.lines == g.text[c] else c.children == g.kids[c])
  }

  ghost predicate ParentOk(c: Chunk, g: Shape)
    reads c`parent
  {
    c.parent == if c in g.up then g.up[c] else null
  }

  /** The cached size and height of a chunk agree with the shape. */
  ghost predicate TotalsOk(c: Chunk, g: Shape)
    reads c`lines, c`size, c`height
  {
    && c in g.text
    && c.ChunkSize() == |g.text[c]|
    && c.height == Sum(g.text[c], g.heights)
  }

  ghost predicate ChunksOk(g: Shape, except: set<Chunk>)
    reads g.text.Keys
  {
    && (forall c {:trigger BodyOk(c, g)} :: c in g.text ==> BodyOk(c, g))
    && (forall c {:trigger ParentOk(c, g)} :: c in g.text ==> ParentOk(c, g))
    && (forall c {:trigger TotalsOk(c, g)} :: c in g.text && c !in except ==> TotalsOk(c, g))
  }

  /** The lines of a leaf are distinct and point to it. */
  ghost predicate Owns(c: Chunk, ls: seq<Line>)
    reads *
  {
    NoDup(ls) && forall l :: l in ls ==> l.parent == c
  }

  ghost predicate Known(ls: seq<Line>, g: Shape) {
    forall l :: l in ls ==> l in g.heights
  }

  ghost predicate OwnsText(c: Chunk, g: Shape)
    reads *
  {
    c in g.text && Known(g.text[c], g) && Owns(c, g.text[c])
  }

  /** Lines have the recorded heights and point to the leaf they are in. */
  ghost predicate LinesOk(g: Shape)
    reads *
  {
    && (forall l {:trigger g.heights[l]} :: l in g.heights ==> l.height == g.heights[l])
    && (forall c {:trigger OwnsText(c, g)} :: c in g.text && c !in g.kids ==> OwnsText(c, g))
  }

  /** The heap holds a well-formed tree of this shape. */
  ghost predicate Whole(g: Shape)
    reads *
  {
    Structure(g) && Balanced(g, {}) && ChunksOk(g, {}) && LinesOk(g)
  }

  /** A tree stays as it is when only other objects change. */
  twostate lemma StaysWhole(g: Shape)
    requires old(Whole(g)) && unchanged(g.text.Keys) && unchanged(g.heights.Keys`height) && unchanged(g.heights.Keys`parent)
    ensures Whole(g)
  {
    forall c | c in g.text ensures BodyOk(c, g) && ParentOk(c, g) && TotalsOk(c, g) {
      assert old(BodyOk(c, g)) && old(ParentOk(c, g)) && old(TotalsOk(c, g));
    }
    forall c | c in g.text && c !in g.kids ensures OwnsText(c, g) {
      assert old(OwnsText(c, g));
    }
  }

  /** A chunk is in order as long as its own fields stay. */
  twostate lemma FieldsStay(g: Shape)
    ensures forall c {:trigger BodyOk(c, g)} :: c in g.text ==>
      (old(BodyOk(c, g)) && c.lines == old(c.lines) && c.children == old(c.children) ==> BodyOk(c, g))
    ensures forall c {:trigger ParentOk(c, g)} :: c in g.text ==>
      (old(ParentOk(c, g)) && c.parent == old(c.parent) ==> ParentOk(c, g))
    ensures forall c {:trigger TotalsOk(c, g)} :: c in g.text ==>
      (old(TotalsOk(c, g)) && c.lines == old(c.lines) && c.size == old(c.size) && c.height == old(c.height) ==> TotalsOk(c, g))
  {
  }

  /** A leaf owns its lines as long as these keep their parents. */
  twostate lemma OwnersStay(g: Shape)
    ensures forall c {:trigger OwnsText(c, g)} :: c in g.text ==>
      (old(OwnsText(c, g)) && (forall l :: l in g.text[c] ==> l.parent == old(l.parent)) ==> OwnsText(c, g))
  {
  }

  /** The heap after a branch has handed its last children to a new sibling. */
  ghost predicate SplitDone(g: Shape, e: Chunk, t: Chunk, k: nat, i: nat)
    requires e in g.kids && e in g.up && g.up[e] in g.kids && e in g.text && k <= |g.kids[e]| && i < |g.kids[g.up[e]]|
    reads g.text.Keys, t, e, g.up[e]
  {
    var p := g.up[e];
    && !e.leaf && !t.leaf && !p.leaf
    && e.children == g.kids[e][..k] && t.children == g.kids[e][k..]
    && p.children == g.kids[p][..i + 1] + [t] + g.kids[p][i + 1..]
    && t.size == |Flat(t.children, g.text)| && t.height == Sum(Flat(t.children, g.text), g.heights)
    && e.size == |g.text[e]| - t.size && e.height == Sum(g.text[e], g.heights) - t.height
    && t.parent == p
    && (forall c {:trigger c.parent} :: c in g.text && c in t.children ==> c.parent == t)
    && (forall c {:trigger BodyOk(c, g)} :: c in g.text && c != e && c != p ==> BodyOk(c, g))
    && (forall c {:trigger ParentOk(c, g)} :: c in g.text && c !in t.children ==> ParentOk(c, g))
    && (forall c {:trigger TotalsOk(c, g)} :: c in g.text && c != e ==> TotalsOk(c, g))
  }

  lemma SplitDoneOk(g: Shape, g': Shape, e: Chunk, t: Chunk, k: nat, i: nat)
    requires IsSplit(g, g', e, t, k, i) && SplitDone(g, e, t, k, i)
    ensures ChunksOk(g', {})
  {
    SumAppend(g'.text[e], g'.text[t], g.heights);
    forall c | c in g'.text ensures BodyOk(c, g') && ParentOk(c, g') && TotalsOk(c, g') {
      if c != t {
        assert ParentOk(c, g) || c in t.children;
        assert BodyOk(c, g) || c == e || c == g.up[e];
        assert TotalsOk(c, g) || c == e;
      }
    }
  }

  /** The heap after the root has handed all its children to two new branches. */
  ghost predicate LevelAdded(g: Shape, r: Chunk, n: Chunk, t: Chunk, k: nat)
    requires r in g.kids && r in g.text && k <= |g.kids[r]|
    reads g.text.Keys, n, t, r
  {
    && !r.leaf && !n.leaf && !t.leaf
    && r.children == [n, t] && n.children == g.kids[r][..k] && t.children == g.kids[r][k..]
    && t.size == |Flat(t.children, g.text)| && t.height == Sum(Flat(t.children, g.text), g.heights)
    && n.size == |Flat(n.children, g.text)| && n.height == Sum(Flat(n.children, g.text), g.heights)
    && r.size == |g.text[r]| && r.height == Sum(g.text[r], g.heights)
    && n.parent == r && t.parent == r
    && (forall c {:trigger c.parent} :: c in g.text && c in g.kids[r] ==> c.parent == if c in t.children then t else n)
    && (forall c {:trigger BodyOk(c, g)} :: c in g.text && c != r ==> BodyOk(c, g))
    && (forall c {:trigger ParentOk(c, g)} :: c in g.text && c !in g.kids[r] ==> ParentOk(c, g))
    && (forall c {:trigger TotalsOk(c, g)} :: c in g.text && c != r ==> TotalsOk(c, g))
  }

  lemma LevelAddedSizes(g: Shape, g1: Shape, r: Chunk, n: Chunk, t: Chunk, k: nat)
    requires IsWrap(g, g1, n) && t !in g1.text
    requires r == g.root && k <= |g.kids[r]| && LevelAdded(g, r, n, t, k)
    requires g.text[g.root] == Flat(g.kids[g.root], g.text)
    ensures n.size == |g1.text[n]| - t.size && n.height == Sum(g1.text[n], g1.heights) - t.height
    ensures t.size == |Flat(t.children, g1.text)| && t.height == Sum(Flat(t.children, g1.text), g1.heights)
  {
    var ks := g.kids[g.root];
    assert ks == ks[..k] + ks[k..];
    FlatAppend(ks[..k], ks[k..], g.text);
    SumAppend(Flat(ks[..k], g.text), Flat(ks[k..], g.text), g.heights);
    FlatSame(t.children, g.text, g1.text);
  }

  lemma LevelAddedTotals(g: Shape, g1: Shape, r: Chunk, n: Chunk, t: Chunk, k: nat)
    requires IsWrap(g, g1, n) && t !in g1.text
    requires r == g.root && k <= |g.kids[r]| && LevelAdded(g, r, n, t, k)
    ensures forall c {:trigger TotalsOk(c, g1)} :: c in g1.text && c != n ==> TotalsOk(c, g1)
    ensures forall c {:trigger BodyOk(c, g1)} :: c in g1.text && c != n && c != g.root ==> BodyOk(c, g1)
  {
    forall c | c in g1.text && c != n ensures TotalsOk(c, g1) && (c != g.root ==> BodyOk(c, g1)) {
      assert c != g.root ==> TotalsOk(c, g) && BodyOk(c, g);
    }
  }

  lemma LevelAddedParents(g: Shape, g1: Shape, r: Chunk, n: Chunk, t: Chunk, k: nat)
    requires IsWrap(g, g1, n) && t !in g1.text
    requires r == g.root && k <= |g.kids[r]| && LevelAdded(g, r, n, t, k)
    ensures forall c {:trigger ParentOk(c, g1)} :: c in g1.text && c !in t.children ==> ParentOk(c, g1)
  {
    forall c | c in g1.text && c !in t.children ensures ParentOk(c, g1) {
      assert c in g.text && c !in g.kids[g.root] ==> ParentOk(c, g);
    }
  }

  /** Read on the shape with one new level, this is a branch that has handed its last children to a sibling. */
  lemma LevelAddedOk(g: Shape, g1: Shape, r: Chunk, n: Chunk, t: Chunk, k: nat)
    requires IsWrap(g, g1, n) && t !in g1.text
    requires r == g.root && k <= |g.kids[r]| && LevelAdded(g, r, n, t, k)
    requires g.text[g.root] == Flat(g.kids[g.root], g.text)
    ensures g1.up[n] == g.root && |g1.kids[g.root]| == 1 && SplitDone(g1, n, t, k, 0)
  {
    LevelAddedSizes(g, g1, r, n, t, k);
    LevelAddedTotals(g, g1, r, n, t, k);
    LevelAddedParents(g, g1, r, n, t, k);
  }

  lemma RootSplitHeap(g: Shape, r: Chunk, n: Chunk, t: Chunk, k: nat)
    requires r == g.root && r in g.kids && r in g.text && k <= |g.kids[r]| && LevelAdded(g, r, n, t, k)
    requires g.text[g.root] == Flat(g.kids[g.root], g.text)
    ensures forall g1, g' {:trigger IsWrap(g, g1, n), IsSplit(g1, g', n, t, k, 0)} ::
      IsWrap(g, g1, n) && t !in g1.text && IsSplit(g1, g', n, t, k, 0) ==> ChunksOk(g', {})
  {
    hide IsWrap, IsSplit, ChunksOk, SplitDone, LevelAdded;
    forall g1, g' | IsWrap(g, g1, n) && t !in g1.text && IsSplit(g1, g', n, t, k, 0) ensures ChunksOk(g', {}) {
      LevelAddedOk(g, g1, r, n, t, k);
      SplitDoneOk(g1, g', n, t, k, 0);
    }
  }

  /** The tree after the root has handed its children to two new branches. */
  lemma RootSplitOk(g: Shape, r: Chunk, n: Chunk, t: Chunk) returns (g': Shape)
    requires Structure(g) && Balanced(g, {}) && n !in g.text && t !in g.text && n != t
    requires r == g.root && r in g.kids && r in g.text && |g.kids[r]| > 10 && BranchesSmall(g, {r})
    requires LevelAdded(g, r, n, t, |g.kids[r]| - 5)
    ensures Structure(g') && Balanced(g', {}) && ChunksOk(g', {}) && Grown(g, g')
    ensures forall c :: c in g'.text ==> c in g.text || c == n || c == t
    ensures n in g'.kids && |g'.kids[n]| == |g.kids[r]| - 5 && n in g'.up && g'.up[n] == r
    ensures r in g'.kids && |g'.kids[r]| == 2 && BranchesSmall(g', {n, r})
  {
    hide Structure, Balanced, BranchesSmall, Grown, IsWrap, IsSplit, SplitDone, ChunksOk;
    RootText(g);
    var k := |g.kids[r]| - 5;
    RootSplitHeap(g, r, n, t, k);
    var g1;
    g1, g' := RootSplitShapes(g, n, t, k);
  }

  /** A leaf below `p` that was cut off, with its lines. */
  ghost predicate NewLeafOk(c: Chunk, p: Chunk, ls: seq<Line>, g: Shape)
    reads *
  {
    && c.leaf && c.parent == p && c.lines == ls && |ls| == 25 && c.height == Sum(ls, g.heights)
    && Known(ls, g) && Owns(c, ls)
  }

  /** The leaves that were cut off so far; their lines are not among the rest. */
  ghost predicate PiecesOk(new_: seq<Chunk>, pieces: map<Chunk, seq<Line>>, p: Chunk, rest: seq<Line>, g: Shape)
    reads *
  {
    && (forall c :: c in pieces ==> c in new_)
    && (forall c :: c in new_ ==> c in pieces && NewLeafOk(c, p, pieces[c], g) && NoneShared(pieces[c], rest))
  }

  ghost predicate Measured(ls: seq<Line>, g: Shape)
    reads *
  {
    forall l :: l in ls ==> l in g.heights && l.height == g.heights[l]
  }

  /** A new leaf joins those cut off before. */
  lemma NoPieces(p: Chunk, rest: seq<Line>, g: Shape)
    ensures PiecesOk([], map[], p, rest, g) && Flat<Chunk, Line>([], map[]) == []
    ensures Sum(Flat<Chunk, Line>([], map[]), g.heights) == 0
  {
  }

  lemma PiecesGrow(new_: seq<Chunk>, pieces: map<Chunk, seq<Line>>, new1: seq<Chunk>, pieces1: map<Chunk, seq<Line>>,
                   l: Chunk, p: Chunk, rest: seq<Line>, g: Shape)
    requires |rest| >= 25 && NoDup(rest) && PiecesOk(new_, pieces, p, rest, g) && NewLeafOk(l, p, rest[..25], g)
    requires (forall c :: c in new1 ==> c in pieces1) && (forall c :: c in pieces1 ==> c in new1)
    requires forall c :: c in new1 ==> c == l || c in new_
    requires l in pieces1 && pieces1[l] == rest[..25]
    requires forall c :: c in new_ ==> c in pieces1 && pieces1[c] == pieces[c]
    ensures PiecesOk(new1, pieces1, p, rest[25..], g)
  {
    NoDupCut(rest, 25);
    forall c | c in new1 ensures NewLeafOk(c, p, pieces1[c], g) && NoneShared(pieces1[c], rest[25..]) {
      if c in new_ {
        NoneSharedCut(pieces[c], rest, 25);
      }
    }
  }

  ghost predicate LinesOkBut(g: Shape, e: Chunk)
    reads *
  {
    && (forall l {:trigger g.heights[l]} :: l in g.heights ==> l.height == g.heights[l])
    && (forall c {:trigger OwnsText(c, g)} :: c in g.text && c !in g.kids && c != e ==> OwnsText(c, g))
  }

  /** The heap after the leaf `e`, child `n` of `p`, has been cut: it keeps `first` and the new leaves hold the pieces. */
  ghost predicate CutDone(g: Shape, p: Chunk, e: Chunk, n: nat, first: seq<Line>, new_: seq<Chunk>, pieces: map<Chunk, seq<Line>>)
    requires p in g.kids && n < |g.kids[p]|
    reads *
  {
    && !p.leaf && p.children == g.kids[p][..n + 1] + new_ + g.kids[p][n + 1..]
    && e.leaf && e.lines == first && e.height == Sum(first, g.heights) && Known(first, g) && Owns(e, first)
    && PiecesOk(new_, pieces, p, [], g)
    && (forall c {:trigger BodyOk(c, g)} :: c in g.text && c != e && c != p ==> BodyOk(c, g))
    && (forall c {:trigger ParentOk(c, g)} :: c in g.text ==> ParentOk(c, g))
    && (forall c {:trigger TotalsOk(c, g)} :: c in g.text && c != e ==> TotalsOk(c, g))
  }

  lemma CutDoneChunks(g: Shape, g': Shape, p: Chunk, e: Chunk, n: nat, first: seq<Line>, new_: seq<Chunk>, pieces: map<Chunk, seq<Line>>)
    requires IsAddLeaves(g, g', e, n, first, new_, pieces) && p == g.up[e]
    requires CutDone(g, p, e, n, first, new_, pieces)
    ensures ChunksOk(g', {})
  {
    forall c | c in g'.text ensures BodyOk(c, g') && ParentOk(c, g') && TotalsOk(c, g') {
      if c in new_ {
        assert NewLeafOk(c, p, pieces[c], g);
      } else {
        assert ParentOk(c, g);
        assert c in g'.up <==> c in g.up;
        assert c != e && c != p ==> BodyOk(c, g);
        assert c != e ==> TotalsOk(c, g);
      }
    }
  }

  lemma CutDoneSizes(g: Shape, g': Shape, p: Chunk, e: Chunk, n: nat, first: seq<Line>, new_: seq<Chunk>, pieces: map<Chunk, seq<Line>>)
    requires IsAddLeaves(g, g', e, n, first, new_, pieces) && p == g.up[e] && 25 <= |first| < 50
    requires CutDone(g, p, e, n, first, new_, pieces)
    requires BranchesSmall(g, {}) && LeafSizes(g, {e}) && g.root in g.kids && g.root in g.text
    ensures |g'.kids[p]| > 0 && BranchesSmall(g', {p}) && LeafSizes(g', {})
    ensures SameRoot(g, g') && g'.text[g.root] == g.text[g.root]
  {
    forall c | c in g'.text && c !in g'.kids ensures 0 < |g'.text[c]| <= 50 {
      if c in new_ {
        assert NewLeafOk(c, p, pieces[c], g);
      }
    }
    forall c | c in g.text ensures c in g'.text {
      var lines := g.text[c];
    }
  }

  lemma CutDoneShape(g: Shape, p: Chunk, e: Chunk, n: nat, first: seq<Line>, new_: seq<Chunk>, pieces: map<Chunk, seq<Line>>)
    returns (g': Shape)
    requires CanAddLeaves(g, e, n, first, new_, pieces) && Balanced(g, {}) && p == g.up[e] && 25 <= |first| < 50
    requires CutDone(g, p, e, n, first, new_, pieces)
    requires LinesOkBut(g, e)
    requires BranchesSmall(g, {}) && LeafSizes(g, {e})
    ensures Structure(g') && Balanced(g', {}) && ChunksOk(g', {}) && LinesOk(g')
    ensures SameRoot(g, g') && g'.text[g.root] == g.text[g.root]
    ensures p in g'.kids && |g'.kids[p]| > 0 && BranchesSmall(g', {p}) && LeafSizes(g', {})
    ensures forall c :: c in g'.text ==> c in g.text || c in new_
  {
    g' := AddLeavesOk(g, e, n, first, new_, pieces);
    CutDoneChunks(g, g', p, e, n, first, new_, pieces);
    CutDoneLines(g, g', p, e, n, first, new_, pieces);
    CutDoneSizes(g, g', p, e, n, first, new_, pieces);
    forall c | c in g'.text ensures c in g.text || c in new_ {
      var lines := g'.text[c];
    }
  }

  lemma CutDoneLines(g: Shape, g': Shape, p: Chunk, e: Chunk, n: nat, first: seq<Line>, new_: seq<Chunk>, pieces: map<Chunk, seq<Line>>)
    requires IsAddLeaves(g, g', e, n, first, new_, pieces) && p == g.up[e]
    requires CutDone(g, p, e, n, first, new_, pieces)
    requires LinesOkBut(g, e)
    ensures LinesOk(g')
  {
    forall c | c in g'.text && c !in g'.kids ensures OwnsText(c, g') {
      if c in new_ {
        assert NewLeafOk(c, p, pieces[c], g);
      } else if c != e {
        assert OwnsText(c, g);
      }
    }
  }

  /** Lines that are about to be inserted: distinct, measured, and not in the tree. */
  ghost predicate Incoming(ls: seq<Line>, g: Shape)
    reads *
  {
    && NoDup(ls) && Measured(ls, g)
    && (forall c {:trigger g.text[c]} :: c in g.text && c !in g.kids ==> NoneShared(ls, g.text[c]))
  }

  /** The heap after a chunk has taken in new lines, on the shape that has them too. */
  lemma RetextChunks(g: Shape, g': Shape, c: Chunk, ls: seq<Line>)
    requires IsRetext(g, g', c, ls)
    requires TotalsOk(c, g') && BodyOk(c, g')
    requires forall x {:trigger BodyOk(x, g)} :: x in g.text && x != c ==> BodyOk(x, g)
    requires forall x {:trigger ParentOk(x, g)} :: x in g.text ==> ParentOk(x, g)
    requires forall x {:trigger TotalsOk(x, g)} :: x in g.text && x != c ==> TotalsOk(x, g)
    ensures ChunksOk(g', {})
  {
    forall x | x in g'.text ensures BodyOk(x, g') && ParentOk(x, g') && TotalsOk(x, g') {
      assert ParentOk(x, g);
      assert x != c ==> BodyOk(x, g) && TotalsOk(x, g);
    }
  }

  /** The heap after a chunk has taken in the lines `ls`. */
  ghost predicate TakeDone(g: Shape, c: Chunk, at: nat, ls: seq<Line>)
    requires c in g.text && at <= |g.text[c]|
    reads *
  {
    && (c.leaf <==> c !in g.kids)
    && (if c.leaf then c.lines == Spliced(g.text[c], at, ls) && Owns(c, c.lines) && Known(c.lines, g)
        else c.children == g.kids[c] && c.size == |g.text[c]| + |ls|)
    && c.height == Sum(g.text[c], g.heights) + Sum(ls, g.heights)
    && (forall x {:trigger BodyOk(x, g)} :: x in g.text && x != c ==> BodyOk(x, g))
    && (forall x {:trigger ParentOk(x, g)} :: x in g.text ==> ParentOk(x, g))
    && (forall x {:trigger TotalsOk(x, g)} :: x in g.text && x != c ==> TotalsOk(x, g))
    && LinesOkBut(g, c)
  }

  lemma TakenShape(g: Shape, c: Chunk, at: nat, ls: seq<Line>) returns (g': Shape)
    requires Structure(g) && Pending(g, c, at, ls) && TakeDone(g, c, at, ls)
    ensures IsRetext(g, g', c, Spliced(g.text[c], at, ls)) && Structure(g') && ChunksOk(g', {}) && LinesOk(g')
    ensures Balanced(g', if c in g.kids then {c} else {})
  {
    g' := PendingTaken(g, c, at, ls);
    SumSpliced(g.text[c], at, ls, g.heights);
    RetextChunks(g, g', c, Spliced(g.text[c], at, ls));
    RetextLines(g, g', c, Spliced(g.text[c], at, ls));
  }

  lemma RetextLines(g: Shape, g': Shape, c: Chunk, ls: seq<Line>)
    requires IsRetext(g, g', c, ls) && LinesOkBut(g, c)
    requires c !in g.kids ==> Known(ls, g) && Owns(c, ls)
    ensures LinesOk(g')
  {
    forall x | x in g'.text && x !in g'.kids ensures OwnsText(x, g') {
      assert x != c ==> OwnsText(x, g);
    }
  }

  /** More branches over the same leaves: the lines are as they were. */
  lemma GrownLeaves(g: Shape, g': Shape)
    requires Grown(g, g') && LinesOk(g) && LeafSizes(g, {})
    ensures LinesOk(g') && LeafSizes(g', {}) && SameRoot(g, g')
  {
    forall c | c in g'.text && c !in g'.kids ensures OwnsText(c, g') {
      assert g'.text[c] == g.text[c] && OwnsText(c, g);
    }
  }

  /** What an insertion starts from and what it leaves behind. */
  ghost predicate ReadyToInsert(g: Shape, c: Chunk, at: nat, ls: seq<Line>, h: int)
    reads *
  {
    && Structure(g) && Pending(g, c, at, ls) && ChunksOk(g, {}) && LinesOk(g)
    && Incoming(ls, g) && h == Sum(ls, g.heights)
    && BranchesSmall(g, {}) && LeafSizes(g, {})
  }

  lemma BranchTaken(g: Shape, c: Chunk, at: nat, ls: seq<Line>) returns (g': Shape)
    requires Structure(g) && Pending(g, c, at, ls) && TakeDone(g, c, at, ls) && c in g.kids
    requires BranchesSmall(g, {}) && LeafSizes(g, {}) && Incoming(ls, g)
    ensures IsRetext(g, g', c, Spliced(g.text[c], at, ls)) && Structure(g') && ChunksOk(g', {}) && LinesOk(g')
    ensures Balanced(g', {c}) && BranchesSmall(g', {}) && LeafSizes(g', {}) && Incoming(ls, g')
  {
    g' := TakenShape(g, c, at, ls);
    RetextSizes(g, g', c, Spliced(g.text[c], at, ls));
    forall x | x in g'.text && x !in g'.kids ensures 0 < |g'.text[x]| <= 50 && NoneShared(ls, g'.text[x]) {
      assert g'.text[x] == g.text[x];
    }
  }

  lemma LeafTaken(g: Shape, c: Chunk, at: nat, ls: seq<Line>) returns (g': Shape)
    requires Structure(g) && Pending(g, c, at, ls) && TakeDone(g, c, at, ls) && c in g.up && c !in g.kids
    requires BranchesSmall(g, {}) && LeafSizes(g, {})
    ensures IsRetext(g, g', c, Spliced(g.text[c], at, ls)) && Whole(g') && SameRoot(g, g') && g'.text[g.root] == g.text[g.root]
    ensures BranchesSmall(g', {}) && LeafSizes(g', {c}) && 0 < |g'.text[c]|
  {
    g' := TakenShape(g, c, at, ls);
    RetextSizes(g, g', c, Spliced(g.text[c], at, ls));
  }

  /** The child an insertion falls into is ready for it. */
  lemma ReadyBelow(g: Shape, g': Shape, c: Chunk, n: nat, at: nat, e: nat, ls: seq<Line>, h: int)
    requires Structure(g) && c in g.kids && c in g.text && n < |g.kids[c]| && at <= |g.text[c]|
    requires g.text[c] == Flat(g.kids[c], g.text)
    requires g.kids[c][n] in g.text && at == |Flat(g.kids[c][..n], g.text)| + e && e <= |g.text[g.kids[c][n]]|
    requires IsRetext(g, g', c, Spliced(g.text[c], at, ls)) && Structure(g') && ChunksOk(g', {}) && LinesOk(g')
    requires Balanced(g', {c}) && BranchesSmall(g', {}) && LeafSizes(g', {}) && Incoming(ls, g') && h == Sum(ls, g'.heights)
    ensures ReadyToInsert(g', g.kids[c][n], e, ls, h)
    ensures RankOf(g', g.kids[c][n]) < RankOf(g, c) && g.kids[c][n] != g.root
  {
    PendingDown(g, g', c, n, at, e, ls);
  }

  // ----- removal

  /** Outside `X`, the chunks above `c` that wait for their share, the tree is whole. */
  ghost predicate ReadyToRemove(g: Shape, c: Chunk, X: set<Chunk>)
    reads *
  {
    && Structure(g) && Balanced(g, X) && ChunksOk(g, X) && LinesOk(g) && BranchesSmall(g, {}) && LeafSizes(g, {})
    && c in g.text && c !in X && (c in g.up ==> g.up[c] in X)
    && (forall x {:trigger x in X} :: x in X ==> x in g.text && !Under(g, x, c))
  }

  /** `c` has lost its lines, and the rest of the tree has not changed. */
  ghost predicate Removed(g: Shape, g': Shape, c: Chunk, ls: seq<Line>, X: set<Chunk>)
    reads *
  {
    && Structure(g') && Balanced(g', X) && ChunksOk(g', X) && LinesOk(g') && BranchesSmall(g', {}) && LeafSizesBut(g', c)
    && SameOutside(g, g', c) && g'.text[c] == ls
    && c in g.rank && c in g'.rank && g'.rank[c] == g.rank[c]
  }

  /** The same, with what the heap keeps: the totals of the chunks that wait, and no chunk from elsewhere. */
  twostate predicate Removal(g: Shape, new g': Shape, c: Chunk, new ls: seq<Line>, X: set<Chunk>)
    reads *
  {
    && Removed(g, g', c, ls, X)
    && (forall x {:trigger x in X} :: x in X ==> x.size == old(x.size) && x.height == old(x.height))
    && (forall x {:trigger x in g'.text} :: x in g'.text && x !in g.text ==> fresh(x))
  }

  /** A child `c` of `p` has lost lines, and `p` the height that goes with them. */
  twostate predicate ChildRemoval(g: Shape, new g': Shape, c: Chunk, p: Chunk, new ls: seq<Line>, X: set<Chunk>)
    reads *
  {
    && Removed(g, g', c, ls, X) && c in g.text
    && p.size == old(p.size) && p.height == old(p.height) - (Sum(g.text[c], g.heights) - Sum(ls, g.heights))
    && (forall x {:trigger x in X} :: x in X && x != p ==> x.size == old(x.size) && x.height == old(x.height))
    && (forall x {:trigger x in g'.text} :: x in g'.text && x !in g.text ==> fresh(x))
  }

  /** The heap after a leaf has lost some lines. */
  ghost predicate LeafRemoveDone(g: Shape, c: Chunk, ls: seq<Line>, X: set<Chunk>)
    reads *
  {
    && c.leaf && c.lines == ls && Owns(c, ls) && Known(ls, g) && c.height == Sum(ls, g.heights)
    && (forall x {:trigger BodyOk(x, g)} :: x in g.text && x != c ==> BodyOk(x, g))
    && (forall x {:trigger ParentOk(x, g)} :: x in g.text ==> ParentOk(x, g))
    && (forall x {:trigger TotalsOk(x, g)} :: x in g.text && x != c && x !in X ==> TotalsOk(x, g))
    && LinesOkBut(g, c)
  }

  lemma LeafRemoveShape(g: Shape, c: Chunk, ls: seq<Line>, X: set<Chunk>) returns (g': Shape)
    requires Structure(g) && Balanced(g, X) && BranchesSmall(g, {}) && LeafSizes(g, {})
    requires c in g.text && c !in g.kids && c !in X && (c in g.up ==> g.up[c] in X)
    requires LeafRemoveDone(g, c, ls, X) && |ls| <= |g.text[c]|
    ensures Removed(g, g', c, ls, X)
    ensures forall x {:trigger x in g'.text} :: x in g'.text ==> x in g.text
  {
    g' := RetextLeaf(g, c, ls, X);
    forall x | x in g'.text ensures x in g.text {
    }
    RetextLines(g, g', c, ls);
    RetextChunksBut(g, g', c, ls, X);
    forall x | x in g'.text && x !in g'.kids
      ensures |g'.text[x]| <= 50 && (|g'.text[x]| > 0 || (g'.text[c] == [] && Under(g', x, c)))
    {
      assert 0 < |g.text[x]| <= 50;
    }
  }

  lemma RetextChunksBut(g: Shape, g': Shape, c: Chunk, ls: seq<Line>, X: set<Chunk>)
    requires IsRetext(g, g', c, ls)
    requires BodyOk(c, g') && TotalsOk(c, g')
    requires forall x {:trigger BodyOk(x, g)} :: x in g.text && x != c ==> BodyOk(x, g)
    requires forall x {:trigger ParentOk(x, g)} :: x in g.text ==> ParentOk(x, g)
    requires forall x {:trigger TotalsOk(x, g)} :: x in g.text && x != c && x !in X ==> TotalsOk(x, g)
    ensures ChunksOk(g', X)
  {
    forall x | x in g'.text ensures BodyOk(x, g') && ParentOk(x, g') {
      assert ParentOk(x, g) && (x != c ==> BodyOk(x, g));
    }
    forall x | x in g'.text && x !in X ensures TotalsOk(x, g') {
      assert x != c ==> TotalsOk(x, g);
    }
  }

  /** The state of a branch `p` between two turns of its removal loop. */
  ghost predicate Removing(g0: Shape, g: Shape, p: Chunk, X: set<Chunk>)
    reads *
  {
    Progress(g0, g, p, X) && ChunksOk(g, X + {p}) && LinesOk(g) && BranchesSmall(g, {p}) && |g.kids[p]| <= 10
  }

  /** The heap after the empty child `r` has left its parent. */
  ghost predicate DropDone(g: Shape, p: Chunk, r: nat, X: set<Chunk>)
    requires p in g.kids && r < |g.kids[p]|
    reads *
  {
    var c := g.kids[p][r];
    && !p.leaf && p.children == g.kids[p][..r] + g.kids[p][r + 1..]
    && (forall x {:trigger BodyOk(x, g)} :: x in g.text && x != p ==> BodyOk(x, g))
    && (forall x {:trigger ParentOk(x, g)} :: x in g.text && x != c ==> ParentOk(x, g))
    && (forall x {:trigger TotalsOk(x, g)} :: x in g.text && x !in X ==> TotalsOk(x, g))
    && LinesOk(g)
  }

  lemma DropDoneOk(g: Shape, g': Shape, p: Chunk, r: nat, X: set<Chunk>)
    requires IsDrop(g, g', p, r) && DropDone(g, p, r, X) && g'.heights == g.heights
    requires BranchesSmall(g, {p}) && LeafSizesBut(g, g.kids[p][r])
    ensures ChunksOk(g', X) && LinesOk(g') && BranchesSmall(g', {p}) && LeafSizes(g', {})
  {
    var c := g.kids[p][r];
    forall x | x in g'.text ensures BodyOk(x, g') && ParentOk(x, g') && (x !in X ==> TotalsOk(x, g')) {
      assert g'.text[x] == g.text[x] && !Under(g, x, c) && x != c;
      assert ParentOk(x, g) && (x != p ==> BodyOk(x, g)) && (x !in X ==> TotalsOk(x, g));
    }
    forall x | x in g'.text && x !in g'.kids ensures OwnsText(x, g') && 0 < |g'.text[x]| <= 50 {
      assert g'.text[x] == g.text[x] && OwnsText(x, g) && !Under(g, x, c);
    }
  }

  lemma DropShape(g0: Shape, g: Shape, p: Chunk, r: nat, X: set<Chunk>) returns (g': Shape)
    requires Structure(g0) && Progress(g0, g, p, X) && r < |g.kids[p]| && DropDone(g, p, r, X + {p})
    requires BranchesSmall(g, {p}) && |g.kids[p]| <= 10 && LeafSizesBut(g, g.kids[p][r])
    requires g.kids[p][r] in g.text && g.text[g.kids[p][r]] == []
    ensures Removing(g0, g', p, X) && LeafSizes(g', {})
    ensures g'.kids[p] == g.kids[p][..r] + g.kids[p][r + 1..]
    ensures Flat(g'.kids[p], g'.text) == Flat(g.kids[p], g.text)
    ensures Flat(g'.kids[p][..r], g'.text) == Flat(g.kids[p][..r], g.text)
    ensures forall c :: c in g'.text ==> c in g.text
  {
    g' := DropChildOk(g, p, r, X + {p});
    DropDoneOk(g, g', p, r, X + {p});
    ProgressStep(g0, g, g', p, X);
    forall c | c in g'.text ensures c in g.text {
      assert g'.text[c] == g.text[c];
    }
  }

  lemma ChildRemovedOk(g0: Shape, g: Shape, g': Shape, p: Chunk, r: nat, at: nat, m: nat, X: set<Chunk>)
    requires Structure(g0) && Progress(g0, g, p, X) && r < |g.kids[p]| && |g.kids[p]| <= 10
    requires g.kids[p][r] in g.text && at + m <= |g.text[g.kids[p][r]]|
    requires Removed(g, g', g.kids[p][r], Without(g.text[g.kids[p][r]], at, m), X + {p})
    ensures Removing(g0, g', p, X) && g'.kids[p] == g.kids[p]
    ensures forall k :: k in g.kids[p] && k != g.kids[p][r] ==> k in g.text && k in g'.text && g'.text[k] == g.text[k]
  {
    ProgressChild(g0, g, g', p, X, r);
  }

  twostate predicate SameTotals(X: set<Chunk>)
    reads *
  {
    forall x {:trigger x in X} :: x in X ==> x.size == old(x.size) && x.height == old(x.height)
  }

  /** What the removal loop of `p` leaves in place: its size, the chunks that wait, and no chunk from elsewhere. */
  twostate predicate Steady(g: Shape, new g': Shape, p: Chunk, X: set<Chunk>)
    reads *
  {
    && p.size == old(p.size) && SameTotals(X)
    && (forall x {:trigger x in g'.text} :: x in g'.text && x !in g.text ==> fresh(x))
  }

  /** Before its turn a child is ready for a removal. */
  lemma ChildReady(g0: Shape, g: Shape, p: Chunk, r: nat, X: set<Chunk>)
    requires Removing(g0, g, p, X) && LeafSizes(g, {}) && r < |g.kids[p]|
    ensures Progress(g0, g, p, X) && p in g.kids && |g.kids[p]| <= 10 && p.children == g.kids[p]
    ensures ReadyToRemove(g, g.kids[p][r], X + {p}) && RankOf(g, g.kids[p][r]) < RankOf(g, p)
  {
    assert BodyOk(p, g);
    ProgressBelow(g0, g, p, X, r);
  }

  /** Everything about the shape after child `r` lost `m` lines. */
  lemma ChildTurnOk(g0: Shape, g: Shape, g': Shape, p: Chunk, r: nat, at: nat, n: nat, m: nat, X: set<Chunk>, goal: seq<Line>)
    requires Structure(g0) && Progress(g0, g, p, X) && r < |g.kids[p]| <= 10 && g.kids[p][r] in g.text
    requires ToRemove(g, p, r, at, n, goal) && m <= n && at + m <= |g.text[g.kids[p][r]]|
    requires m == n || at + m == |g.text[g.kids[p][r]]|
    requires Removed(g, g', g.kids[p][r], Without(g.text[g.kids[p][r]], at, m), X + {p})
    ensures Removing(g0, g', p, X) && p in g'.kids && g'.kids[p] == g.kids[p] && TurnDone(g', p, r + 1, n, m, goal)
    ensures g.kids[p][r] in g'.text && LeafSizesBut(g', g.kids[p][r]) && g'.heights == g.heights
    ensures m == |g.text[g.kids[p][r]]| ==> g'.text[g.kids[p][r]] == [] && TurnDone(g', p, r, n, m, goal)
    ensures m < |g.text[g.kids[p][r]]| ==> g'.text[g.kids[p][r]] != []
    ensures Sum(Flat(g.kids[p], g.text), g.heights) - Sum(Flat(g'.kids[p], g'.text), g'.heights)
         == Sum(g.text[g.kids[p][r]], g.heights) - Sum(Without(g.text[g.kids[p][r]], at, m), g.heights)
  {
    ChildRemovedOk(g0, g, g', p, r, at, m, X);
    assert NoDup(g.kids[p]);
    ChildLines(g.kids[p], r, at, m, g, g');
    ToRemoveChild(g, g', p, r, at, n, m, goal);
  }

  /** The child that has lost everything is gone, and the walk goes on at its index. */
  lemma DropTurnOk(g0: Shape, g: Shape, p: Chunk, r: nat, n: nat, m: nat, X: set<Chunk>, goal: seq<Line>) returns (g': Shape)
    requires Structure(g0) && Progress(g0, g, p, X) && r < |g.kids[p]| <= 10 && DropDone(g, p, r, X + {p})
    requires BranchesSmall(g, {p}) && LeafSizesBut(g, g.kids[p][r])
    requires g.kids[p][r] in g.text && g.text[g.kids[p][r]] == [] && TurnDone(g, p, r, n, m, goal)
    ensures Removing(g0, g', p, X) && LeafSizes(g', {}) && TurnDone(g', p, r, n, m, goal)
    ensures |g'.kids[p]| == |g.kids[p]| - 1 && g'.heights == g.heights && Flat(g'.kids[p], g'.text) == Flat(g.kids[p], g.text)
    ensures forall c {:trigger c in g'.text} :: c in g'.text ==> c in g.text
  {
    g' := DropShape(g0, g, p, r, X);
    TurnDropped(g, g', p, r, n, m, goal);
  }

  /** Lines under `c`: known, distinct, each in its own leaf. */
  ghost predicate OwnedUnder(g: Shape, c: Chunk, ls: seq<Line>)
    reads *
  {
    NoDup(ls) && forall l :: l in ls ==> LineUnder(g, c, l)
  }

  ghost predicate LineUnder(g: Shape, c: Chunk, l: Line)
    reads *
  {
    && l in g.heights && l.parent != null && l.parent in g.text && l.parent !in g.kids
    && l in g.text[l.parent] && Under(g, l.parent, c)
  }

  /** No two places under a chunk hold the same line. */
  lemma {:induction false} HeldOwned(g: Shape, c: Chunk, X: set<Chunk>)
    requires Structure(g) && Balanced(g, X) && c in g.text
    requires forall x {:trigger OwnsText(x, g)} :: x in g.text && x !in g.kids ==> OwnsText(x, g)
    requires forall x {:trigger x in X} :: x in X ==> x == c || !Under(g, x, c)
    ensures OwnedUnder(g, c, Held(g, c))
    decreases RankOf(g, c), 1, 0
  {
    if c in g.kids {
      assert g.kids[c][..|g.kids[c]|] == g.kids[c];
      KidsOwned(g, c, X, |g.kids[c]|);
    } else {
      assert OwnsText(c, g);
    }
  }

  lemma {:induction false} KidsOwned(g: Shape, c: Chunk, X: set<Chunk>, n: nat)
    requires Structure(g) && Balanced(g, X) && c in g.kids && n <= |g.kids[c]|
    requires forall x {:trigger OwnsText(x, g)} :: x in g.text && x !in g.kids ==> OwnsText(x, g)
    requires forall x {:trigger x in X} :: x in X ==> x == c || !Under(g, x, c)
    ensures OwnedUnder(g, c, Flat(g.kids[c][..n], g.text))
    ensures forall l :: l in Flat(g.kids[c][..n], g.text) ==> exists i :: 0 <= i < n && Under(g, l.parent, g.kids[c][i])
    decreases RankOf(g, c), 0, n
  {
    if n > 0 {
      var k, before := g.kids[c][n - 1], Flat(g.kids[c][..n - 1], g.text);
      GatherBelow(g, c, X, n - 1);
      KidsOwned(g, c, X, n - 1);
      HeldOwned(g, k, X);
      assert NoDup(g.kids[c]) && PointTo(g.kids[c], c, g.up);
      FlatStep(g.kids[c], n - 1, g.text);
      forall l | l in g.text[k] ensures LineUnder(g, c, l) && l !in before {
        UnderUp(g, l.parent, k);
        if l in before {
          var i :| 0 <= i < n - 1 && Under(g, l.parent, g.kids[c][i]);
          assert Apart(g.kids[c], i, n - 1);
          UnderOne(g, l.parent, g.kids[c][i], k);
        }
      }
      NoDupAppend(before, g.text[k]);
    }
  }

  /** The height of a chunk already counts the change of a line in `leaf`. */
  ghost predicate Ahead(c: Chunk, g: Shape, leaf: Chunk, d: int)
    reads c`lines, c`size, c`height
  {
    c in g.text && c.ChunkSize() == |g.text[c]| && c.height == Sum(g.text[c], g.heights) + if Under(g, leaf, c) then d else 0
  }

  ghost predicate AllAhead(g: Shape, leaf: Chunk, d: int)
    reads g.text.Keys
  {
    forall c {:trigger c in g.text} :: c in g.text ==> Ahead(c, g, leaf, d)
  }

  /** The shape with another height for one line. */
  lemma HeightChanged(g: Shape, line: Line, h: nat) returns (g': Shape)
    requires Structure(g) && Balanced(g, {}) && LinesOkButHeight(g, line) && line.height == h
    requires line.parent != null && line.parent in g.text && line.parent !in g.kids && line in g.text[line.parent]
    requires forall c {:trigger BodyOk(c, g)} :: c in g.text ==> BodyOk(c, g)
    requires forall c {:trigger ParentOk(c, g)} :: c in g.text ==> ParentOk(c, g)
    requires AllAhead(g, line.parent, h - g.heights[line])
    ensures g' == g.(heights := g.heights[line := h]) && Whole(g')
  {
    g' := g.(heights := g.heights[line := h]);
    forall c | c in g'.text ensures BodyOk(c, g') && ParentOk(c, g') && TotalsOk(c, g') {
      assert BodyOk(c, g) && ParentOk(c, g) && Ahead(c, g, line.parent, h - g.heights[line]);
      HeldOwned(g, c, {});
      assert Held(g, c) == g.text[c];
      assert line in g.text[c] ==> LineUnder(g, c, line);
      SumUpdate(g.text[c], g.heights, line, h);
      if Under(g, line.parent, c) {
        UnderHolds(g, line.parent, c, line);
      }
    }
    forall c | c in g'.text && c !in g'.kids ensures OwnsText(c, g') {
      assert OwnsText(c, g);
    }
  }

  /** The heap after one line has got another height. */
  ghost predicate LinesOkButHeight(g: Shape, line: Line)
    reads *
  {
    && line in g.heights
    && (forall l {:trigger g.heights[l]} :: l in g.heights && l != line ==> l.height == g.heights[l])
    && (forall c {:trigger OwnsText(c, g)} :: c in g.text && c !in g.kids ==> OwnsText(c, g))
  }

  /** The heap after the chunks under `p` have given their lines to the one new leaf. */
  ghost predicate GatherDone(g: Shape, p: Chunk, leaf: Chunk, X: set<Chunk>)
    requires p in g.kids
    reads *
  {
    && !p.leaf && p.children == [leaf] && leaf.leaf && leaf.parent == p && leaf.lines == Held(g, p)
    && Owns(leaf, Held(g, p)) && Known(Held(g, p), g) && leaf.height == Sum(Held(g, p), g.heights)
    && (forall x {:trigger BodyOk(x, g)} :: x in g.text && x != p ==> BodyOk(x, g))
    && (forall x {:trigger ParentOk(x, g)} :: x in g.text ==> ParentOk(x, g))
    && (forall x {:trigger TotalsOk(x, g)} :: x in g.text && x !in X ==> TotalsOk(x, g))
    && (forall l {:trigger g.heights[l]} :: l in g.heights ==> l.height == g.heights[l])
    && (forall c {:trigger OwnsText(c, g)} :: c in g.text && c !in g.kids && !Under(g, c, p) ==> OwnsText(c, g))
  }

  lemma GatherDoneOk(g: Shape, g': Shape, p: Chunk, leaf: Chunk, X: set<Chunk>)
    requires IsCollapse(g, g', p, leaf) && GatherDone(g, p, leaf, X) && g'.heights == g.heights && p in X
    ensures ChunksOk(g', X) && LinesOk(g')
  {
    forall x | x in g'.text ensures BodyOk(x, g') && ParentOk(x, g') && (x !in X ==> TotalsOk(x, g')) {
      if x != leaf {
        assert g'.text[x] == g.text[x];
        assert ParentOk(x, g) && (x != p ==> BodyOk(x, g)) && (x !in X ==> TotalsOk(x, g));
        assert x in g'.up <==> x in g.up;
      }
    }
    forall x | x in g'.text && x !in g'.kids ensures OwnsText(x, g') {
      if x != leaf {
        assert g'.text[x] == g.text[x] && !Under(g, x, p) && OwnsText(x, g);
      }
    }
  }

  lemma CollapseShape(g0: Shape, g: Shape, p: Chunk, leaf: Chunk, X: set<Chunk>) returns (g': Shape)
    requires Structure(g0) && Progress(g0, g, p, X) && leaf !in g.text && g.rank[p] > 0
    requires GatherDone(g, p, leaf, X + {p}) && BranchesSmall(g, {p}) && LeafSizes(g, {}) && |Held(g, p)| < 25
    ensures Removing(g0, g', p, X) && SingleLeaf(g', p) && Held(g', p) == Held(g, p) && LeavesFilled(g', p)
    ensures forall c {:trigger c in g'.text} :: c in g'.text ==> c in g.text || c == leaf
  {
    g' := CollapseOk(g, p, leaf, X + {p});
    GatherDoneOk(g, g', p, leaf, X + {p});
    ProgressStep(g0, g, g', p, X);
    FlatOne(leaf, g'.text);
    assert Under(g', leaf, p) by {
      assert g'.rank[leaf] < g'.rank[g'.up[leaf]] && Under(g', p, p);
    }
    forall x | x in g'.text && x !in g'.kids
      ensures |g'.text[x]| <= 50 && (|g'.text[x]| > 0 || (Held(g', p) == [] && Under(g', x, p)))
    {
      if x != leaf {
        assert g'.text[x] == g.text[x];
      }
    }
    forall c | c in g'.text ensures c in g.text || c == leaf {
      var lines := g'.text[c];
    }
  }

  /** Once its children have lost their shares, a branch stops waiting. */
  lemma FinishRemoval(g0: Shape, g: Shape, p: Chunk, X: set<Chunk>, goal: seq<Line>) returns (g': Shape)
    requires Structure(g0) && Removing(g0, g, p, X) && 0 < |g.kids[p]| && LeavesFilled(g, p) && Held(g, p) == goal
    requires p.size == |goal| && p.height == Sum(goal, g.heights)
    ensures Removed(g0, g', p, goal, X) && g'.text.Keys == g.text.Keys && g'.kids == g.kids
  {
    g' := RetextBranch(g, p, X);
    assert BodyOk(p, g);
    RetextChunksBut(g, g', p, goal, X);
    RetextLines(g, g', p, goal);
    SameOutsideTrans(g0, g, g', p);
    forall x | x in g'.text && x !in g'.kids
      ensures |g'.text[x]| <= 50 && (|g'.text[x]| > 0 || (p in g'.text && g'.text[p] == [] && Under(g', x, p)))
    {
      assert g'.text[x] == g.text[x];
      UnderSame(g, g', x, p);
    }
  }

  /** On the way up from `c`: `n` is next, and `seen` are the chunks above `c` already passed. */
  ghost predicate Climbing(g: Shape, c: Chunk, n: Chunk?, seen: set<Chunk>) {
    && (forall x {:trigger Under(g, c, x)} {:trigger x in seen} :: x in g.text ==>
      (Under(g, c, x) <==> x in seen || (n != null && Under(g, n, x))))
    && (n != null ==> forall x {:trigger x in seen} :: x in seen ==> !Under(g, n, x))
  }

  lemma ClimbStep(g: Shape, c: Chunk, n: Chunk, above: Chunk?, seen: set<Chunk>)
    requires Structure(g) && n in g.text && Climbing(g, c, n, seen)
    requires above == if n in g.up then g.up[n] else null
    ensures Climbing(g, c, above, seen + {n}) && n !in seen
    ensures above != null ==> above in g.text && RankOf(g, n) < RankOf(g, above)
    ensures RankOf(g, n) <= RankOf(g, g.root)
  {
    UnderStep(g, n);
    assert Under(g, n, n);
  }

  class Chunk {
    const leaf: bool
    var lines: seq<Line>
    var children: seq<Chunk>
    var size: int
    var height: int
    var parent: Chunk?

    function ChunkSize(): int
      reads `lines, `size
    {
      if leaf then |lines| else size
    }

    /** The size and height of this branch and of those above it stay. */
    twostate predicate WaitsOn(X: set<Chunk>)
      reads *
    {
      SameTotals(X) && size == old(size) && height == old(height)
    }

    /** A branch over existing chunks. */
    constructor Branch(children: seq<Chunk>, ghost g: Shape)
      requires forall k :: k in children ==> TotalsOk(k, g)
      modifies children`parent
      ensures !leaf && this.children == children && parent == null
      ensures size == |Flat(children, g.text)| && height == Sum(Flat(children, g.text), g.heights)
      ensures forall k :: k in children ==> k.parent == this
    {
      leaf, this.children, lines, parent := false, children, [], null;
      size, height := 0, 0;
      new;
      var n := 0;
      while n < |children|
        invariant 0 <= n <= |children|
        invariant this.children == children && parent == null
        invariant forall k :: k in children ==> TotalsOk(k, g)
        invariant size == |Flat(children[..n], g.text)| && height == Sum(Flat(children[..n], g.text), g.heights)
        invariant forall k :: k in children[..n] ==> k.parent == this
      {
        var i := children[n];
        assert i in children && TotalsOk(i, g);
        assert children[..n + 1] == children[..n] + [i];
        FlatAppend(children[..n], [i], g.text);
        FlatOne(i, g.text);
        SumAppend(Flat(children[..n], g.text), g.text[i], g.heights);
        size, height := size + i.ChunkSize(), height + i.height;
        i.parent := this;
        n := n + 1;
      }
      assert children[..n] == children;
    }

    /** One turn of the spill loop on a branch below the root: its last five children become a new sibling. */
    method MoveLastFive(ghost g: Shape) returns (t: Chunk, r: nat)
      requires !leaf && |children| > 10 && parent != null && this in parent.children
      requires parent != this && this !in children && parent !in children
      requires forall k :: k in children ==> TotalsOk(k, g)
      modifies `children, `size, `height, parent`children, children`parent
      ensures fresh(t) && !t.leaf && t.parent == parent == old(parent)
      ensures children == old(children)[..|old(children)| - 5] && t.children == old(children)[|old(children)| - 5..]
      ensures t.size == |Flat(t.children, g.text)| && size == old(size) - t.size
      ensures t.height == Sum(Flat(t.children, g.text), g.heights) && height == old(height) - t.height
      ensures r < |old(parent.children)| && old(parent.children)[r] == this
      ensures parent.children == old(parent.children)[..r + 1] + [t] + old(parent.children)[r + 1..]
      ensures forall k :: k in old(children) ==> k.parent == if k in t.children then t else old(k.parent)
    {
      var moved := children[|children| - 5..];
      children := children[..|children| - 5];
      t := new Chunk.Branch(moved, g);
      size, height := size - t.size, height - t.height;
      r := IndexOf(parent.children, this);
      parent.children := parent.children[..r + 1] + [t] + parent.children[r + 1..];
      t.parent := parent;
    }

    method MoveLastFiveOf(ghost g: Shape) returns (t: Chunk, r: nat)
      requires ChunksOk(g, {}) && this in g.kids && this in g.up && g.up[this] in g.kids && this in g.kids[g.up[this]]
      requires |g.kids[this]| > 10 && g.up[this] != this && this !in g.kids[this] && g.up[this] !in g.kids[this]
      requires this in g.text && g.up[this] in g.text && forall k :: k in g.kids[this] ==> k in g.text
      modifies `children, `size, `height, {g.up[this]}`children, g.kids[this]`parent
      ensures fresh(t) && r < |g.kids[g.up[this]]| && g.kids[g.up[this]][r] == this
      ensures SplitDone(g, this, t, |g.kids[this]| - 5, r)
    {
      assert BodyOk(this, g) && ParentOk(this, g) && BodyOk(g.up[this], g) && TotalsOk(this, g);
      assert forall k :: k in g.kids[this] ==> TotalsOk(k, g);
      hide Flat, Sum;
      t, r := MoveLastFive(g);
      FieldsStay(g);
    }

    method SplitOff(ghost g: Shape) returns (ghost g': Shape)
      requires Structure(g) && Balanced(g, {}) && ChunksOk(g, {})
      requires this in g.kids && this in g.up && |g.kids[this]| > 10 && BranchesSmall(g, {this, g.up[this]})
      modifies `children, `size, `height, {g.up[this]}`children, g.kids[this]`parent
      ensures Structure(g') && Balanced(g', {}) && ChunksOk(g', {}) && Grown(g, g')
      ensures forall c {:trigger c in g'.text} :: c in g'.text && c !in g.text ==> fresh(c)
      ensures this in g'.kids && |g'.kids[this]| == |g.kids[this]| - 5 && this in g'.up && g'.up[this] == g.up[this]
      ensures g.up[this] in g.kids && g.up[this] in g'.kids && |g'.kids[g.up[this]]| == |g.kids[g.up[this]]| + 1
      ensures BranchesSmall(g', {this, g.up[this]})
      ensures forall c :: c in g.rank ==> c in g'.rank && g'.rank[c] == g.rank[c]
    {
      SplitReady(g, this);
      ghost var k := |g.kids[this]| - 5;
      var t, i := MoveLastFiveOf(g);
      g' := SplitBranchOk(g, this, t, k, i);
      SplitDoneOk(g, g', this, t, k, i);
      SplitGrows(g, g', this, t, k, i);
      SplitCounts(g, g', this, t, k, i);
    }

    /** The first turn of the spill loop on the root: its children move to two new branches below it. */
    method AddLevel(ghost g: Shape) returns (n: Chunk, t: Chunk)
      requires !leaf && |children| > 10 && this !in children
      requires forall k :: k in children ==> TotalsOk(k, g)
      requires forall i, j :: 0 <= i < |children| - 5 <= j < |children| ==> children[i] != children[j]
      modifies `children, children`parent
      ensures fresh(n) && fresh(t) && n != t && !n.leaf && !t.leaf
      ensures n.children == old(children)[..|old(children)| - 5] && t.children == old(children)[|old(children)| - 5..]
      ensures t.size == |Flat(t.children, g.text)| && t.height == Sum(Flat(t.children, g.text), g.heights)
      ensures n.size == |Flat(n.children, g.text)| && n.height == Sum(Flat(n.children, g.text), g.heights)
      ensures children == [n, t]
      ensures n.parent == this && t.parent == this
      ensures forall k :: k in old(children) ==> k.parent == if k in t.children then t else n
    {
      var moved := children[|children| - 5..];
      children := children[..|children| - 5];
      t := new Chunk.Branch(moved, g);
      n := new Chunk.Branch(children, g);
      n.parent := this;
      children := [n, t];
      t.parent := n.parent;
    }

    method AddLevelOf(ghost g: Shape) returns (n: Chunk, t: Chunk)
      requires ChunksOk(g, {}) && this in g.kids && |g.kids[this]| > 10 && NoDup(g.kids[this])
      requires this in g.text && this !in g.kids[this] && forall k :: k in g.kids[this] ==> k in g.text
      modifies `children, g.kids[this]`parent
      ensures fresh(n) && fresh(t) && n != t
      ensures LevelAdded(g, this, n, t, |g.kids[this]| - 5)
    {
      hide Flat, Sum, NoDup;
      assert BodyOk(this, g) && TotalsOk(this, g);
      assert forall k :: k in g.kids[this] ==> TotalsOk(k, g);
      NoDupSplit(g.kids[this], |g.kids[this]| - 5);
      n, t := AddLevel(g);
      FieldsStay(g);
      assert old(TotalsOk(this, g));
    }

    method SplitRoot(ghost g: Shape) returns (n: Chunk, ghost g': Shape)
      requires Structure(g) && Balanced(g, {}) && ChunksOk(g, {})
      requires this == g.root && |g.kids[this]| > 10 && BranchesSmall(g, {this})
      modifies `children, g.kids[this]`parent
      ensures fresh(n)
      ensures Structure(g') && Balanced(g', {}) && ChunksOk(g', {}) && Grown(g, g')
      ensures forall c {:trigger c in g'.text} :: c in g'.text && c !in g.text ==> fresh(c)
      ensures n in g'.kids && |g'.kids[n]| == |g.kids[this]| - 5 && n in g'.up && g'.up[n] == this
      ensures this in g'.kids && |g'.kids[this]| == 2
      ensures BranchesSmall(g', {n, this})
    {
      assert this !in g.kids[this] && forall k :: k in g.kids[this] ==> k in g.text;
      var t: Chunk;
      n, t := AddLevelOf(g);
      g' := RootSplitOk(g, this, n, t);
      forall c | c in g'.text && c !in g.text ensures fresh(c) {
        assert c == n || c == t;
      }
    }

    /** One turn of the spill that `c` started on the tree of shape `g0`; `e` is the branch it goes on with. */
    method SpillTurn(ghost g0: Shape, ghost c: Chunk, ghost g: Shape) returns (e: Chunk, ghost g': Shape)
      requires Structure(g) && Balanced(g, {}) && ChunksOk(g, {}) && BranchesSmall(g0, {c}) && g.root == g0.root
      requires SpillState(g0, g, c, this) && |g.kids[this]| > 10
      modifies g.text.Keys`children, g.text.Keys`size, g.text.Keys`height, g.text.Keys`parent
      ensures Structure(g') && Balanced(g', {}) && ChunksOk(g', {}) && Grown(g, g')
      ensures forall x {:trigger x in g'.text} :: x in g'.text && x !in g.text ==> fresh(x)
      ensures SpillState(g0, g', c, e) && e in g'.up && |g'.kids[e]| == |g.kids[this]| - 5
    {
      assert ParentOk(this, g) && this in g.text;
      assert forall k :: k in g.kids[this] ==> k in g.text;
      e := this;
      if e.parent != null {
        assert g.up[e] in g.text;
        g' := e.SplitOff(g);
      } else {
        e, g' := e.SplitRoot(g);
      }
    }

    /** The loop of maybeSpill: split until at most ten children are left. */
    method SpillLoop(ghost g: Shape) returns (e: Chunk, ghost g': Shape)
      requires Structure(g) && Balanced(g, {}) && ChunksOk(g, {})
      requires this in g.kids && |g.kids[this]| > 10 && BranchesSmall(g, {this})
      modifies g.text.Keys`children, g.text.Keys`size, g.text.Keys`height, g.text.Keys`parent
      ensures Structure(g') && Balanced(g', {}) && ChunksOk(g', {}) && Grown(g, g')
      ensures forall c {:trigger c in g'.text} :: c in g'.text && c !in g.text ==> fresh(c)
      ensures SpillState(g, g', this, e) && 6 <= |g'.kids[e]| <= 10 && e in g'.up && g'.up[e] in g'.text
    {
      g' := g;
      e := this;
      while true
        invariant Structure(g') && Balanced(g', {}) && ChunksOk(g', {}) && Grown(g, g')
        invariant forall c {:trigger c in g'.text} :: c in g'.text && c !in g.text ==> fresh(c)
        invariant SpillState(g, g', this, e) && |g'.kids[e]| > 10
        decreases |g'.kids[e]|
      {
        e, g' := e.SpillTurn(g, this, g');
        assert BodyOk(e, g');
        if |e.children| <= 10 { break; }
      }
    }

    /** maybeSpill: split a branch until it has at most ten children, then see to its parent. */
    method MaybeSpill(ghost g: Shape) returns (ghost g': Shape)
      requires Structure(g) && Balanced(g, {}) && ChunksOk(g, {})
      requires this in g.kids && |g.kids[this]| > 0 && BranchesSmall(g, {this})
      modifies g.text.Keys`children, g.text.Keys`size, g.text.Keys`height, g.text.Keys`parent
      ensures Structure(g') && Balanced(g', {}) && ChunksOk(g', {}) && Grown(g, g') && BranchesSmall(g', {})
      ensures forall c {:trigger c in g'.text} :: c in g'.text && c !in g.text ==> fresh(c)
      decreases SpillRank(g, this), |g.kids[this]|
    {
      g' := g;
      assert BodyOk(this, g);
      if |children| <= 10 { return; }
      var e;
      ghost var g2;
      e, g2 := SpillLoop(g);
      assert ParentOk(e, g2);
      SpillCloser(g, g2, this, e);
      g' := e.parent.MaybeSpill(g2);
      GrownTrans(g, g2, g');
      forall c | c in g'.text && c !in g.text ensures fresh(c) {
        assert c in g2.text ==> fresh(c);
      }
    }

    /** A leaf over given lines. */
    constructor Leaf(lines: seq<Line>, ghost heights: map<Line, nat>)
      requires forall l :: l in lines ==> l in heights && l.height == heights[l]
      modifies lines`parent
      ensures leaf && this.lines == lines && children == [] && parent == null
      ensures height == Sum(lines, heights)
      ensures forall l :: l in lines ==> l.parent == this
    {
      leaf, this.lines, children, size, parent := true, lines, [], 0, null;
      height := 0;
      new;
      var r := 0;
      while r < |lines|
        invariant 0 <= r <= |lines|
        invariant this.lines == lines && children == [] && parent == null
        invariant height == Sum(lines[..r], heights)
        invariant forall l :: l in lines[..r] ==> l.parent == this
      {
        assert lines[r] in lines;
        assert lines[..r + 1] == lines[..r] + [lines[r]];
        SumAppend(lines[..r], [lines[r]], heights);
        lines[r].parent := this;
        height := height + lines[r].height;
        r := r + 1;
      }
      assert lines[..r] == lines;
    }

    /** The next 25 lines of a leaf that is being cut become a leaf of their own. */
    method CutPiece(i: Chunk, s: nat, k: nat, ghost rest: seq<Line>, ghost new_: seq<Chunk>, ghost pieces: map<Chunk, seq<Line>>, ghost g: Shape)
      returns (l: Chunk)
      requires k < |children| && s + 25 <= |i.lines| && rest == i.lines[s..] && NoDup(rest)
      requires Measured(rest, g)
      requires PiecesOk(new_, pieces, this, rest, g) && i !in new_
      modifies `children, i`height, rest`parent
      ensures fresh(l) && NewLeafOk(l, this, rest[..25], g) && PiecesOk(new_, pieces, this, rest, g)
      ensures children == old(children)[..k + 1] + [l] + old(children)[k + 1..]
      ensures i.height == old(i.height) - Sum(rest[..25], g.heights)
    {
      hide Sum, Flat;
      NoDupPart(rest, 0, 25);
      assert i.lines[s..s + 25] == rest[..25];
      l := new Chunk.Leaf(i.lines[s..s + 25], g.heights);
      i.height := i.height - l.height;
      children := children[..k + 1] + [l] + children[k + 1..];
      l.parent := this;
      forall c | c in new_ ensures NewLeafOk(c, this, pieces[c], g) {
        assert old(NewLeafOk(c, this, pieces[c], g));
      }
    }

    /** One turn of the cutting loop; `a` and `b` are the children on both sides of the new leaves. */
    method CutTurn(i: Chunk, s: nat, k: nat, ghost a: seq<Chunk>, ghost b: seq<Chunk>, ghost new_: seq<Chunk>,
                   ghost pieces: map<Chunk, seq<Line>>, ghost rest: seq<Line>, ghost g: Shape)
      returns (ghost new1: seq<Chunk>, ghost pieces1: map<Chunk, seq<Line>>, ghost rest1: seq<Line>)
      requires s + 25 <= |i.lines| && rest == i.lines[s..] && NoDup(rest)
      requires Measured(rest, g)
      requires PiecesOk(new_, pieces, this, rest, g) && NoDup(new_) && i !in new_
      requires children == Joined(a, new_, b) && k + 1 == |a| + |new_|
      modifies `children, i`height, rest`parent
      ensures rest1 == i.lines[s + 25..] && NoDup(rest1) && Measured(rest1, g) && (forall l :: l in rest1 ==> l in rest)
      ensures PiecesOk(new1, pieces1, this, rest1, g) && NoDup(new1) && i !in new1
      ensures |new1| == |new_| + 1 && forall c :: c in new1 ==> c in new_ || fresh(c)
      ensures children == Joined(a, new1, b)
      ensures Flat(new1, pieces1) + rest1 == Flat(new_, pieces) + rest
      ensures i.height + Sum(Flat(new1, pieces1), g.heights) == old(i.height) + Sum(Flat(new_, pieces), g.heights)
    {
      hide Flat, Sum, Joined;
      JoinedIs(a, new_, b);
      var l := CutPiece(i, s, k, rest, new_, pieces, g);
      rest1 := rest[25..];
      new1, pieces1 := AddPiece(a, new_, b, pieces, l, rest[..25]);
      PiecesGrow(new_, pieces, new1, pieces1, l, this, rest, g);
      CutLines(i.lines, s, rest, Flat(new_, pieces), g.heights);
    }

    /** The cutting loop: everything after the first `a` lines of the leaf at index `n` goes to new leaves. */
    method CutRest(i: Chunk, n: nat, a: nat, ghost g: Shape) returns (ghost new_: seq<Chunk>, ghost pieces: map<Chunk, seq<Line>>)
      requires n < |children| && a <= |i.lines| && (|i.lines| - a) % 25 == 0 && NoDup(i.lines[a..])
      requires Measured(i.lines[a..], g)
      modifies `children, i`height, i.lines[a..]`parent
      ensures i.height == old(i.height) - Sum(i.lines[a..], g.heights)
      ensures children == Joined(old(children)[..n + 1], new_, old(children)[n + 1..])
      ensures NoDup(new_) && (forall c :: c in new_ ==> fresh(c))
      ensures PiecesOk(new_, pieces, this, [], g) && Flat(new_, pieces) == i.lines[a..]
    {
      hide Flat, Sum, Joined, PiecesOk, Measured;
      var s, k := a, n;
      new_, pieces := [], map[];
      ghost var all, rest, turns := i.lines[a..], i.lines[a..], (|i.lines| - a) / 25;
      ghost var left, right := children[..n + 1], children[n + 1..];
      JoinedCut(children, n + 1);
      NoPieces(this, rest, g);
      while s < |i.lines|
        invariant turns >= 0 && s + 25 * turns == |i.lines| && k + 1 == |left| + |new_|
        invariant i.lines == old(i.lines) && rest == i.lines[s..] && NoDup(rest) && Measured(rest, g)
        invariant forall c :: c in new_ ==> fresh(c)
        invariant forall l :: l in rest ==> l in all
        invariant PiecesOk(new_, pieces, this, rest, g) && NoDup(new_) && i !in new_
        invariant children == Joined(left, new_, right)
        invariant Flat(new_, pieces) + rest == all
        invariant i.height + Sum(Flat(new_, pieces), g.heights) == old(i.height)
        decreases turns
      {
        new_, pieces, rest := CutTurn(i, s, k, left, right, new_, pieces, rest, g);
        k, s, turns := k + 1, s + 25, turns - 1;
      }
      assert Flat(new_, pieces) == all;
    }

    /** Cut a leaf of more than fifty lines: it keeps 25 to 49, and new leaves of 25 take the rest. */
    method CutLeaf(i: Chunk, n: nat, ghost g: Shape) returns (ghost new_: seq<Chunk>, ghost pieces: map<Chunk, seq<Line>>)
      requires i != this && n < |children| && |i.lines| > 50
      requires Owns(i, i.lines) && Measured(i.lines, g)
      modifies `children, i`lines, i`height, i.lines`parent
      ensures 25 <= |i.lines| < 50 && |i.lines| <= |old(i.lines)| && i.lines == old(i.lines)[..|i.lines|] && Owns(i, i.lines)
      ensures i.height == old(i.height) - Sum(old(i.lines)[|i.lines|..], g.heights)
      ensures children == old(children)[..n + 1] + new_ + old(children)[n + 1..]
      ensures NoDup(new_) && (forall c :: c in new_ ==> fresh(c))
      ensures PiecesOk(new_, pieces, this, [], g) && Flat(new_, pieces) == old(i.lines)[|i.lines|..]
    {
      var a := |i.lines| % 25 + 25;
      NoDupCut(i.lines, a);
      ghost var keep := i.lines[..a];
      new_, pieces := CutRest(i, n, a, g);
      forall l | l in keep ensures l.parent == i {
        assert old(l.parent) == i;
      }
      assert i !in new_;
      JoinedIs(old(children)[..n + 1], new_, old(children)[n + 1..]);
      i.lines := i.lines[..a];
    }

    method CutLeafOf(i: Chunk, n: nat, ghost g: Shape) returns (ghost new_: seq<Chunk>, ghost pieces: map<Chunk, seq<Line>>)
      requires ChunksOk(g, {}) && LinesOk(g) && this in g.kids && this in g.text && n < |g.kids[this]| && g.kids[this][n] == i
      requires i in g.text && i !in g.kids && i != this && |g.text[i]| > 50
      modifies this, i, g.text[i]`parent
      ensures NoDup(new_) && forall c :: c in new_ ==> fresh(c)
      ensures 25 <= |i.lines| < 50 && g.text[i] == i.lines + Flat(new_, pieces)
      ensures CutDone(g, this, i, n, i.lines, new_, pieces)
      ensures LinesOkBut(g, i)
    {
      hide Flat, Sum;
      assert BodyOk(this, g) && BodyOk(i, g) && TotalsOk(i, g) && TotalsOk(this, g);
      assert OwnsText(i, g);
      new_, pieces := CutLeaf(i, n, g);
      ghost var first, rest := i.lines, Flat(new_, pieces);
      assert g.text[i] == first + rest;
      SumAppend(first, rest, g.heights);
      FieldsStay(g);
      forall c | c in g.text && c !in g.kids && c != i ensures OwnsText(c, g) {
        assert old(OwnsText(c, g));
      }
    }

    /** A leaf of more than fifty lines, child `n` of this branch, hands the surplus to new leaves; then the branch may spill. */
    method SplitLeaf(i: Chunk, n: nat, ghost g: Shape) returns (ghost g': Shape)
      requires Structure(g) && Balanced(g, {}) && ChunksOk(g, {}) && LinesOk(g)
      requires this in g.kids && n < |g.kids[this]| && g.kids[this][n] == i && i in g.text && i !in g.kids && |g.text[i]| > 50
      requires BranchesSmall(g, {}) && LeafSizes(g, {i})
      modifies this, i, g.text[i]`parent
      ensures Structure(g') && Balanced(g', {}) && ChunksOk(g', {}) && LinesOk(g')
      ensures SameRoot(g, g') && g'.text[g.root] == g.text[g.root]
      ensures forall c {:trigger c in g'.text} :: c in g'.text && c !in g.text ==> fresh(c)
      ensures this in g'.kids && |g'.kids[this]| > 0 && BranchesSmall(g', {this}) && LeafSizes(g', {})
    {
      SplitLeafReady(g, this, n);
      ghost var new_, pieces := CutLeafOf(i, n, g);
      g' := CutDoneShape(g, this, i, n, i.lines, new_, pieces);
      forall c | c in g'.text && c !in g.text ensures fresh(c) {
        assert c in new_;
      }
    }

    /** insertInner of a leaf. */
    method InsertLines(at: nat, ls: seq<Line>, h: int)
      requires leaf && at <= |lines|
      modifies `height, `lines, ls`parent
      ensures lines == Spliced(old(lines), at, ls) && height == old(height) + h
      ensures forall l :: l in ls ==> l.parent == this
    {
      height := height + h;
      lines := lines[..at] + ls + lines[at..];
      var n := 0;
      while n < |ls|
        invariant 0 <= n <= |ls| && forall l :: l in ls[..n] ==> l.parent == this
        invariant lines == Spliced(old(lines), at, ls) && height == old(height) + h
      {
        ls[n].parent := this;
        assert ls[..n + 1] == ls[..n] + [ls[n]];
        n := n + 1;
      }
    }

    method LeafTakes(at: nat, ls: seq<Line>, h: int, ghost g: Shape)
      requires ChunksOk(g, {}) && LinesOk(g) && this in g.text && at <= |g.text[this]| && this !in g.kids
      requires Incoming(ls, g) && h == Sum(ls, g.heights)
      modifies this, ls`parent
      ensures TakeDone(g, this, at, ls)
    {
      assert BodyOk(this, g) && TotalsOk(this, g) && OwnsText(this, g);
      InsertLines(at, ls, h);
      NoDupSpliced(g.text[this], at, ls);
      FieldsStay(g);
      forall c | c in g.text && c !in g.kids && c != this ensures OwnsText(c, g) {
        assert old(OwnsText(c, g)) && NoneShared(ls, g.text[c]);
      }
    }

    method BranchTakes(at: nat, ls: seq<Line>, h: int, ghost g: Shape)
      requires ChunksOk(g, {}) && LinesOk(g) && this in g.text && at <= |g.text[this]| && this in g.kids
      requires h == Sum(ls, g.heights)
      modifies this
      ensures TakeDone(g, this, at, ls)
    {
      assert BodyOk(this, g) && TotalsOk(this, g);
      size := size + |ls|;
      height := height + h;
      FieldsStay(g);
      OwnersStay(g);
    }

    /** Spilling moves no line and changes none. */
    method SpillKeepingLines(ghost g: Shape) returns (ghost g': Shape)
      requires Whole(g) && this in g.kids && |g.kids[this]| > 0 && BranchesSmall(g, {this}) && LeafSizes(g, {})
      modifies g.text.Keys`children, g.text.Keys`size, g.text.Keys`height, g.text.Keys`parent
      ensures Whole(g') && SameRoot(g, g') && g'.text[g.root] == g.text[g.root] && BranchesSmall(g', {}) && LeafSizes(g', {})
      ensures forall c {:trigger c in g'.text} :: c in g'.text && c !in g.text ==> fresh(c)
    {
      g' := MaybeSpill(g);
      OwnersStay(g);
      GrownLeaves(g, g');
    }

    /** The leaf `i`, child `n`, has grown past fifty lines: split it, and let the branch spill. */
    method SplitAndSpill(i: Chunk, n: nat, ghost g: Shape) returns (ghost g': Shape)
      requires Whole(g) && BranchesSmall(g, {}) && LeafSizes(g, {i})
      requires this in g.kids && n < |g.kids[this]| && g.kids[this][n] == i && i in g.text && i !in g.kids && |g.text[i]| > 50
      modifies g.text.Keys, g.heights.Keys`parent
      ensures Whole(g') && SameRoot(g, g') && g'.text[g.root] == g.text[g.root] && BranchesSmall(g', {}) && LeafSizes(g', {})
      ensures forall c {:trigger c in g'.text} :: c in g'.text && c !in g.text ==> fresh(c)
    {
      assert OwnsText(i, g) && this in g.text;
      ghost var g2 := SplitLeaf(i, n, g);
      g' := SpillKeepingLines(g2);
      forall c | c in g'.text && c !in g.text ensures fresh(c) {
        assert c in g2.text ==> fresh(c);
      }
    }

    /** The insertion falls into the leaf `i`, child `n`. */
    method InsertIntoLeaf(i: Chunk, n: nat, at: nat, ls: seq<Line>, h: int, ghost g: Shape) returns (ghost g': Shape)
      requires ReadyToInsert(g, i, at, ls, h)
      requires this in g.kids && n < |g.kids[this]| && g.kids[this][n] == i && i !in g.kids
      modifies g.text.Keys, g.heights.Keys`parent
      ensures Whole(g') && SameRoot(g, g') && g'.text[g.root] == g.text[g.root] && BranchesSmall(g', {}) && LeafSizes(g', {})
      ensures forall c {:trigger c in g'.text} :: c in g'.text && c !in g.text ==> fresh(c)
    {
      SplitLeafReady(g, this, n);
      i.LeafTakes(at, ls, h, g);
      g' := LeafTaken(g, i, at, ls);
      assert BodyOk(i, g');
      if i.leaf && |i.lines| > 50 {
        g' := SplitAndSpill(i, n, g');
      }
    }

    /** insertInner of a branch: it takes the new lines, and so does the child that position `at` falls into. */
    method InsertInner(at: nat, ls: seq<Line>, h: int, ghost g: Shape) returns (ghost g': Shape)
      requires ReadyToInsert(g, this, at, ls, h) && this in g.kids
      modifies g.text.Keys, g.heights.Keys`parent
      ensures Whole(g') && SameRoot(g, g') && BranchesSmall(g', {}) && LeafSizes(g', {})
      ensures g'.text[g.root] == if this == g.root then Spliced(g.text[this], at, ls) else g.text[g.root]
      ensures forall c {:trigger c in g'.text} :: c in g'.text && c !in g.text ==> fresh(c)
      decreases RankOf(g, this), 1
    {
      assert g.text[this] == Flat(g.kids[this], g.text);
      BranchTakes(at, ls, h, g);
      ghost var g1 := BranchTaken(g, this, at, ls);
      g' := InsertBelow(at, ls, h, g, g1);
    }

    /** The first child that does not end before position `at`, and the position within it. */
    method FindChild(at: nat, ghost g: Shape) returns (n: nat, e: nat)
      requires this in g.kids && children == g.kids[this] && |children| > 0 && at <= |Flat(children, g.text)|
      requires forall m :: 0 <= m < |children| ==> children[m] in g.text && children[m].ChunkSize() == |g.text[children[m]]|
      ensures n < |children| && at == |Flat(children[..n], g.text)| + e && e <= |g.text[children[n]]|
    {
      ghost var n0, e0 := WhereIn(children, g.text, at);
      n, e := 0, at;
      while e > children[n].ChunkSize()
        invariant 0 <= n <= n0 && e == Left(children, n, g.text, at)
        decreases n0 - n
      {
        assert children[n] in g.text;
        e, n := e - children[n].ChunkSize(), n + 1;
      }
    }

    /** The loop of insertInner; `g` is the shape before and `g1` the shape after the branch has taken the lines. */
    method InsertBelow(at: nat, ls: seq<Line>, h: int, ghost g: Shape, ghost g1: Shape) returns (ghost g': Shape)
      requires Structure(g) && this in g.kids && this in g.text && at <= |g.text[this]| && g.text[this] == Flat(g.kids[this], g.text)
      requires IsRetext(g, g1, this, Spliced(g.text[this], at, ls)) && Structure(g1) && ChunksOk(g1, {}) && LinesOk(g1)
      requires Balanced(g1, {this}) && BranchesSmall(g1, {}) && LeafSizes(g1, {}) && Incoming(ls, g1) && h == Sum(ls, g1.heights)
      modifies g1.text.Keys, g1.heights.Keys`parent
      ensures Whole(g') && SameRoot(g1, g') && BranchesSmall(g', {}) && LeafSizes(g', {}) && g'.text[g1.root] == g1.text[g1.root]
      ensures forall c {:trigger c in g'.text} :: c in g'.text && c !in g1.text ==> fresh(c)
      decreases RankOf(g, this), 0
    {
      assert BodyOk(this, g1);
      forall m | 0 <= m < |children| ensures children[m].ChunkSize() == |g.text[g.kids[this][m]]| {
        assert TotalsOk(children[m], g1) && g1.text[children[m]] == g.text[children[m]];
      }
      var n, e := FindChild(at, g);
      ReadyBelow(g, g1, this, n, at, e, ls, h);
      var i := children[n];
      g' := InsertInto(i, n, e, ls, h, g1);
    }

    /** The insertion goes on in the child `i` at index `n`. */
    method InsertInto(i: Chunk, n: nat, at: nat, ls: seq<Line>, h: int, ghost g: Shape) returns (ghost g': Shape)
      requires ReadyToInsert(g, i, at, ls, h) && this in g.kids && n < |g.kids[this]| && g.kids[this][n] == i && i != g.root
      modifies g.text.Keys, g.heights.Keys`parent
      ensures Whole(g') && SameRoot(g, g') && g'.text[g.root] == g.text[g.root] && BranchesSmall(g', {}) && LeafSizes(g', {})
      ensures forall c {:trigger c in g'.text} :: c in g'.text && c !in g.text ==> fresh(c)
      decreases RankOf(g, i), 2
    {
      assert BodyOk(i, g);
      if i.leaf {
        g' := InsertIntoLeaf(i, n, at, ls, h, g);
      } else {
        g' := i.InsertInner(at, ls, h, g);
      }
    }

    /** removeInner of a leaf, on the lines alone. */
    method RemoveLines(at: nat, n: nat, ghost g: Shape)
      requires leaf && at + n <= |lines| && NoDup(lines) && Measured(lines, g)
      modifies `height, `lines, lines[at..at + n]`parent
      ensures lines == Without(old(lines), at, n)
      ensures height == old(height) - Sum(old(lines)[at..at + n], g.heights)
      ensures forall l :: l in old(lines)[at..at + n] ==> l.parent == null
    {
      var r := at;
      while r < at + n
        invariant at <= r <= at + n && lines == old(lines)
        invariant height == old(height) - Sum(lines[at..r], g.heights)
        invariant forall l :: l in lines[at..r] ==> l.parent == null
      {
        var line := lines[r];
        assert lines[at..r + 1] == lines[at..r] + [line] && lines[at..at + n][r - at] == line;
        SumAppend(lines[at..r], [line], g.heights);
        height := height - line.height;
        line.parent := null;
        r := r + 1;
      }
      lines := lines[..at] + lines[at + n..];
    }

    method LoseLines(at: nat, n: nat, ghost g: Shape, ghost X: set<Chunk>) returns (ghost g': Shape)
      requires ReadyToRemove(g, this, X) && this !in g.kids && at + n <= |g.text[this]|
      modifies `height, `lines, g.text[this]`parent
      ensures Removed(g, g', this, Without(g.text[this], at, n), X)
      ensures forall c {:trigger c in g'.text} :: c in g'.text ==> c in g.text
    {
      assert BodyOk(this, g) && TotalsOk(this, g) && OwnsText(this, g);
      SumWithout(g.text[this], at, n, g.heights);
      NoDupWithout(g.text[this], at, n);
      RemoveLines(at, n, g);
      FieldsStay(g);
      OwnersStay(g);
      g' := LeafRemoveShape(g, this, Without(g.text[this], at, n), X);
    }

    method LeafRemoves(at: nat, n: nat, ghost g: Shape, ghost X: set<Chunk>) returns (ghost g': Shape)
      requires ReadyToRemove(g, this, X) && this !in g.kids && at + n <= |g.text[this]|
      modifies `height, `lines, g.text[this]`parent
      ensures Removal(g, g', this, Without(g.text[this], at, n), X)
    {
      hide LinesOk, ChunksOk, Structure, Balanced, BranchesSmall, LeafSizesBut, SameOutside, Sum, Under, LeafSizes, NoDup, Without;
      g' := LoseLines(at, n, g, X);
    }

    /** An emptied child leaves the list of children. */
    method SpliceOut(r: nat, ghost g: Shape, ghost X: set<Chunk>)
      requires ChunksOk(g, X) && LinesOk(g) && this in g.kids && this in g.text && r < |g.kids[this]| && g.kids[this][r] in g.text
      requires this in X && g.kids[this][r] != this
      modifies `children, {g.kids[this][r]}`parent
      ensures DropDone(g, this, r, X) && SameTotals(X) && g.kids[this][r].parent == null
    {
      assert BodyOk(this, g);
      var n := children[r];
      children := children[..r] + children[r + 1..];
      n.parent := null;
      FieldsStay(g);
      OwnersStay(g);
    }

    /** removeInner of whichever kind of chunk this is. */
    method Removes(at: nat, n: nat, ghost g: Shape, ghost X: set<Chunk>) returns (ghost g': Shape)
      requires ReadyToRemove(g, this, X) && at + n <= |g.text[this]|
      modifies g.text.Keys, g.heights.Keys`parent
      ensures Removal(g, g', this, Without(g.text[this], at, n), X)
      decreases RankOf(g, this), 5
    {
      assert BodyOk(this, g);
      if leaf {
        assert OwnsText(this, g);
        g' := LeafRemoves(at, n, g, X);
      } else {
        g' := RemoveInner(at, n, g, X);
      }
    }

    /** A branch that waits for its share changes its height; nothing else depends on it. */
    method LowerHeight(d: int, ghost g: Shape, ghost X: set<Chunk>)
      requires ChunksOk(g, X) && LinesOk(g) && this in X
      modifies `height
      ensures ChunksOk(g, X) && LinesOk(g) && height == old(height) - d
    {
      height := height - d;
      FieldsStay(g);
      OwnersStay(g);
    }

    /** The child `i` loses lines, and this branch the height that goes with them. */
    method ChildRemoves(i: Chunk, at: nat, n: nat, ghost g: Shape, ghost X: set<Chunk>) returns (ghost g': Shape)
      requires ReadyToRemove(g, i, X) && at + n <= |g.text[i]| && this in X
      modifies g.text.Keys, g.heights.Keys`parent
      ensures ChildRemoval(g, g', i, this, Without(g.text[i], at, n), X)
      decreases RankOf(g, i), 6
    {
      hide LinesOk, ParentOk, Structure, Balanced, BranchesSmall, LeafSizesBut, Sum, Under, LeafSizes, NoDup;
      assert TotalsOk(i, g);
      var a := i.height;
      g' := i.Removes(at, n, g, X);
      assert TotalsOk(i, g');
      LowerHeight(a - i.height, g', X);
    }

    /** The first half of a turn of the removal loop: child `r` loses `m` lines. */
    method LoseInChild(r: nat, at: nat, n: nat, m: nat, ghost g0: Shape, ghost g: Shape, ghost X: set<Chunk>, ghost goal: seq<Line>)
      returns (ghost g': Shape)
      requires this in g.kids && r < |g.kids[this]| && g.kids[this][r] in g.text
      requires Structure(g0) && Removing(g0, g, this, X) && LeafSizes(g, {})
      requires ToRemove(g, this, r, at, n, goal) && m <= n && at + m <= |g.text[g.kids[this][r]]|
      requires m == n || at + m == |g.text[g.kids[this][r]]|
      requires height == Sum(Flat(g.kids[this], g.text), g.heights)
      modifies g.text.Keys, g.heights.Keys`parent
      ensures this in g'.kids && g'.kids[this] == g.kids[this] && Removing(g0, g', this, X) && LeafSizesBut(g', g.kids[this][r]) && Steady(g, g', this, X)
      ensures height == Sum(Flat(g'.kids[this], g'.text), g'.heights) && TurnDone(g', this, r + 1, n, m, goal) && g'.heights == g.heights
      ensures g.kids[this][r] in g'.text && (m < |g.text[g.kids[this][r]]| ==> g'.text[g.kids[this][r]] != [])
      ensures m == |g.text[g.kids[this][r]]| ==> g'.text[g.kids[this][r]] == [] && TurnDone(g', this, r, n, m, goal)
      decreases RankOf(g, this), 0
    {
      hide Removing, ReadyToRemove, Removed, Progress, Structure, LeafSizes, LeafSizesBut, Flat, Sum, ToRemove, TurnDone, Without;
      ChildReady(g0, g, this, r, X);
      g' := ChildRemoves(children[r], at, m, g, X + {this});
      ChildTurnOk(g0, g, g', this, r, at, n, m, X, goal);
    }

    /** The second half: the child leaves if it has lost everything. */
    method DropInTurn(r: nat, n: nat, m: nat, ghost g0: Shape, ghost g: Shape, ghost X: set<Chunk>, ghost goal: seq<Line>)
      returns (ghost g': Shape)
      requires this in g.kids && r < |g.kids[this]| && g.kids[this][r] in g.text && g.text[g.kids[this][r]] == []
      requires Structure(g0) && Removing(g0, g, this, X) && LeafSizesBut(g, g.kids[this][r]) && TurnDone(g, this, r, n, m, goal)
      modifies `children, {g.kids[this][r]}`parent
      ensures this in g'.kids && Removing(g0, g', this, X) && LeafSizes(g', {}) && TurnDone(g', this, r, n, m, goal) && WaitsOn(X)
      ensures |g'.kids[this]| == |g.kids[this]| - 1 && g'.heights == g.heights
      ensures Flat(g'.kids[this], g'.text) == Flat(g.kids[this], g.text)
      ensures forall c {:trigger c in g'.text} :: c in g'.text ==> c in g.text
    {
      assert g.kids[this][r] != this by { ProgressBelow(g0, g, this, X, r); }
      SpliceOut(r, g, X + {this});
      g' := DropTurnOk(g0, g, this, r, n, m, X, goal);
    }

    /** The end of a turn: the child leaves, or it stays with the lines it has kept. */
    method FinishTurn(r: nat, n: nat, m: nat, dropped: bool, ghost g0: Shape, ghost g: Shape, ghost X: set<Chunk>, ghost goal: seq<Line>)
      returns (ghost g': Shape)
      requires this in g.kids && r < |g.kids[this]| && g.kids[this][r] in g.text && (dropped <==> g.text[g.kids[this][r]] == [])
      requires height == Sum(Flat(g.kids[this], g.text), g.heights)
      requires Structure(g0) && Removing(g0, g, this, X) && LeafSizesBut(g, g.kids[this][r])
      requires TurnDone(g, this, if dropped then r else r + 1, n, m, goal)
      modifies `children, {g.kids[this][r]}`parent
      ensures this in g'.kids && |g'.kids[this]| == |g.kids[this]| - if dropped then 1 else 0
      ensures height == Sum(Flat(g'.kids[this], g'.text), g'.heights) && WaitsOn(X) && g'.heights == g.heights
      ensures Removing(g0, g', this, X) && LeafSizes(g', {}) && TurnDone(g', this, if dropped then r else r + 1, n, m, goal)
      ensures forall c {:trigger c in g'.text} :: c in g'.text ==> c in g.text
    {
      if dropped {
        g' := DropInTurn(r, n, m, g0, g, X, goal);
      } else {
        g' := g;
        KeptChildSizes(g, g.kids[this][r]);
      }
    }

    /** One turn of the removal loop, for a child that reaches past the first line to remove. */
    method RemoveTurn(r: nat, at: nat, n: nat, ghost g0: Shape, ghost g: Shape, ghost X: set<Chunk>, ghost goal: seq<Line>)
      returns (m: nat, dropped: bool, ghost g': Shape)
      requires this in g.kids && r < |g.kids[this]| && g.kids[this][r] in g.text && at < |g.text[g.kids[this][r]]|
      requires Structure(g0) && Removing(g0, g, this, X) && LeafSizes(g, {}) && ToRemove(g, this, r, at, n, goal)
      requires height == Sum(Flat(g.kids[this], g.text), g.heights)
      modifies g.text.Keys, g.heights.Keys`parent
      ensures this in g'.kids && |g'.kids[this]| == |g.kids[this]| - if dropped then 1 else 0
      ensures height == Sum(Flat(g'.kids[this], g'.text), g'.heights) && g'.heights == g.heights
      ensures Removing(g0, g', this, X) && LeafSizes(g', {}) && Steady(g, g', this, X)
      ensures TurnDone(g', this, if dropped then r else r + 1, n, m, goal)
      ensures var held := |g.text[g.kids[this][r]]|; m == (if n < held - at then n else held - at) && (dropped <==> m == held)
      decreases RankOf(g, this), 1
    {
      assert BodyOk(this, g);
      ProgressBelow(g0, g, this, X, r);
      assert TotalsOk(children[r], g);
      var o := children[r].ChunkSize();
      m := if n < o - at then n else o - at;
      ghost var g1 := LoseInChild(r, at, n, m, g0, g, X, goal);
      dropped := o == m;
      g' := FinishTurn(r, n, m, dropped, g0, g1, X, goal);
      forall c | c in g'.text && c !in g.text ensures fresh(c) {
        assert c in g1.text;
      }
    }

    /** A child that ends before the first line to remove is passed over. */
    method SkipTurn(r: nat, at: nat, n: nat, ghost g0: Shape, ghost g: Shape, ghost X: set<Chunk>, ghost goal: seq<Line>)
      returns (past: bool, rest: nat)
      requires Removing(g0, g, this, X) && r < |g.kids[this]|
      requires ToRemove(g, this, r, at, n, goal)
      ensures g.kids[this][r] in g.text && (past <==> at >= |g.text[g.kids[this][r]]|)
      ensures past ==> ToRemove(g, this, r + 1, rest, n, goal)
    {
      assert BodyOk(this, g);
      ProgressBelow(g0, g, this, X, r);
      assert TotalsOk(children[r], g);
      var o := children[r].ChunkSize();
      past, rest := at >= o, at;
      if past {
        ToRemoveSkip(g, this, r, at, n, goal);
        rest := at - o;
      }
    }

    /** One turn of the loop of removeInner: pass over child `r` or take lines from it. */
    method RemoveStep(r: nat, at: nat, n: nat, ghost g0: Shape, ghost g: Shape, ghost X: set<Chunk>, ghost goal: seq<Line>)
      returns (r': nat, at': nat, n': nat, stop: bool, ghost g': Shape)
      requires this in g.kids && r < |g.kids[this]| && Structure(g0) && Removing(g0, g, this, X) && LeafSizes(g, {})
      requires ToRemove(g, this, r, at, n, goal) && height == Sum(Flat(g.kids[this], g.text), g.heights)
      modifies g.text.Keys, g.heights.Keys`parent
      ensures this in g'.kids && children == g'.kids[this] && height == Sum(Flat(g'.kids[this], g'.text), g'.heights)
      ensures Removing(g0, g', this, X) && LeafSizes(g', {}) && Steady(g, g', this, X) && g'.heights == g.heights && RankOf(g', this) == RankOf(g, this)
      ensures if stop then n' == 0 && Flat(g'.kids[this], g'.text) == goal
              else ToRemove(g', this, r', at', n', goal) && |g'.kids[this]| - r' < |g.kids[this]| - r
      decreases RankOf(g, this), 2
    {
      assert BodyOk(this, g);
      var past, rest := SkipTurn(r, at, n, g0, g, X, goal);
      if past {
        r', at', n', stop, g' := r + 1, rest, n, false, g;
      } else {
        var m, dropped;
        m, dropped, g' := RemoveTurn(r, at, n, g0, g, X, goal);
        assert BodyOk(this, g');
        r', at', n', stop := if dropped then r else r + 1, 0, n - m, n == m;
      }
    }

    /** The loop of removeInner; `left` is what it did not find to remove. */
    method RemoveLoop(at: nat, n: nat, ghost g: Shape, ghost X: set<Chunk>, ghost goal: seq<Line>) returns (left: nat, ghost g': Shape)
      requires this in g.kids && children == g.kids[this] && height == Sum(Flat(g.kids[this], g.text), g.heights)
      requires Structure(g) && Removing(g, g, this, X) && LeafSizes(g, {}) && ToRemove(g, this, 0, at, n, goal)
      modifies g.text.Keys, g.heights.Keys`parent
      ensures left == 0 && this in g'.kids && Removing(g, g', this, X) && LeafSizes(g', {}) && Steady(g, g', this, X)
      ensures height == Sum(Flat(g'.kids[this], g'.text), g'.heights) && Flat(g'.kids[this], g'.text) == goal
      decreases RankOf(g, this), 3
    {
      hide Removing, ToRemove, LeafSizes, Structure, Flat, Sum;
      var r: nat, e: nat, stop := 0, at, false;
      left, g' := n, g;
      while !stop && r < |children|
        invariant this in g'.kids && children == g'.kids[this] && g'.heights == g.heights && RankOf(g', this) == RankOf(g, this)
        invariant Removing(g, g', this, X) && LeafSizes(g', {}) && Steady(g, g', this, X)
        invariant height == Sum(Flat(g'.kids[this], g'.text), g'.heights)
        invariant if stop then left == 0 && Flat(g'.kids[this], g'.text) == goal else ToRemove(g', this, r, e, left, goal)
        decreases !stop, |children| - r
      {
        r, e, left, stop, g' := RemoveStep(r, e, left, g, g', X, goal);
      }
      if !stop {
        ToRemoveEnd(g', this, r, e, left, goal);
      }
    }

    /** collapse: the lines under this chunk, appended to those gathered so far. */
    method Gather(acc: seq<Line>, ghost g: Shape, ghost X: set<Chunk>) returns (all: seq<Line>)
      requires Structure(g) && Balanced(g, X) && ChunksOk(g, X) && this in g.text
      requires forall x {:trigger x in X} :: x in X ==> x == this || !Under(g, x, this)
      ensures all == acc + if this in g.kids then Flat(g.kids[this], g.text) else g.text[this]
      decreases RankOf(g, this)
    {
      hide Structure, Balanced, Flat, RankOf;
      assert BodyOk(this, g);
      if leaf { return acc + lines; }
      all := acc;
      var n := 0;
      FlatNone(children, g.text);
      while n < |children|
        invariant 0 <= n <= |children| && children == g.kids[this]
        invariant all == acc + Flat(children[..n], g.text)
        invariant ChunksOk(g, X)
      {
        GatherBelow(g, this, X, n);
        FlatStep(children, n, g.text);
        all := children[n].Gather(all, g, X);
        n := n + 1;
        Regroup(acc, Flat(children[..n - 1], g.text), g.text[children[n - 1]], []);
      }
      assert children[..n] == children;
    }

    method HaveOneLeaf(s: seq<Line>, ghost g: Shape, ghost X: set<Chunk>) returns (leaf: Chunk)
      requires Measured(s, g) && NoDup(s)
      modifies `children, s`parent
      ensures fresh(leaf) && leaf.leaf && leaf.lines == s && leaf.parent == this && children == [leaf]
      ensures Owns(leaf, s) && leaf.height == Sum(s, g.heights)
      ensures SameTotals(X)
    {
      leaf := new Chunk.Leaf(s, g.heights);
      children := [leaf];
      children[0].parent := this;
    }

    /** All lines under this branch move to one new leaf, its only child. */
    method GatherAll(ghost g: Shape, ghost X: set<Chunk>) returns (leaf: Chunk)
      requires Structure(g) && Balanced(g, X) && ChunksOk(g, X) && LinesOk(g) && this in g.kids && this in g.text && this in X
      requires forall x {:trigger x in X} :: x in X ==> x == this || !Under(g, x, this)
      modifies `children, g.heights.Keys`parent
      ensures fresh(leaf) && GatherDone(g, this, leaf, X) && SameTotals(X)
    {
      hide Structure, Balanced, Flat, Sum, Under;
      HeldOwned(g, this, X);
      assert BodyOk(this, g);
      ghost var F := Held(g, this);
      forall l | l in F ensures l in g.heights && l.height == g.heights[l] {
        assert LineUnder(g, this, l);
      }
      var s := Gather([], g, X);
      assert s == F;
      leaf := HaveOneLeaf(s, g, X);
      FieldsStay(g);
      forall c | c in g.text && c !in g.kids && !Under(g, c, this) ensures OwnsText(c, g) {
        assert old(OwnsText(c, g));
        forall l | l in g.text[c] ensures l !in F {
          assert l in F ==> old(LineUnder(g, this, l));
        }
      }
    }

    /** A branch with few lines gives up its children for a single leaf, unless it has just that. */
    method Shrink(left: int, ghost g0: Shape, ghost g: Shape, ghost X: set<Chunk>) returns (ghost g': Shape)
      requires left == 0 && this in g.kids && this in g.rank && g.rank[this] > 0 && size == |Held(g, this)|
      requires Structure(g0) && Removing(g0, g, this, X) && LeafSizes(g, {})
      modifies `children, g.heights.Keys`parent
      ensures this in g'.kids && 0 < |g'.kids[this]| && Held(g', this) == Held(g, this) && LeavesFilled(g', this)
      ensures if |Held(g, this)| < 25 then SingleLeaf(g', this) else g' == g
      ensures Removing(g0, g', this, X) && WaitsOn(X) && g'.heights == g.heights
      ensures forall x {:trigger x in g'.text} :: x in g'.text && x !in g.text ==> fresh(x)
    {
      assert BodyOk(this, g);
      g' := g;
      if |children| > 0 {
        ProgressBelow(g0, g, this, X, 0);
        assert BodyOk(children[0], g);
      }
      if size - left < 25 && (|children| > 1 || |children| == 0 || !children[0].leaf) {
        var leaf := GatherAll(g, X + {this});
        g' := CollapseShape(g0, g, this, leaf, X);
      }
    }

    method LowerSize(n: nat, ghost g: Shape, ghost X: set<Chunk>)
      requires ChunksOk(g, X) && LinesOk(g) && this !in X
      modifies `size
      ensures ChunksOk(g, X + {this}) && LinesOk(g) && size == old(size) - n && SameTotals(X)
    {
      size := size - n;
      FieldsStay(g);
      OwnersStay(g);
    }

    /** The branch gives up its own count first; from here on it waits for its children. */
    method StartRemoval(n: nat, ghost g: Shape, ghost X: set<Chunk>)
      requires ReadyToRemove(g, this, X) && this in g.kids
      modifies `size
      ensures Removing(g, g, this, X) && SameTotals(X) && g.rank[this] > 0
      ensures size == |Held(g, this)| - n && height == Sum(Held(g, this), g.heights)
      ensures g.text[this] == Held(g, this)
    {
      StartShape(g, this, X);
      assert BodyOk(this, g) && TotalsOk(this, g);
      LowerSize(n, g, X);
    }

    /** The children have lost their shares; few lines become one leaf, and the branch stops waiting. */
    method EndRemoval(left: int, ghost g0: Shape, ghost g: Shape, ghost X: set<Chunk>) returns (ghost g': Shape)
      requires left == 0 && this in g.kids && this in g.rank && g.rank[this] > 0
      requires Structure(g0) && Removing(g0, g, this, X) && LeafSizes(g, {})
      requires size == |Held(g, this)| && height == Sum(Held(g, this), g.heights)
      modifies `children, g.heights.Keys`parent
      ensures Removed(g0, g', this, Held(g, this), X) && WaitsOn(X)
      ensures |Held(g, this)| < 25 ==> SingleLeaf(g', this)
      ensures forall x {:trigger x in g'.text} :: x in g'.text && x !in g.text ==> fresh(x)
    {
      ghost var g2 := Shrink(left, g0, g, X);
      g' := FinishRemoval(g0, g2, this, X, Held(g, this));
    }

    /** removeInner of a branch: its children lose their shares, and if few lines are left they become one leaf. */
    method RemoveInner(at: nat, n: nat, ghost g: Shape, ghost X: set<Chunk>) returns (ghost g': Shape)
      requires ReadyToRemove(g, this, X) && at + n <= |g.text[this]| && this in g.kids
      modifies g.text.Keys, g.heights.Keys`parent
      ensures Removal(g, g', this, Without(g.text[this], at, n), X)
      ensures |g.text[this]| - n < 25 ==> SingleLeaf(g', this)
      decreases RankOf(g, this), 4
    {
      ghost var goal := Without(g.text[this], at, n);
      StartRemoval(n, g, X);
      assert BodyOk(this, g);
      assert ToRemove(g, this, 0, at, n, goal);
      var left;
      ghost var g1;
      assert |goal| == |Held(g, this)| - n;
      left, g1 := RemoveLoop(at, n, g, X, goal);
      assert Held(g1, this) == goal;
      g' := EndRemoval(left, g, g1, X);
      forall x | x in g'.text && x !in g.text ensures fresh(x) {
        assert x in g1.text ==> x !in g.text;
      }
    }

    /** The child that holds line number `at` of this branch, and the number the line has there. */
    method ChildAt(at: nat, ghost g: Shape) returns (n: nat, e: nat)
      requires Structure(g) && Balanced(g, {}) && ChunksOk(g, {}) && this in g.kids && at < |Flat(g.kids[this], g.text)|
      ensures n < |children| && children == g.kids[this] && children[n] in g.text
      ensures at == |Flat(children[..n], g.text)| + e && e < |g.text[children[n]]|
    {
      hide Flat, Sum;
      assert BodyOk(this, g);
      n, e := 0, at;
      assert children[..|children|] == children;
      FlatNone(children, g.text);
      GatherBelow(g, this, {}, 0);
      assert TotalsOk(children[n], g);
      while e >= children[n].ChunkSize()
        invariant n < |children| && children == g.kids[this] && ChunksOk(g, {})
        invariant at == |Flat(children[..n], g.text)| + e
        invariant children[n] in g.text && children[n].ChunkSize() == |g.text[children[n]]|
        decreases |children| - n
      {
        FlatStep(children, n, g.text);
        e, n := e - children[n].ChunkSize(), n + 1;
        GatherBelow(g, this, {}, n);
        assert TotalsOk(children[n], g);
      }
    }

    /** The index of a child of this branch, and how many lines the children before it hold. */
    method Before(c: Chunk, ghost g: Shape) returns (n: nat, lines: nat)
      requires Structure(g) && Balanced(g, {}) && ChunksOk(g, {}) && this in g.kids && c in g.kids[this]
      ensures n < |children| && children == g.kids[this] && children[n] == c && c in g.text
      ensures lines == |Flat(children[..n], g.text)|
    {
      hide Flat, Sum;
      assert BodyOk(this, g);
      n, lines := 0, 0;
      FlatNone(children, g.text);
      while children[n] != c
        invariant n < |children| && children == g.kids[this] && ChunksOk(g, {}) && c !in children[..n]
        invariant lines == |Flat(children[..n], g.text)|
        decreases |children| - n
      {
        GatherBelow(g, this, {}, n);
        assert TotalsOk(children[n], g);
        FlatStep(children, n, g.text);
        lines, n := lines + children[n].ChunkSize(), n + 1;
      }
      GatherBelow(g, this, {}, n);
    }

    /** Add `d` to the height of this chunk and of every chunk above it. */
    method AddHeight(d: int, ghost g: Shape)
      requires Structure(g) && this in g.text && forall c {:trigger ParentOk(c, g)} :: c in g.text ==> ParentOk(c, g)
      modifies g.text.Keys`height
      ensures forall c {:trigger c.height} :: c in g.text ==> c.height == old(c.height) + if Under(g, this, c) then d else 0
    {
      hide Structure, Under;
      var n: Chunk? := this;
      ghost var seen: set<Chunk> := {};
      while n != null
        invariant forall c {:trigger ParentOk(c, g)} :: c in g.text ==> ParentOk(c, g)
        invariant n != null ==> n in g.text
        invariant Climbing(g, this, n, seen)
        invariant forall c {:trigger c.height} :: c in g.text ==> c.height == old(c.height) + if c in seen then d else 0
        decreases if n == null then 0 else RankOf(g, g.root) - RankOf(g, n) + 1
      {
        assert ParentOk(n, g);
        ClimbStep(g, this, n, if n in g.up then g.up[n] else null, seen);
        n.height := n.height + d;
        seen, n := seen + {n}, n.parent;
      }
    }

    /** How high the children before a child of this branch are together. */
    method HeightBefore(c: Chunk, ghost g: Shape) returns (h: int, ghost n: nat)
      requires Structure(g) && Balanced(g, {}) && ChunksOk(g, {}) && this in g.kids && c in g.kids[this]
      ensures n < |g.kids[this]| && g.kids[this][n] == c && c in g.text
      ensures h == Sum(Flat(g.kids[this][..n], g.text), g.heights)
    {
      hide Flat, Sum;
      assert BodyOk(this, g);
      var a := 0;
      h := 0;
      FlatNone(children, g.text);
      SumNone(g.heights);
      while a < |children| && children[a] != c
        invariant a <= |children| && children == g.kids[this] && ChunksOk(g, {}) && c !in children[..a]
        invariant h == Sum(Flat(children[..a], g.text), g.heights)
      {
        GatherBelow(g, this, {}, a);
        assert TotalsOk(children[a], g);
        FlatStep(children, a, g.text);
        SumAppend(Flat(children[..a], g.text), g.text[children[a]], g.heights);
        h, a := h + children[a].height, a + 1;
      }
      n := a;
      GatherBelow(g, this, {}, n);
    }

    /** How high the lines before a line of this leaf are together. */
    method HeightBeforeLine(line: Line, ghost heights: map<Line, nat>) returns (h: int, ghost n: nat)
      requires leaf && line in lines && forall l :: l in lines ==> l in heights && l.height == heights[l]
      ensures n < |lines| && lines[n] == line && h == Sum(lines[..n], heights)
    {
      h, n := 0, 0;
      var i := 0;
      while i < |lines| && lines[i] != line
        invariant i <= |lines| && line !in lines[..i] && h == Sum(lines[..i], heights)
      {
        assert lines[i] in lines && lines[..i + 1] == lines[..i] + [lines[i]];
        SumAppend(lines[..i], [lines[i]], heights);
        h, i := h + lines[i].height, i + 1;
      }
      n := i;
    }

    /** The first child that ends below height `h`, with the lines and the height before it. */
    method ChildAtHeight(h: int, ghost g: Shape) returns (n: nat, r: nat, t: int)
      requires Structure(g) && Balanced(g, {}) && ChunksOk(g, {}) && this in g.kids
      ensures n <= |children| && children == g.kids[this]
      ensures r == |Flat(children[..n], g.text)| && t == h - Sum(Flat(children[..n], g.text), g.heights)
      ensures n > 0 ==> Sum(Flat(children[..n], g.text), g.heights) <= h
      ensures n < |children| ==> children[n] in g.text && t < Sum(g.text[children[n]], g.heights)
    {
      hide Flat, Sum;
      assert BodyOk(this, g);
      n, r, t := 0, 0, h;
      FlatNone(children, g.text);
      SumNone(g.heights);
      while n < |children|
        invariant n <= |children| && children == g.kids[this] && ChunksOk(g, {})
        invariant r == |Flat(children[..n], g.text)| && t == h - Sum(Flat(children[..n], g.text), g.heights)
        invariant n > 0 ==> t >= 0
      {
        GatherBelow(g, this, {}, n);
        assert TotalsOk(children[n], g);
        if t < children[n].height { return; }
        FlatStep(children, n, g.text);
        SumAppend(Flat(children[..n], g.text), g.text[children[n]], g.heights);
        n, r, t := n + 1, r + children[n].ChunkSize(), t - children[n].height;
      }
    }

    /** The first line of this leaf that ends below height `h`. */
    method LineAtHeight(h: int, ghost heights: map<Line, nat>) returns (a: nat)
      requires leaf && forall l :: l in lines ==> l in heights && l.height == heights[l]
      ensures IsLineAt(lines, heights, h, a)
    {
      var t := h;
      a := 0;
      while a < |lines|
        invariant a <= |lines| && t == h - Above(lines, heights, a) && (a > 0 ==> t >= 0)
      {
        assert lines[a] in lines;
        AboveStep(lines, heights, a);
        if t < lines[a].height { break; }
        t, a := t - lines[a].height, a + 1;
      }
    }

    /** iterN of a leaf: call back for `n` lines from `at` on, until the callback says stop. */
    method IterLines(at: nat, n: nat, stop: Line -> bool, seen: seq<Line>) returns (seen': seq<Line>, stopped: bool)
      requires leaf && at + n <= |lines|
      ensures seen' == seen + Upto(lines[at..at + n], stop)
      ensures stopped <==> Stops(lines[at..at + n], stop)
    {
      hide Upto, Stops;
      var e := at;
      seen' := seen;
      UptoNone(stop);
      while e < at + n
        invariant at <= e <= at + n
        invariant seen' == seen + lines[at..e] && !Stops(lines[at..e], stop)
      {
        UptoStep(lines, at, e, at + n, stop);
        Regroup(seen, lines[at..e], [lines[e]], []);
        seen' := seen' + [lines[e]];
        if stop(lines[e]) {
          return seen', true;
        }
        e := e + 1;
      }
      UptoIsPrefix(lines[at..at + n], stop);
      return seen', false;
    }

    /** iterN: visit `n` lines from number `at` on, in order, until the callback says stop. */
    method IterN(at: nat, n: nat, stop: Line -> bool, seen: seq<Line>, ghost g: Shape) returns (seen': seq<Line>, stopped: bool)
      requires Structure(g) && Balanced(g, {}) && ChunksOk(g, {}) && this in g.text && at + n <= |g.text[this]|
      ensures seen' == seen + Upto(g.text[this][at..at + n], stop)
      ensures stopped <==> Stops(g.text[this][at..at + n], stop)
      decreases RankOf(g, this)
    {
      hide Structure, Balanced, Flat, Visiting, RankOf;
      assert BodyOk(this, g);
      if leaf {
        seen', stopped := IterLines(at, n, stop, seen);
        return;
      }
      VisitReady(g, this, at, n);
      ghost var rest := g.text[this][at..at + n];
      ghost var goal, stops := seen + Upto(rest, stop), Stops(rest, stop);
      var r: nat, e: nat, t: nat := 0, at, n;
      seen' := seen;
      while r < |children|
        invariant children == g.kids[this] && ChunksOk(g, {})
        invariant Visiting(children, g.text, r, e, t, rest) && Visited(seen', rest, goal, stops, stop)
      {
        GatherBelow(g, this, {}, r);
        var i := children[r];
        assert TotalsOk(i, g);
        var o := i.ChunkSize();
        if e < o {
          var a := if t < o - e then t else o - e;
          ghost var m, part;
          m, part, rest := VisitTurn(children, g.text, r, e, t, rest, seen', goal, stops, stop);
          seen', stopped := i.IterN(e, a, stop, seen', g);
          if stopped { return; }
          t := t - a;
          if t == 0 { return; }
          e := 0;
        } else {
          VisitSkip(children, g.text, r, e, t, rest);
          e := e - o;
        }
        r := r + 1;
      }
      VisitEnd(children, g.text, r, e, t, rest);
      stopped := false;
    }
  }
}
