/**
 What the methods of the line tree need to know about its shape alone: how splitting and wrapping
 branches changes the number of children, where a removal stands, and what lies under a chunk.
 */
module Shapes {
  import opened Graphs
  import opened Lists
  import opened Walks

  // ----- sizes of branches and leaves

  /** Every branch has between one and ten children. */
  ghost predicate BranchesSmall<C, L>(g: Graph<C, L>, except: set<C>) {
    forall b {:trigger g.kids[b]} :: b in g.kids && b !in except ==> 0 < |g.kids[b]| <= 10
  }

  /** The tree has the same lines in the same leaves, and perhaps more branches. */
  ghost predicate Grown<C, L>(g: Graph<C, L>, g': Graph<C, L>) {
    && g'.root == g.root && g'.heights == g.heights
    && g.root in g.text && g.root in g'.text && g'.text[g.root] == g.text[g.root]
    && g.text.Keys <= g'.text.Keys
    && (forall c {:trigger g'.text[c]} :: c in g'.text && c !in g'.kids ==> c in g.text && c !in g.kids && g'.text[c] == g.text[c])
  }

  lemma SplitGrows<C, L>(g: Graph<C, L>, g': Graph<C, L>, e: C, t: C, k: nat, i: nat)
    requires CanSplit(g, e, t, k, i) && IsSplit(g, g', e, t, k, i)
    ensures Grown(g, g')
  {
  }

  lemma SplitCounts<C, L>(g: Graph<C, L>, g': Graph<C, L>, e: C, t: C, k: nat, i: nat)
    requires CanSplit(g, e, t, k, i) && IsSplit(g, g', e, t, k, i)
    requires k + 5 == |g.kids[e]| && BranchesSmall(g, {e, g.up[e]})
    ensures e in g'.kids && |g'.kids[e]| == k && e in g'.up && g'.up[e] == g.up[e]
    ensures g.up[e] in g'.kids && |g'.kids[g.up[e]]| == |g.kids[g.up[e]]| + 1
    ensures BranchesSmall(g', {e, g.up[e]})
  {
    assert g.up[e] in g.kids;
    assert e !in g'.kids[t] by { assert e !in g.kids[e]; }
    forall b | b in g'.kids && b !in {e, g.up[e]} ensures 0 < |g'.kids[b]| <= 10 {
      assert b != t ==> 0 < |g.kids[b]| <= 10;
    }
  }

  lemma WrapGrows<C, L>(g: Graph<C, L>, g1: Graph<C, L>, n: C)
    requires Structure(g) && n !in g.text && IsWrap(g, g1, n)
    requires BranchesSmall(g, {g.root}) && |g.kids[g.root]| > 10
    ensures Grown(g, g1)
    ensures BranchesSmall(g1, {n, g1.up[n]}) && |g1.kids[n]| == |g.kids[g.root]| && |g1.kids[g1.up[n]]| == 1
    ensures n in g1.kids && n in g1.up && g1.up[n] == g1.root == g.root && n !in g1.kids[n]
  {
  }

  lemma RootSplitShapes<C, L>(g: Graph<C, L>, n: C, t: C, k: nat) returns (g1: Graph<C, L>, g': Graph<C, L>)
    requires Structure(g) && Balanced(g, {}) && n !in g.text && t !in g.text && n != t
    requires 0 < k && k + 5 == |g.kids[g.root]| && |g.kids[g.root]| > 10 && BranchesSmall(g, {g.root})
    ensures IsWrap(g, g1, n) && t !in g1.text && IsSplit(g1, g', n, t, k, 0)
    ensures Structure(g') && Balanced(g', {}) && Grown(g, g')
    ensures forall c :: c in g'.text ==> c in g.text || c == n || c == t
    ensures n in g'.kids && |g'.kids[n]| == k && n in g'.up && g'.up[n] == g.root
    ensures g.root in g'.kids && |g'.kids[g.root]| == 2 && BranchesSmall(g', {n, g.root})
  {
    g1 := WrapRootOk(g, n);
    WrapGrows(g, g1, n);
    g' := SplitBranchOk(g1, n, t, k, 0);
    RootSplitCounts(g, g1, g', n, t, k);
  }

  lemma RootSplitCounts<C, L>(g: Graph<C, L>, g1: Graph<C, L>, g': Graph<C, L>, n: C, t: C, k: nat)
    requires IsWrap(g, g1, n) && Grown(g, g1) && CanSplit(g1, n, t, k, 0) && IsSplit(g1, g', n, t, k, 0)
    requires n in g1.up && g1.up[n] == g.root && k + 5 == |g1.kids[n]| && |g1.kids[g.root]| == 1 && BranchesSmall(g1, {n, g.root})
    ensures Grown(g, g')
    ensures forall c :: c in g'.text ==> c in g.text || c == n || c == t
    ensures n in g'.kids && |g'.kids[n]| == k && n in g'.up && g'.up[n] == g.root
    ensures g.root in g'.kids && |g'.kids[g.root]| == 2 && BranchesSmall(g', {n, g.root})
  {
    SplitGrows(g1, g', n, t, k, 0);
    SplitCounts(g1, g', n, t, k, 0);
    GrownTrans(g, g1, g');
  }

  lemma GrownTrans<C, L>(g: Graph<C, L>, g1: Graph<C, L>, g2: Graph<C, L>)
    requires Grown(g, g1) && Grown(g1, g2)
    ensures Grown(g, g2)
  {
  }

  // ----- spilling towards the root

  /** Distance from the root, as far as termination of the spill goes. */
  ghost function SpillRank<C, L>(g: Graph<C, L>, c: C): nat {
    if c in g.rank && g.root in g.rank && g.rank[c] <= g.rank[g.root] then g.rank[g.root] - g.rank[c] else 0
  }

  /** Where the spill of `c` stands: below the root `c` itself shrinks, at the root the branch that took its children does. */
  ghost predicate SpillState<C, L>(g: Graph<C, L>, g': Graph<C, L>, c: C, e: C) {
    && c in g.kids && e in g'.kids && c in g'.kids
    && if c in g.up then
         && e == c && c in g'.up && g'.up[c] == g.up[c]
         && (forall x :: x in g.rank ==> x in g'.rank && g'.rank[x] == g.rank[x])
         && BranchesSmall(g', {c, g'.up[c]})
       else if e == c then
         g' == g
       else
         && e in g'.up && g'.up[e] == c && BranchesSmall(g', {e, c})
         && 5 * (|g'.kids[c]| - 1) + |g'.kids[e]| == |g.kids[c]|
  }

  /** The recursive call on the parent is on a chunk nearer to the root, or on the root with fewer children. */
  lemma SpillCloser<C, L>(g: Graph<C, L>, g': Graph<C, L>, c: C, e: C)
    requires Structure(g) && Structure(g') && g'.root == g.root && c in g.kids && |g.kids[c]| > 10
    requires SpillState(g, g', c, e) && 6 <= |g'.kids[e]| <= 10 && e in g'.up
    ensures g'.up[e] in g'.kids
    ensures SpillRank(g', g'.up[e]) < SpillRank(g, c)
      || (SpillRank(g', g'.up[e]) == SpillRank(g, c) && |g'.kids[g'.up[e]]| < |g.kids[c]|)
    ensures BranchesSmall(g', {g'.up[e]})
  {
    if c in g.up {
      assert g.rank[c] < g.rank[g.up[c]] <= g.rank[g.root];
    }
  }

  // ----- lines for new leaves

  ghost predicate NoneShared<T>(a: seq<T>, b: seq<T>) {
    forall x :: x in a ==> x !in b
  }

  lemma NoneSharedCut<T>(a: seq<T>, b: seq<T>, k: nat)
    requires NoneShared(a, b) && k <= |b|
    ensures NoneShared(a, b[..k]) && NoneShared(a, b[k..])
  {
  }

  lemma CutLines<L>(ls: seq<L>, s: nat, rest: seq<L>, flat: seq<L>, heights: map<L, nat>)
    requires s + 25 <= |ls| && rest == ls[s..] && NoDup(rest)
    ensures rest[25..] == ls[s + 25..] && NoDup(rest[25..]) && forall l :: l in rest[25..] ==> l in rest
    ensures flat + rest[..25] + rest[25..] == flat + rest
    ensures Sum(flat + rest[..25], heights) == Sum(flat, heights) + Sum(rest[..25], heights)
  {
    NoDupCut(rest, 25);
    MoveOver(flat, rest, 25);
    SumAppend(flat, rest[..25], heights);
  }

  lemma SplitLeafReady<C, L>(g: Graph<C, L>, p: C, n: nat)
    requires Structure(g) && p in g.kids && n < |g.kids[p]|
    ensures var i := g.kids[p][n]; p in g.text && i in g.up && g.up[i] == p && i != p && g.root in g.kids && g.root in g.text
  {
  }

  ghost predicate LeafSizes<C, L>(g: Graph<C, L>, except: set<C>) {
    forall c {:trigger g.text[c]} :: c in g.text && c !in g.kids && c !in except ==> 0 < |g.text[c]| <= 50
  }

  ghost predicate SameRoot<C, L>(g: Graph<C, L>, g': Graph<C, L>) {
    && g'.root == g.root && g'.heights == g.heights
    && g.root in g.text && g.root in g'.text
    && g.text.Keys <= g'.text.Keys
  }

  lemma RetextSizes<C, L>(g: Graph<C, L>, g': Graph<C, L>, c: C, ls: seq<L>)
    requires IsRetext(g, g', c, ls) && LeafSizes(g, {}) && BranchesSmall(g, {})
    ensures LeafSizes(g', {c}) && BranchesSmall(g', {})
  {
  }

  ghost function RankOf<C, L>(g: Graph<C, L>, c: C): nat {
    if c in g.rank then g.rank[c] else 0
  }

  // ----- removal

  /** Leaves are neither empty nor too long, unless they lie under `c` and `c` is empty. */
  ghost predicate LeafSizesBut<C, L>(g: Graph<C, L>, c: C) {
    forall x {:trigger g.text[x]} :: x in g.text && x !in g.kids ==>
      |g.text[x]| <= 50 && (|g.text[x]| > 0 || (c in g.text && g.text[c] == [] && Under(g, x, c)))
  }

  /** A child of `p` has lost `m` lines from position `at` on: what that does to the lines of `p`. */
  lemma ChildLines<C, L>(ks: seq<C>, r: nat, at: nat, m: nat, g: Graph<C, L>, g': Graph<C, L>)
    requires r < |ks| && NoDup(ks) && ks[r] in g.text && ks[r] in g'.text && at + m <= |g.text[ks[r]]|
    requires g'.text[ks[r]] == Without(g.text[ks[r]], at, m)
    requires forall k :: k in ks && k != ks[r] ==> k in g.text && k in g'.text && g'.text[k] == g.text[k]
    ensures var c, F, F', pos := ks[r], Flat(ks, g.text), Flat(ks, g'.text), |Flat(ks[..r], g.text)|;
      && pos + at + m <= |F| && F' == Without(F, pos + at, m)
      && Flat(ks[..r], g'.text) == Flat(ks[..r], g.text)
      && |Flat(ks[..r + 1], g'.text)| == pos + |g.text[c]| - m
      && Sum(F, g.heights) - Sum(F', g.heights) == Sum(g.text[c], g.heights) - Sum(g'.text[c], g.heights)
  {
    FlatWithout(ks, r, g.text, g'.text, at, m);
    SumWithout(Flat(ks, g.text), |Flat(ks[..r], g.text)| + at, m, g.heights);
    SumWithout(g.text[ks[r]], at, m, g.heights);
  }

  /** How far the removal loop of a branch has come: the lines it still holds, and what is left to remove of them. */
  ghost predicate ToRemove<C, L>(g: Graph<C, L>, p: C, r: nat, at: int, n: int, goal: seq<L>) {
    && p in g.kids && r <= |g.kids[p]| && 0 <= at && 0 <= n
    && var F, pos := Flat(g.kids[p], g.text), |Flat(g.kids[p][..r], g.text)|;
    && pos + at + n <= |F| && Without(F, pos + at, n) == goal
  }

  /** Passing over a child that ends before the first line to remove. */
  lemma ToRemoveSkip<C, L>(g: Graph<C, L>, p: C, r: nat, at: nat, n: nat, goal: seq<L>)
    requires ToRemove(g, p, r, at, n, goal) && r < |g.kids[p]| && g.kids[p][r] in g.text && |g.text[g.kids[p][r]]| <= at
    ensures ToRemove(g, p, r + 1, at - |g.text[g.kids[p][r]]|, n, goal)
  {
    FlatStep(g.kids[p], r, g.text);
  }

  /** At the end of the children there is nothing left to remove. */
  lemma ToRemoveEnd<C, L>(g: Graph<C, L>, p: C, r: nat, at: nat, n: nat, goal: seq<L>)
    requires ToRemove(g, p, r, at, n, goal) && r >= |g.kids[p]|
    ensures n == 0 && Flat(g.kids[p], g.text) == goal
  {
    assert g.kids[p][..|g.kids[p]|] == g.kids[p];
  }

  /** Removing inside child `r`, which keeps some lines, leaves less to remove behind it. */
  lemma ToRemoveChild<C, L>(g: Graph<C, L>, g': Graph<C, L>, p: C, r: nat, at: nat, n: nat, m: nat, goal: seq<L>)
    requires ToRemove(g, p, r, at, n, goal) && r < |g.kids[p]| && NoDup(g.kids[p]) && m <= n
    requires g.kids[p][r] in g.text && g.kids[p][r] in g'.text && at + m <= |g.text[g.kids[p][r]]|
    requires p in g'.kids && g'.kids[p] == g.kids[p] && g'.text[g.kids[p][r]] == Without(g.text[g.kids[p][r]], at, m)
    requires forall k :: k in g.kids[p] && k != g.kids[p][r] ==> k in g.text && k in g'.text && g'.text[k] == g.text[k]
    requires m == n || at + m == |g.text[g.kids[p][r]]|
    ensures ToRemove(g', p, r + 1, 0, n - m, goal) || m == n
    ensures m == n ==> Flat(g'.kids[p], g'.text) == goal
    ensures at == 0 && m == |g.text[g.kids[p][r]]| ==> ToRemove(g', p, r, 0, n - m, goal)
  {
    var ks := g.kids[p];
    var F, pos := Flat(ks, g.text), |Flat(ks[..r], g.text)|;
    ChildLines(ks, r, at, m, g, g');
    WithoutTwice(F, pos + at, m, n);
    assert m == n ==> Without(Without(F, pos + at, m), pos + at, 0) == Without(F, pos + at, m);
  }

  /** After the turn in which child `r` lost `m` lines: that child is there or gone, and the walk goes on behind it. */
  ghost predicate TurnDone<C, L>(g': Graph<C, L>, p: C, r: nat, n: nat, m: nat, goal: seq<L>) {
    && m <= n && p in g'.kids
    && (m == n ==> Flat(g'.kids[p], g'.text) == goal)
    && (m < n ==> ToRemove(g', p, r, 0, n - m, goal))
  }

  /** A child that has lost all its lines is dropped, and the walk goes on at the same index. */
  lemma TurnDropped<C, L>(g1: Graph<C, L>, g': Graph<C, L>, p: C, r: nat, n: nat, m: nat, goal: seq<L>)
    requires TurnDone(g1, p, r, n, m, goal) && r < |g1.kids[p]| && p in g'.kids
    requires g'.kids[p] == g1.kids[p][..r] + g1.kids[p][r + 1..]
    requires Flat(g'.kids[p], g'.text) == Flat(g1.kids[p], g1.text)
    requires Flat(g'.kids[p][..r], g'.text) == Flat(g1.kids[p][..r], g1.text)
    ensures TurnDone(g', p, r, n, m, goal)
  {
  }

  /** A child that keeps some lines leaves no leaf empty. */
  lemma KeptChildSizes<C, L>(g: Graph<C, L>, c: C)
    requires LeafSizesBut(g, c) && c in g.text && g.text[c] != []
    ensures LeafSizes(g, {})
  {
  }

  // ----- what lies under a chunk

  /** The lines under `c` as its children hold them. */
  ghost function Held<C, L>(g: Graph<C, L>, c: C): seq<L> {
    if c in g.kids then Flat(g.kids[c], g.text) else if c in g.text then g.text[c] else []
  }

  /** A line under a chunk is a line of every chunk above. */
  lemma {:induction false} UnderHolds<C, L>(g: Graph<C, L>, x: C, c: C, l: L)
    requires Structure(g) && Balanced(g, {}) && x in g.text && l in g.text[x] && Under(g, x, c) && c in g.text
    ensures l in g.text[c]
    decreases g.rank[g.root] - g.rank[x]
  {
    if x != c {
      var p := g.up[x];
      assert g.text[p] == Flat(g.kids[p], g.text);
      var i :| 0 <= i < |g.kids[p]| && g.kids[p][i] == x;
      FlatAround(g.kids[p], i, g.text);
      UnderHolds(g, p, c, l);
    }
  }

  /** Leaves are neither empty nor too long, unless the lines under `p` are gone. */
  ghost predicate LeavesFilled<C, L>(g: Graph<C, L>, p: C) {
    forall x {:trigger g.text[x]} :: x in g.text && x !in g.kids ==>
      |g.text[x]| <= 50 && (|g.text[x]| > 0 || (Held(g, p) == [] && Under(g, x, p)))
  }

  /** The branch has one child, and that is a leaf. */
  ghost predicate SingleLeaf<C, L>(g: Graph<C, L>, p: C) {
    p in g.kids && |g.kids[p]| == 1 && g.kids[p][0] !in g.kids
  }

  /** A branch that is ready for a removal has made no progress yet. */
  lemma StartShape<C, L>(g: Graph<C, L>, p: C, X: set<C>)
    requires Structure(g) && Balanced(g, X) && BranchesSmall(g, {}) && p in g.kids
    requires p in g.text && p !in X && (p in g.up ==> g.up[p] in X)
    requires forall x {:trigger x in X} :: x in X ==> x in g.text && !Under(g, x, p)
    ensures Progress(g, g, p, X) && g.rank[p] > 0 && 0 < |g.kids[p]| <= 10 && g.text[p] == Held(g, p)
  {
    assert PointTo(g.kids[p], p, g.up) && g.kids[p][0] in g.up && g.up[g.kids[p][0]] == p;
    assert SameOutside(g, g, p);
  }

  /** The children of a chunk can be gathered if it can. */
  lemma GatherBelow<C, L>(g: Graph<C, L>, p: C, X: set<C>, n: nat)
    requires Structure(g) && p in g.kids && n < |g.kids[p]|
    requires Balanced(g, X) && forall x {:trigger x in X} :: x in X ==> x == p || !Under(g, x, p)
    ensures var c := g.kids[p][n];
      && c in g.text && RankOf(g, c) < RankOf(g, p)
      && (c in g.kids ==> g.text[c] == Flat(g.kids[c], g.text))
      && forall x {:trigger x in X} :: x in X ==> x == c || !Under(g, x, c)
  {
    var c := g.kids[p][n];
    assert PointTo(g.kids[p], p, g.up) && c in g.up && g.up[c] == p;
    NotUnder(g, p, c);
    forall x | x in X ensures !Under(g, x, c) {
      if Under(g, x, c) {
        UnderUp(g, x, c);
      }
    }
    assert Under(g, c, c);
  }

  lemma RootBranch<C, L>(g: Graph<C, L>)
    requires Structure(g)
    ensures g.root in g.kids && g.root in g.text
  {
  }

  lemma RootText<C, L>(g: Graph<C, L>)
    requires Balanced(g, {}) && g.root in g.kids && g.root in g.text
    ensures g.text[g.root] == Flat(g.kids[g.root], g.text)
  {
  }

  lemma BranchText<C, L>(g: Graph<C, L>, c: C)
    requires Structure(g) && Balanced(g, {}) && BranchesSmall(g, {}) && c in g.kids
    ensures c in g.text && g.text[c] == Flat(g.kids[c], g.text) && |g.kids[c]| > 0
    ensures forall i :: 0 <= i < |g.kids[c]| ==> g.kids[c][i] != g.root
  {
    forall i | 0 <= i < |g.kids[c]| ensures g.kids[c][i] != g.root {
      assert PointTo(g.kids[c], c, g.up) && g.kids[c][i] in g.up;
    }
  }

  /** A visit of a branch starts with its first child. */
  lemma VisitReady<C, L>(g: Graph<C, L>, p: C, at: nat, n: nat)
    requires Balanced(g, {}) && p in g.kids && p in g.text && at + n <= |g.text[p]|
    ensures Visiting(g.kids[p], g.text, 0, at, n, g.text[p][at..at + n])
  {
    assert g.text[p] == Flat(g.kids[p], g.text) && g.kids[p][..0] == [];
  }
}
