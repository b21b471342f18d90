/**
 The shape of a tree of chunks as a plain value: which chunks a branch has as children, which
 lines lie under a chunk, and where the parent pointers go.  The chunk classes keep such a value
 beside the heap; what an update does to the shape is proved here, without the heap.
 `C` stands for chunks and `L` for lines.
 */
module Graphs {
  import opened Lists

  datatype Graph<C(==), L(==)> = Graph(
    root: C,
    kids: map<C, seq<C>>,   // the children of each branch, in order
    text: map<C, seq<L>>,   // the lines under each chunk, in order
    up: map<C, C>,          // the parent of each chunk but the root
    rank: map<C, nat>,      // grows strictly towards the root
    heights: map<L, nat>    // the height of each line
  )

  /** The lines under a list of chunks. */
  ghost function Flat<C, L>(ks: seq<C>, text: map<C, seq<L>>): seq<L> {
    if ks == [] then [] else (if ks[0] in text then text[ks[0]] else []) + Flat(ks[1..], text)
  }

  /** The total height of a list of lines. */
  ghost function Sum<L>(ls: seq<L>, heights: map<L, nat>): nat {
    if ls == [] then 0 else (if ls[0] in heights then heights[ls[0]] else 0) + Sum(ls[1..], heights)
  }

  // ----- what a tree is

  ghost predicate KeysOk<C, L>(g: Graph<C, L>) {
    && g.root in g.kids
    && g.kids.Keys <= g.text.Keys
    && g.up.Keys == g.text.Keys - {g.root}
    && g.rank.Keys == g.text.Keys
  }

  ghost predicate PointTo<C>(ks: seq<C>, b: C, up: map<C, C>) {
    forall i :: 0 <= i < |ks| ==> ks[i] in up && up[ks[i]] == b
  }

  /** The children of a branch are distinct and point back to it. */
  ghost predicate KidsOk<C, L>(g: Graph<C, L>) {
    forall b {:trigger g.kids[b]} :: b in g.kids ==> NoDup(g.kids[b]) && PointTo(g.kids[b], b, g.up)
  }

  /** Every chunk but the root is a child of its parent. */
  ghost predicate UpOk<C, L>(g: Graph<C, L>) {
    forall c {:trigger g.up[c]} :: c in g.up ==> g.up[c] in g.kids && c in g.kids[g.up[c]]
  }

  ghost predicate RankOk<C, L>(g: Graph<C, L>) {
    && (forall c {:trigger g.up[c]} :: c in g.up ==> c in g.rank && g.up[c] in g.rank && g.rank[c] < g.rank[g.up[c]])
    && (forall c {:trigger g.rank[c]} :: c in g.rank ==> g.root in g.rank && g.rank[c] <= g.rank[g.root])
  }

  ghost predicate Structure<C, L>(g: Graph<C, L>) {
    KeysOk(g) && KidsOk(g) && UpOk(g) && RankOk(g)
  }

  /** Outside `except`, the lines of a branch are those of its children. */
  ghost predicate Balanced<C, L>(g: Graph<C, L>, except: set<C>) {
    forall b {:trigger Flat(g.kids[b], g.text)} :: b in g.kids && b !in except ==> b in g.text && g.text[b] == Flat(g.kids[b], g.text)
  }

  // ----- lists of chunks and lines

  lemma Regroup<T>(a: seq<T>, b: seq<T>, c: seq<T>, d: seq<T>)
    ensures a + b + c == a + (b + c)
    ensures a + b + c + d == a + (b + c) + [] + d
  {
  }

  lemma {:induction false} FlatAppend<C, L>(a: seq<C>, b: seq<C>, text: map<C, seq<L>>)
    ensures Flat(a + b, text) == Flat(a, text) + Flat(b, text)
  {
    if a == [] {
      assert a + b == b;
    } else {
      FlatAppend(a[1..], b, text);
      assert (a + b)[1..] == a[1..] + b;
      Regroup(if a[0] in text then text[a[0]] else [], Flat(a[1..], text), Flat(b, text), []);
    }
  }

  lemma FlatOne<C, L>(c: C, text: map<C, seq<L>>)
    requires c in text
    ensures Flat([c], text) == text[c]
  {
    assert [c][1..] == [];
  }

  lemma {:induction false} FlatSame<C, L>(ks: seq<C>, text: map<C, seq<L>>, text': map<C, seq<L>>)
    requires forall k :: k in ks ==> k in text && k in text' && text[k] == text'[k]
    ensures Flat(ks, text) == Flat(ks, text')
  {
    if ks != [] {
      FlatSame(ks[1..], text, text');
    }
  }

  lemma {:induction false} SumAppend<L>(a: seq<L>, b: seq<L>, heights: map<L, nat>)
    ensures Sum(a + b, heights) == Sum(a, heights) + Sum(b, heights)
  {
    if a == [] {
      assert a + b == b;
    } else {
      SumAppend(a[1..], b, heights);
      assert (a + b)[1..] == a[1..] + b;
    }
  }

  lemma FlatNone<C, L>(ks: seq<C>, text: map<C, seq<L>>)
    ensures Flat(ks[..0], text) == [] && Flat([], text) == []
  {
  }

  /** A list of chunks cut around one of them. */
  lemma FlatAround<C, L>(ks: seq<C>, i: nat, text: map<C, seq<L>>)
    requires i < |ks| && ks[i] in text
    ensures Flat(ks, text) == Flat(ks[..i], text) + text[ks[i]] + Flat(ks[i + 1..], text)
  {
    assert ks == ks[..i] + ([ks[i]] + ks[i + 1..]);
    FlatAppend(ks[..i], [ks[i]] + ks[i + 1..], text);
    FlatAppend([ks[i]], ks[i + 1..], text);
    FlatOne(ks[i], text);
  }

  /** A branch with one child's lines replaced. */
  lemma FlatReplace<C, L>(ks: seq<C>, i: nat, text: map<C, seq<L>>, ls: seq<L>)
    requires i < |ks| && ks[i] in text && NoDup(ks) && forall k :: k in ks ==> k in text
    ensures Flat(ks, text[ks[i] := ls]) == Flat(ks[..i], text) + ls + Flat(ks[i + 1..], text)
  {
    var text' := text[ks[i] := ls];
    NoDupAt(ks, i);
    FlatAround(ks, i, text');
    FlatSame(ks[..i], text, text');
    FlatSame(ks[i + 1..], text, text');
  }

  /** One child hands part of its lines to new siblings on its right. */
  lemma FlatExpand<C, L>(a: seq<C>, x: C, new_: seq<C>, b: seq<C>, text: map<C, seq<L>>, text': map<C, seq<L>>)
    requires x in text && x in text' && text[x] == text'[x] + Flat(new_, text')
    requires Flat(a, text) == Flat(a, text') && Flat(b, text) == Flat(b, text')
    ensures Flat(a + [x] + new_ + b, text') == Flat(a + [x] + b, text)
  {
    hide Flat;
    FlatNone(a, text);
    FlatFour(a, x, new_, b, text');
    FlatFour(a, x, [], b, text);
    assert a + [x] + [] + b == a + [x] + b;
    Regroup(Flat(a, text'), text'[x], Flat(new_, text'), Flat(b, text'));
  }

  /** The same, for a list cut around the child. */
  lemma FlatExpandAt<C, L>(ks: seq<C>, i: nat, new_: seq<C>, text: map<C, seq<L>>, text': map<C, seq<L>>)
    requires i < |ks| && ks[i] in text && ks[i] in text' && text[ks[i]] == text'[ks[i]] + Flat(new_, text')
    requires forall k :: k in ks[..i] ==> k in text && k in text' && text[k] == text'[k]
    requires forall k :: k in ks[i + 1..] ==> k in text && k in text' && text[k] == text'[k]
    ensures Flat(ks[..i + 1] + new_ + ks[i + 1..], text') == Flat(ks, text)
  {
    hide Flat;
    var a, x, b := ks[..i], ks[i], ks[i + 1..];
    FlatSame(a, text, text');
    FlatSame(b, text, text');
    assert ks == a + [x] + b && ks[..i + 1] == a + [x];
    FlatExpand(a, x, new_, b, text, text');
  }

  /** One step of a walk over the children of a branch. */
  lemma FlatStep<C, L>(ks: seq<C>, n: nat, text: map<C, seq<L>>)
    requires n < |ks| && ks[n] in text
    ensures Flat(ks[..n + 1], text) == Flat(ks[..n], text) + text[ks[n]]
    ensures |Flat(ks[..n + 1], text)| <= |Flat(ks, text)|
  {
    assert ks[..n + 1] == ks[..n] + [ks[n]];
    FlatAppend(ks[..n], [ks[n]], text);
    FlatOne(ks[n], text);
    assert ks == ks[..n + 1] + ks[n + 1..];
    FlatAppend(ks[..n + 1], ks[n + 1..], text);
  }

  /** What is left of position `at` after skipping the first `n` children. */
  ghost function Left<C, L>(ks: seq<C>, n: nat, text: map<C, seq<L>>, at: int): int
    requires n <= |ks|
  {
    at - |Flat(ks[..n], text)|
  }

  /** The first child whose end is not before position `at`, and the position within it. */
  lemma WhereIn<C, L>(ks: seq<C>, text: map<C, seq<L>>, at: nat) returns (n: nat, e: nat)
    requires |ks| > 0 && at <= |Flat(ks, text)| && forall k :: k in ks ==> k in text
    ensures n < |ks| && e == Left(ks, n, text, at) <= |text[ks[n]]|
    ensures Left(ks, 0, text, at) == at
    ensures forall m {:trigger ks[m]} :: 0 <= m < n ==>
      Left(ks, m, text, at) > |text[ks[m]]| && Left(ks, m + 1, text, at) == Left(ks, m, text, at) - |text[ks[m]]|
  {
    n, e := 0, at;
    while e > |text[ks[n]]|
      invariant n < |ks| && e == Left(ks, n, text, at)
      invariant forall m {:trigger ks[m]} :: 0 <= m < n ==>
        Left(ks, m, text, at) > |text[ks[m]]| && Left(ks, m + 1, text, at) == Left(ks, m, text, at) - |text[ks[m]]|
      decreases |ks| - n
    {
      FlatStep(ks, n, text);
      assert ks[..|ks|] == ks;
      e, n := e - |text[ks[n]]|, n + 1;
    }
  }

  lemma FlatSnoc<C, L>(ks: seq<C>, text: map<C, seq<L>>, k: C, ls: seq<L>)
    requires k !in ks && forall x :: x in ks ==> x in text
    ensures Flat(ks + [k], text[k := ls]) == Flat(ks, text) + ls
  {
    FlatAppend(ks, [k], text[k := ls]);
    FlatOne(k, text[k := ls]);
    FlatSame(ks, text, text[k := ls]);
  }
  /** One more new chunk `k`, with lines `ls`, at the end of those already listed between `a` and `b`. */
  lemma AddPiece<C, L>(a: seq<C>, cs: seq<C>, b: seq<C>, pieces: map<C, seq<L>>, k: C, ls: seq<L>)
    returns (cs': seq<C>, pieces': map<C, seq<L>>)
    requires k !in cs && NoDup(cs)
    requires (forall c :: c in cs ==> c in pieces) && (forall c :: c in pieces ==> c in cs)
    ensures NoDup(cs') && |cs'| == |cs| + 1
    ensures (forall c :: c in cs' ==> c in pieces') && (forall c :: c in pieces' ==> c in cs')
    ensures forall c :: c in cs' ==> c == k || c in cs
    ensures k in pieces' && pieces'[k] == ls && forall c :: c in cs ==> c in pieces' && pieces'[c] == pieces[c]
    ensures Flat(cs', pieces') == Flat(cs, pieces) + ls
    ensures |Joined(a, cs, b)| >= |a| + |cs|
    ensures var s, n := Joined(a, cs, b), |a| + |cs|; s[..n] + [k] + s[n..] == Joined(a, cs', b)
  {
    JoinedIs(a, cs, b);
    JoinedIs(a, cs + [k], b);
    cs', pieces' := cs + [k], pieces[k := ls];
    NoDupSnoc(cs, k);
    FlatSnoc(cs, pieces, k, ls);
    InsertAfter(a, cs, b, k);
    assert cs'[|cs|] == k;
  }

  lemma FlatFour<C, L>(a: seq<C>, x: C, m: seq<C>, b: seq<C>, text: map<C, seq<L>>)
    requires x in text
    ensures Flat(a + [x] + m + b, text) == Flat(a, text) + (text[x] + Flat(m, text)) + Flat(b, text)
  {
    FlatAppend(a + [x] + m, b, text);
    FlatAppend(a + [x], m, text);
    FlatAppend(a, [x], text);
    FlatOne(x, text);
  }
  // ----- splitting a branch: its last children move to a new sibling

  ghost function SplitBranch<C, L>(g: Graph<C, L>, e: C, t: C, k: nat, i: nat): Graph<C, L>
    requires e in g.kids && e in g.up && g.up[e] in g.kids && e in g.rank
    requires 0 < k < |g.kids[e]| && i < |g.kids[g.up[e]]|
  {
    var p, first, last := g.up[e], g.kids[e][..k], g.kids[e][k..];
    g.(kids := g.kids[e := first][t := last][p := g.kids[p][..i + 1] + [t] + g.kids[p][i + 1..]],
       text := g.text[e := Flat(first, g.text)][t := Flat(last, g.text)],
       up := (g.up + map x | x in last :: t)[t := p],
       rank := g.rank[t := g.rank[e]])
  }

  ghost predicate CanSplit<C, L>(g: Graph<C, L>, e: C, t: C, k: nat, i: nat) {
    && Structure(g)
    && e in g.kids && e in g.up && t !in g.text
    && 0 < k < |g.kids[e]|
    && i < |g.kids[g.up[e]]| && g.kids[g.up[e]][i] == e
  }

  lemma SplitReady<C, L>(g: Graph<C, L>, e: C)
    requires Structure(g) && e in g.kids && e in g.up
    ensures e in g.text && g.up[e] in g.kids && g.up[e] in g.text && e in g.kids[g.up[e]]
    ensures g.up[e] != e && e !in g.kids[e] && g.up[e] !in g.kids[e]
    ensures forall k :: k in g.kids[e] ==> k in g.text
  {
  }

  lemma SplitBranchParentKids<C, L>(g: Graph<C, L>, e: C, t: C, k: nat, i: nat)
    requires CanSplit(g, e, t, k, i)
    ensures var g', p := SplitBranch(g, e, t, k, i), g.up[e];
            p != e && NoDup(g'.kids[p]) && PointTo(g'.kids[p], p, g'.up)
  {
    var g', p, ks := SplitBranch(g, e, t, k, i), g.up[e], g.kids[g.up[e]];
    assert ks[..i + 1] + ks[i + 1..] == ks;
    assert forall x :: x in ks ==> x in g.text && x != t;
    InsertNoDup(ks[..i + 1], [t], ks[i + 1..]);
    forall j | 0 <= j < |g'.kids[p]| ensures g'.kids[p][j] in g'.up && g'.up[g'.kids[p][j]] == p {
      InsertMember(ks, i + 1, [t], g'.kids[p][j]);
    }
  }

  lemma SplitBranchHalves<C, L>(g: Graph<C, L>, e: C, t: C, k: nat, i: nat)
    requires CanSplit(g, e, t, k, i)
    ensures var g' := SplitBranch(g, e, t, k, i);
            && NoDup(g'.kids[e]) && PointTo(g'.kids[e], e, g'.up)
            && NoDup(g'.kids[t]) && PointTo(g'.kids[t], t, g'.up)
  {
    var g', ks := SplitBranch(g, e, t, k, i), g.kids[e];
    assert t != g.up[e] && e != g.up[e];
    assert g'.kids[e] == ks[0..k] && g'.kids[t] == ks[k..|ks|];
    NoDupPart(ks, 0, k);
    NoDupPart(ks, k, |ks|);
    forall j | 0 <= j < k ensures ks[j] in g'.up && g'.up[ks[j]] == e {
      assert ks[j] !in ks[k..] by { NoDupAt(ks, j); }
    }
  }

  lemma SplitBranchKids<C, L>(g: Graph<C, L>, e: C, t: C, k: nat, i: nat)
    requires CanSplit(g, e, t, k, i)
    ensures KeysOk(SplitBranch(g, e, t, k, i)) && KidsOk(SplitBranch(g, e, t, k, i))
  {
    var g', p := SplitBranch(g, e, t, k, i), g.up[e];
    SplitBranchParentKids(g, e, t, k, i);
    SplitBranchHalves(g, e, t, k, i);
    forall b | b in g'.kids
      ensures NoDup(g'.kids[b]) && PointTo(g'.kids[b], b, g'.up)
    {
      if b != t && b != e && b != p {
        assert g'.kids[b] == g.kids[b];
      }
    }
  }

  lemma SplitBranchUp<C, L>(g: Graph<C, L>, e: C, t: C, k: nat, i: nat)
    requires CanSplit(g, e, t, k, i)
    ensures UpOk(SplitBranch(g, e, t, k, i))
  {
    hide Flat;
    var g', p := SplitBranch(g, e, t, k, i), g.up[e];
    assert p != e;
    forall c | c in g'.up ensures g'.up[c] in g'.kids && c in g'.kids[g'.up[c]] {
      InsertMember(g.kids[p], i + 1, [t], c);
      assert g.kids[e] == g.kids[e][..k] + g.kids[e][k..];
    }
  }

  lemma SplitBranchRank<C, L>(g: Graph<C, L>, e: C, t: C, k: nat, i: nat)
    requires CanSplit(g, e, t, k, i)
    ensures RankOk(SplitBranch(g, e, t, k, i))
  {
  }

  lemma SplitBranchParentText<C, L>(g: Graph<C, L>, e: C, t: C, k: nat, i: nat)
    requires CanSplit(g, e, t, k, i) && Balanced(g, {})
    ensures var g', p := SplitBranch(g, e, t, k, i), g.up[e];
            && g.text[e] == g'.text[e] + g'.text[t]
            && g'.text[p] == g.text[p] == Flat(g'.kids[p], g'.text)
  {
    var g', ks := SplitBranch(g, e, t, k, i), g.kids[g.up[e]];
    assert g.kids[e] == g.kids[e][..k] + g.kids[e][k..];
    FlatAppend(g.kids[e][..k], g.kids[e][k..], g.text);
    FlatOne(t, g'.text);
    NoDupAt(ks, i);
    FlatExpandAt(ks, i, [t], g.text, g'.text);
  }

  lemma SplitBranchText<C, L>(g: Graph<C, L>, e: C, t: C, k: nat, i: nat)
    requires CanSplit(g, e, t, k, i) && Balanced(g, {})
    ensures Balanced(SplitBranch(g, e, t, k, i), {})
  {
    var g', p := SplitBranch(g, e, t, k, i), g.up[e];
    forall b | b in g'.kids ensures b in g'.text && g'.text[b] == Flat(g'.kids[b], g'.text) {
      if b == p {
        SplitBranchParentText(g, e, t, k, i);
      } else {
        if b != e && b != t {
          assert e !in g.kids[b];
        }
        FlatSame(g'.kids[b], g.text, g'.text);
      }
    }
  }

  /** What holds after the split, without its construction. */
  ghost predicate IsSplit<C, L>(g: Graph<C, L>, g': Graph<C, L>, e: C, t: C, k: nat, i: nat) {
    && e in g.kids && e in g.up && g.up[e] in g.kids && t !in g.text && k <= |g.kids[e]| && i < |g.kids[g.up[e]]|
    && var p := g.up[e];
    && t in g'.kids && t in g'.text && t in g'.up && e in g'.kids && p in g'.kids && e in g'.text && p in g'.text
    && g'.root == g.root && g'.heights == g.heights
    && g'.kids.Keys == g.kids.Keys + {t} && g'.text.Keys == g.text.Keys + {t} && g'.up.Keys == g.up.Keys + {t}
    && (forall c :: c in g.kids[e] ==> c in g.up && c in g.text)
    && e in g.text && p in g.text && p != e
    && g'.kids[e] == g.kids[e][..k] && g'.kids[t] == g.kids[e][k..]
    && g'.kids[p] == g.kids[p][..i + 1] + [t] + g.kids[p][i + 1..]
    && (forall b {:trigger g'.kids[b]} :: b in g.kids && b != e && b != p ==> g'.kids[b] == g.kids[b])
    && g'.text[t] == Flat(g'.kids[t], g.text) && g.text[e] == g'.text[e] + g'.text[t]
    && (forall c {:trigger g'.text[c]} :: c in g.text && c != e ==> g'.text[c] == g.text[c])
    && g'.up[t] == p
    && (forall c {:trigger g'.up[c]} :: c in g.up ==> g'.up[c] == if c in g'.kids[t] then t else g.up[c])
    && (forall c {:trigger g'.rank[c]} :: c in g.rank ==> c in g'.rank && g'.rank[c] == g.rank[c])
  }

  lemma SplitBranchLines<C, L>(g: Graph<C, L>, e: C, t: C, k: nat, i: nat)
    requires CanSplit(g, e, t, k, i) && Balanced(g, {})
    ensures var g' := SplitBranch(g, e, t, k, i);
      g'.text[t] == Flat(g'.kids[t], g.text) && g.text[e] == g'.text[e] + g'.text[t]
  {
    SplitBranchParentText(g, e, t, k, i);
  }

  lemma SplitBranchIs<C, L>(g: Graph<C, L>, e: C, t: C, k: nat, i: nat)
    requires CanSplit(g, e, t, k, i) && Balanced(g, {})
    ensures IsSplit(g, SplitBranch(g, e, t, k, i), e, t, k, i)
  {
    hide Flat;
    SplitBranchLines(g, e, t, k, i);
    SplitReady(g, e);
  }

  lemma SplitBranchOk<C, L>(g: Graph<C, L>, e: C, t: C, k: nat, i: nat) returns (g': Graph<C, L>)
    requires CanSplit(g, e, t, k, i) && Balanced(g, {})
    ensures Structure(g') && Balanced(g', {}) && IsSplit(g, g', e, t, k, i)
  {
    g' := SplitBranch(g, e, t, k, i);
    SplitBranchKids(g, e, t, k, i);
    SplitBranchUp(g, e, t, k, i);
    SplitBranchRank(g, e, t, k, i);
    SplitBranchText(g, e, t, k, i);
    SplitBranchIs(g, e, t, k, i);
  }

  // ----- a new level below the root: one branch that takes all its children

  ghost function WrapRoot<C, L>(g: Graph<C, L>, n: C): Graph<C, L>
    requires g.root in g.kids && g.root in g.rank && g.root in g.text
  {
    g.(kids := g.kids[n := g.kids[g.root]][g.root := [n]],
       text := g.text[n := g.text[g.root]],
       up := (g.up + map x | x in g.kids[g.root] :: n)[n := g.root],
       rank := g.rank[n := g.rank[g.root]][g.root := g.rank[g.root] + 1])
  }

  lemma WrapRootStructure<C, L>(g: Graph<C, L>, n: C)
    requires Structure(g) && n !in g.text
    ensures Structure(WrapRoot(g, n))
  {
    var g' := WrapRoot(g, n);
    forall b | b in g'.kids
      ensures NoDup(g'.kids[b]) && PointTo(g'.kids[b], b, g'.up)
    {
      if b != n && b != g.root {
        assert g'.kids[b] == g.kids[b];
      }
    }
    forall c | c in g'.up ensures g'.up[c] in g'.kids && c in g'.kids[g'.up[c]] {
      if c != n && c !in g.kids[g.root] {
        assert g.up[c] != g.root;
      }
    }
  }

  lemma WrapRootText<C, L>(g: Graph<C, L>, n: C)
    requires Structure(g) && n !in g.text && Balanced(g, {})
    ensures Balanced(WrapRoot(g, n), {})
  {
    var g' := WrapRoot(g, n);
    forall b | b in g'.kids ensures b in g'.text && g'.text[b] == Flat(g'.kids[b], g'.text) {
      if b == g.root {
        FlatOne(n, g'.text);
      } else {
        FlatSame(g'.kids[b], g.text, g'.text);
      }
    }
  }

  ghost predicate IsWrap<C, L>(g: Graph<C, L>, g': Graph<C, L>, n: C) {
    && g.root in g.kids && g.root in g.text && g.root !in g.up && n !in g.text
    && n in g'.kids && g.root in g'.kids && n in g'.text && g.root in g'.text && n in g'.up
    && (forall c :: c in g.kids[g.root] ==> c in g.up && c in g.text)
    && g'.root == g.root && g'.heights == g.heights
    && g'.kids.Keys == g.kids.Keys + {n} && g'.text.Keys == g.text.Keys + {n} && g'.up.Keys == g.up.Keys + {n}
    && g'.kids[n] == g.kids[g.root] && g'.kids[g.root] == [n]
    && (forall b {:trigger g'.kids[b]} :: b in g.kids && b != g.root ==> g'.kids[b] == g.kids[b])
    && g'.text[n] == g.text[g.root]
    && (forall c {:trigger g'.text[c]} :: c in g.text ==> g'.text[c] == g.text[c])
    && g'.up[n] == g.root
    && (forall c {:trigger g'.up[c]} :: c in g.up ==> g'.up[c] == if c in g.kids[g.root] then n else g.up[c])
    && (forall c {:trigger g'.rank[c]} :: c in g.rank ==> c in g'.rank)
  }

  lemma WrapRootOk<C, L>(g: Graph<C, L>, n: C) returns (g': Graph<C, L>)
    requires Structure(g) && n !in g.text && Balanced(g, {})
    ensures Structure(g') && Balanced(g', {}) && IsWrap(g, g', n)
  {
    g' := WrapRoot(g, n);
    WrapRootStructure(g, n);
    WrapRootText(g, n);
  }

  // ----- a leaf hands part of its lines to new leaves on its right

  ghost function AddLeaves<C, L>(g: Graph<C, L>, e: C, i: nat, first: seq<L>, new_: seq<C>, pieces: map<C, seq<L>>): Graph<C, L>
    requires e in g.up && g.up[e] in g.kids && e in g.rank && i < |g.kids[g.up[e]]|
  {
    var p := g.up[e];
    g.(kids := g.kids[p := g.kids[p][..i + 1] + new_ + g.kids[p][i + 1..]],
       text := (g.text + pieces)[e := first],
       up := g.up + map x | x in new_ :: p,
       rank := g.rank + map x | x in new_ :: g.rank[e])
  }

  ghost predicate CanAddLeaves<C, L>(g: Graph<C, L>, e: C, i: nat, first: seq<L>, new_: seq<C>, pieces: map<C, seq<L>>) {
    && Structure(g)
    && e in g.up && e !in g.kids && i < |g.kids[g.up[e]]| && g.kids[g.up[e]][i] == e
    && NoDup(new_)
    && (forall x :: x in new_ ==> x in pieces)
    && (forall x :: x in pieces ==> x in new_)
    && (forall x :: x in new_ ==> x !in g.text)
    && g.text[e] == first + Flat(new_, pieces)
  }

  lemma AddLeavesParentKids<C, L>(g: Graph<C, L>, e: C, i: nat, first: seq<L>, new_: seq<C>, pieces: map<C, seq<L>>)
    requires CanAddLeaves(g, e, i, first, new_, pieces)
    ensures var g', p := AddLeaves(g, e, i, first, new_, pieces), g.up[e];
            && NoDup(g'.kids[p])
            && PointTo(g'.kids[p], p, g'.up)
  {
    var g', p, ks := AddLeaves(g, e, i, first, new_, pieces), g.up[e], g.kids[g.up[e]];
    assert ks[..i + 1] + ks[i + 1..] == ks;
    assert forall k :: k in ks ==> k in g.text && k !in new_;
    InsertNoDup(ks[..i + 1], new_, ks[i + 1..]);
    forall j | 0 <= j < |g'.kids[p]| ensures g'.kids[p][j] in g'.up && g'.up[g'.kids[p][j]] == p {
      InsertMember(ks, i + 1, new_, g'.kids[p][j]);
    }
  }

  lemma AddLeavesKids<C, L>(g: Graph<C, L>, e: C, i: nat, first: seq<L>, new_: seq<C>, pieces: map<C, seq<L>>)
    requires CanAddLeaves(g, e, i, first, new_, pieces)
    ensures KeysOk(AddLeaves(g, e, i, first, new_, pieces)) && KidsOk(AddLeaves(g, e, i, first, new_, pieces))
  {
    hide Flat;
    var g', p := AddLeaves(g, e, i, first, new_, pieces), g.up[e];
    AddLeavesParentKids(g, e, i, first, new_, pieces);
    forall b | b in g'.kids && b != p
      ensures NoDup(g'.kids[b]) && PointTo(g'.kids[b], b, g'.up)
    {
      assert g'.kids[b] == g.kids[b];
    }
  }

  lemma AddLeavesUp<C, L>(g: Graph<C, L>, e: C, i: nat, first: seq<L>, new_: seq<C>, pieces: map<C, seq<L>>)
    requires CanAddLeaves(g, e, i, first, new_, pieces)
    ensures UpOk(AddLeaves(g, e, i, first, new_, pieces))
  {
    hide Flat, KidsOk;
    var g', p := AddLeaves(g, e, i, first, new_, pieces), g.up[e];
    forall c | c in g'.up ensures g'.up[c] in g'.kids && c in g'.kids[g'.up[c]] {
      InsertMember(g.kids[p], i + 1, new_, c);
    }
  }

  lemma AddLeavesRank<C, L>(g: Graph<C, L>, e: C, i: nat, first: seq<L>, new_: seq<C>, pieces: map<C, seq<L>>)
    requires CanAddLeaves(g, e, i, first, new_, pieces)
    ensures RankOk(AddLeaves(g, e, i, first, new_, pieces))
  {
    hide Flat, KidsOk;
  }

  lemma AddLeavesText<C, L>(g: Graph<C, L>, e: C, i: nat, first: seq<L>, new_: seq<C>, pieces: map<C, seq<L>>)
    requires CanAddLeaves(g, e, i, first, new_, pieces) && Balanced(g, {})
    ensures Balanced(AddLeaves(g, e, i, first, new_, pieces), {})
  {
    var g', p := AddLeaves(g, e, i, first, new_, pieces), g.up[e];
    forall b | b in g'.kids ensures b in g'.text && g'.text[b] == Flat(g'.kids[b], g'.text) {
      if b == p {
        FlatSame(new_, pieces, g'.text);
        NoDupAt(g.kids[p], i);
        FlatExpandAt(g.kids[p], i, new_, g.text, g'.text);
      } else {
        assert e !in g.kids[b];
        FlatSame(g.kids[b], g.text, g'.text);
      }
    }
  }

  ghost predicate IsAddLeaves<C, L>(g: Graph<C, L>, g': Graph<C, L>, e: C, i: nat, first: seq<L>, new_: seq<C>, pieces: map<C, seq<L>>) {
    && e in g.up && e !in g.kids && e in g.text && g.up[e] in g.kids && i < |g.kids[g.up[e]]|
    && var p := g.up[e];
    && e in g'.text && p in g'.kids
    && g'.root == g.root && g'.heights == g.heights
    && g'.kids.Keys == g.kids.Keys
    && (forall c {:trigger g'.text[c]} {:trigger g.text[c]} :: c in g.text ==> c in g'.text)
    && (forall c {:trigger g'.text[c]} :: c in g'.text ==> c in g.text || c in new_)
    && (forall c {:trigger c in new_} :: c in new_ ==>
         && c !in g.text && c !in g.kids && c in g'.up && g'.up[c] == p && c in g'.text && c in pieces && g'.text[c] == pieces[c])
    && g'.kids[p] == g.kids[p][..i + 1] + new_ + g.kids[p][i + 1..]
    && (forall b {:trigger g'.kids[b]} :: b in g.kids && b != p ==> g'.kids[b] == g.kids[b])
    && g'.text[e] == first
    && (forall c {:trigger g'.text[c]} :: c in g.text && c != e ==> g'.text[c] == g.text[c])
    && (forall c {:trigger c in g'.up} {:trigger g'.up[c]} :: c in g'.up ==> c in g.up || c in new_)
    && (forall c {:trigger c in g.up} {:trigger g'.up[c]} :: c in g.up ==> c in g'.up && g'.up[c] == g.up[c])
  }

  lemma AddLeavesIs<C, L>(g: Graph<C, L>, e: C, i: nat, first: seq<L>, new_: seq<C>, pieces: map<C, seq<L>>)
    requires CanAddLeaves(g, e, i, first, new_, pieces)
    ensures IsAddLeaves(g, AddLeaves(g, e, i, first, new_, pieces), e, i, first, new_, pieces)
  {
  }

  lemma AddLeavesOk<C, L>(g: Graph<C, L>, e: C, i: nat, first: seq<L>, new_: seq<C>, pieces: map<C, seq<L>>)
    returns (g': Graph<C, L>)
    requires CanAddLeaves(g, e, i, first, new_, pieces) && Balanced(g, {})
    ensures Structure(g') && Balanced(g', {}) && IsAddLeaves(g, g', e, i, first, new_, pieces)
  {
    g' := AddLeaves(g, e, i, first, new_, pieces);
    AddLeavesKids(g, e, i, first, new_, pieces);
    AddLeavesUp(g, e, i, first, new_, pieces);
    AddLeavesRank(g, e, i, first, new_, pieces);
    AddLeavesText(g, e, i, first, new_, pieces);
    AddLeavesIs(g, e, i, first, new_, pieces);
  }

  // ----- inserting lines: a chunk takes its new lines before its children do

  /** The shape with other lines for one chunk, and otherwise unchanged. */
  ghost predicate IsRetext<C, L>(g: Graph<C, L>, g': Graph<C, L>, c: C, ls: seq<L>) {
    && g'.root == g.root && g'.kids == g.kids && g'.up == g.up && g'.rank == g.rank && g'.heights == g.heights
    && c in g.text && c in g'.text && g'.text.Keys == g.text.Keys
    && g'.text[c] == ls
    && (forall x {:trigger g'.text[x]} {:trigger g.text[x]} :: x in g.text && x != c ==> x in g'.text && g'.text[x] == g.text[x])
  }

  /** All of the tree but `c` has `ls` inserted already; `c`, if not the root, makes its parent inconsistent. */
  ghost predicate Pending<C, L>(g: Graph<C, L>, c: C, at: nat, ls: seq<L>) {
    && c in g.text && at <= |g.text[c]|
    && Balanced(g, if c in g.up then {g.up[c]} else {})
    && (c in g.up ==> (
          && g.up[c] in g.kids && g.up[c] in g.text
          && g.text[g.up[c]] == Flat(g.kids[g.up[c]], g.text[c := Spliced(g.text[c], at, ls)])))
  }

  /** Once `c` has its lines, its parent is consistent again and only `c` itself is not. */
  lemma PendingTaken<C, L>(g: Graph<C, L>, c: C, at: nat, ls: seq<L>) returns (g': Graph<C, L>)
    requires Structure(g) && Pending(g, c, at, ls)
    ensures IsRetext(g, g', c, Spliced(g.text[c], at, ls)) && Structure(g') && Balanced(g', {c})
    ensures c !in g.kids ==> Balanced(g', {})
  {
    g' := g.(text := g.text[c := Spliced(g.text[c], at, ls)]);
    forall b | b in g'.kids && b != c ensures b in g'.text && g'.text[b] == Flat(g'.kids[b], g'.text) {
      if c in g.up && b == g.up[c] {
      } else {
        assert c !in g.kids[b];
        FlatSame(g.kids[b], g.text, g'.text);
      }
    }
  }

  /** The lines of a branch after an insertion that falls into its child `n`. */
  lemma FlatSpliced<C, L>(ks: seq<C>, n: nat, text: map<C, seq<L>>, text': map<C, seq<L>>, e: nat, ls: seq<L>)
    requires n < |ks| && NoDup(ks) && ks[n] in text && e <= |text[ks[n]]|
    requires forall k :: k in ks ==> k in text && k in text' && text[k] == text'[k]
    ensures |Flat(ks[..n], text)| + e <= |Flat(ks, text)|
    ensures Spliced(Flat(ks, text), |Flat(ks[..n], text)| + e, ls)
         == Flat(ks, text'[ks[n] := Spliced(text'[ks[n]], e, ls)])
  {
    FlatAround(ks, n, text);
    FlatReplace(ks, n, text', Spliced(text'[ks[n]], e, ls));
    FlatSame(ks[..n], text, text');
    FlatSame(ks[n + 1..], text, text');
    SplicedInside(Flat(ks[..n], text), text[ks[n]], Flat(ks[n + 1..], text), e, ls);
  }

  /** The insertion moves on to the child it falls into. */
  lemma PendingDown<C, L>(g: Graph<C, L>, g': Graph<C, L>, c: C, n: nat, at: nat, e: nat, ls: seq<L>)
    requires Structure(g) && c in g.kids && c in g.text && n < |g.kids[c]| && at <= |g.text[c]|
    requires g.text[c] == Flat(g.kids[c], g.text)
    requires IsRetext(g, g', c, Spliced(g.text[c], at, ls)) && Balanced(g', {c})
    requires g.kids[c][n] in g.text && at == |Flat(g.kids[c][..n], g.text)| + e && e <= |g.text[g.kids[c][n]]|
    ensures g.kids[c][n] in g'.up && g'.up[g.kids[c][n]] == c && Pending(g', g.kids[c][n], e, ls)
  {
    hide Flat;
    assert PointTo(g.kids[c], c, g.up);
    forall k | k in g.kids[c] ensures k in g.up && g.up[k] == c && k != c {
      assert g.rank[k] < g.rank[g.up[k]];
    }
    FlatSpliced(g.kids[c], n, g.text, g'.text, e, ls);
  }
  lemma SumSpliced<L>(s: seq<L>, at: nat, ls: seq<L>, heights: map<L, nat>)
    requires at <= |s|
    ensures Sum(Spliced(s, at, ls), heights) == Sum(s, heights) + Sum(ls, heights)
  {
    assert s == s[..at] + s[at..];
    SumAppend(s[..at], s[at..], heights);
    SumAppend(s[..at] + ls, s[at..], heights);
    SumAppend(s[..at], ls, heights);
  }

  // ----- what lies under a chunk, and taking it out

  /** `x` is `c` or lies below it. */
  ghost predicate Under<C, L>(g: Graph<C, L>, x: C, c: C)
    decreases if x in g.rank && g.root in g.rank && g.rank[x] <= g.rank[g.root] then g.rank[g.root] - g.rank[x] else 0
  {
    x == c || (
      && x in g.up && x in g.rank && g.up[x] in g.rank && g.root in g.rank
      && g.rank[x] < g.rank[g.up[x]] <= g.rank[g.root]
      && Under(g, g.up[x], c))
  }

  lemma {:induction false} UnderRank<C, L>(g: Graph<C, L>, x: C, c: C)
    requires Structure(g) && Under(g, x, c) && c in g.rank && x in g.rank
    ensures g.rank[x] <= g.rank[c] && (x != c ==> g.rank[x] < g.rank[c])
    decreases g.rank[g.root] - g.rank[x]
  {
    if x != c {
      UnderRank(g, g.up[x], c);
    }
  }

  /** A chunk is not under its child, and siblings are not under each other. */
  lemma NotUnder<C, L>(g: Graph<C, L>, p: C, c: C)
    requires Structure(g) && c in g.up && g.up[c] == p
    ensures !Under(g, p, c)
    ensures forall s {:trigger Under(g, s, c)} :: s in g.up && g.up[s] == p && s != c ==> !Under(g, s, c)
  {
    if Under(g, p, c) {
      UnderRank(g, p, c);
    }
  }

  /** What `x` lies under, one step up. */
  lemma UnderStep<C, L>(g: Graph<C, L>, x: C)
    requires Structure(g) && x in g.text
    ensures forall c {:trigger Under(g, x, c)} :: Under(g, x, c) <==> c == x || (x in g.up && Under(g, g.up[x], c))
    ensures x in g.up ==> !Under(g, g.up[x], x)
  {
    if x in g.up {
      NotUnder(g, g.up[x], x);
    }
  }

  /** Nothing lies under two children of the same branch. */
  lemma {:induction false} UnderOne<C, L>(g: Graph<C, L>, x: C, a: C, b: C)
    requires Structure(g) && a in g.up && b in g.up && g.up[a] == g.up[b] && Under(g, x, a) && Under(g, x, b)
    ensures a == b
    decreases if x in g.rank && g.root in g.rank && g.rank[x] <= g.rank[g.root] then g.rank[g.root] - g.rank[x] else 0
  {
    if a != b {
      NotUnder(g, g.up[a], b);
      NotUnder(g, g.up[b], a);
      UnderOne(g, g.up[x], a, b);
    }
  }

  /** Two shapes with the same parents have the same chunks under `c`. */
  lemma {:induction false} UnderSame<C, L>(g: Graph<C, L>, g': Graph<C, L>, x: C, c: C)
    requires Structure(g) && g'.up == g.up && g'.rank == g.rank && g'.root == g.root
    ensures Under(g', x, c) <==> Under(g, x, c)
    decreases if x in g.rank && g.root in g.rank && g.rank[x] <= g.rank[g.root] then g.rank[g.root] - g.rank[x] else 0
  {
    if x in g.up {
      UnderSame(g, g', g.up[x], c);
    }
  }

  /** Everything that lies outside `c` is as it was. */
  ghost predicate SameOutside<C, L>(g: Graph<C, L>, g': Graph<C, L>, c: C) {
    && g'.root == g.root && g'.heights == g.heights
    && c in g.text && c in g'.text && (c in g.kids <==> c in g'.kids)
    && (c in g.up <==> c in g'.up) && (c in g.up ==> g'.up[c] == g.up[c])
    && (forall x {:trigger Under(g, x, c)} :: x in g.text && !Under(g, x, c) ==> SameAt(g, g', x))
  }

  ghost predicate SameAt<C, L>(g: Graph<C, L>, g': Graph<C, L>, x: C) {
    && x in g.text && x in g'.text && g'.text[x] == g.text[x]
    && (x in g.kids <==> x in g'.kids) && (x in g.kids ==> g'.kids[x] == g.kids[x])
    && (x in g.up <==> x in g'.up) && (x in g.up ==> g'.up[x] == g.up[x])
    && x in g.rank && x in g'.rank && g'.rank[x] == g.rank[x]
  }

  lemma {:induction false} UnderUp<C, L>(g: Graph<C, L>, x: C, c: C)
    requires Structure(g) && c in g.up && Under(g, x, c)
    ensures Under(g, x, g.up[c])
    decreases if x in g.rank && g.root in g.rank && g.rank[x] <= g.rank[g.root] then g.rank[g.root] - g.rank[x] else 0
  {
    if x != c {
      UnderUp(g, g.up[x], c);
    } else {
      assert g.rank[c] < g.rank[g.up[c]] && Under(g, g.up[c], g.up[c]);
    }
  }

  /** What was outside stays outside. */
  lemma {:induction false} OutsideStays<C, L>(g: Graph<C, L>, g': Graph<C, L>, x: C, c: C)
    requires Structure(g) && SameOutside(g, g', c) && x in g.text && !Under(g, x, c)
    ensures !Under(g', x, c)
    decreases g.rank[g.root] - g.rank[x]
  {
    assert SameAt(g, g', x) && x != c;
    if x in g.up {
      assert !Under(g, g.up[x], c);
      OutsideStays(g, g', g.up[x], c);
    }
  }

  lemma SameOutsideTrans<C, L>(g: Graph<C, L>, g1: Graph<C, L>, g2: Graph<C, L>, c: C)
    requires Structure(g) && SameOutside(g, g1, c) && SameOutside(g1, g2, c)
    ensures SameOutside(g, g2, c)
  {
    forall x | x in g.text && !Under(g, x, c) ensures SameAt(g, g2, x) {
      OutsideStays(g, g1, x, c);
      assert SameAt(g, g1, x) && SameAt(g1, g2, x);
    }
  }

  lemma SameOutsideWiden<C, L>(g: Graph<C, L>, g': Graph<C, L>, p: C, c: C)
    requires Structure(g) && SameOutside(g, g', c) && c in g.up && g.up[c] == p && p in g.text
    ensures SameOutside(g, g', p) && SameAt(g, g', p)
  {
    NotUnder(g, p, c);
    assert SameAt(g, g', p);
    forall x | x in g.text && !Under(g, x, p) ensures SameAt(g, g', x) {
      if Under(g, x, c) {
        UnderUp(g, x, c);
      }
    }
  }

  // ----- child `r` of a branch is taken out, with everything under it

  ghost function DropChild<C, L>(g: Graph<C, L>, p: C, r: nat): Graph<C, L>
    requires p in g.kids && r < |g.kids[p]|
  {
    var c := g.kids[p][r];
    g.(kids := (map b | b in g.kids && !Under(g, b, c) :: g.kids[b])[p := g.kids[p][..r] + g.kids[p][r + 1..]],
       text := map x | x in g.text && !Under(g, x, c) :: g.text[x],
       up := map x | x in g.up && !Under(g, x, c) :: g.up[x],
       rank := map x | x in g.rank && !Under(g, x, c) :: g.rank[x])
  }
  lemma DropChildStructure<C, L>(g: Graph<C, L>, p: C, r: nat)
    requires Structure(g) && p in g.kids && r < |g.kids[p]|
    ensures Structure(DropChild(g, p, r))
  {
    var g', c, ks := DropChild(g, p, r), g.kids[p][r], g.kids[p];
    assert PointTo(ks, p, g.up) && c in g.up && g.up[c] == p;
    NotUnder(g, p, c);
    WithoutNoDup(ks, r);
    forall b | b in g'.kids ensures NoDup(g'.kids[b]) && PointTo(g'.kids[b], b, g'.up) {
      forall j | 0 <= j < |g'.kids[b]| ensures g'.kids[b][j] in g'.up && g'.up[g'.kids[b][j]] == b {
        var k := g'.kids[b][j];
        assert k in g.kids[b] && k in g.up && g.up[k] == b && k != c;
        assert Under(g, k, c) ==> Under(g, b, c);
      }
    }
    forall x | x in g'.up ensures g'.up[x] in g'.kids && x in g'.kids[g'.up[x]] {
      assert g.up[x] in g.kids;
      assert Under(g, g.up[x], c) ==> Under(g, x, c);
      assert x != c;
    }
    assert !Under(g, g.root, c) by { if Under(g, g.root, c) { UnderRank(g, g.root, c); } }
  }

  lemma DropChildFlat<C, L>(g: Graph<C, L>, p: C, r: nat)
    requires Structure(g) && p in g.kids && r < |g.kids[p]|
    requires g.kids[p][r] in g.text && g.text[g.kids[p][r]] == []
    ensures var g' := DropChild(g, p, r);
      && Flat(g'.kids[p], g'.text) == Flat(g.kids[p], g.text)
      && Flat(g'.kids[p][..r], g'.text) == Flat(g.kids[p][..r], g.text)
  {
    var g', ks := DropChild(g, p, r), g.kids[p];
    FlatAround(ks, r, g.text);
    FlatAppend(ks[..r], ks[r + 1..], g'.text);
    assert g'.kids[p][..r] == ks[..r];
    KeptKids(g, p, r, p);
    FlatSame(ks[..r], g.text, g'.text);
    FlatSame(ks[r + 1..], g.text, g'.text);
  }

  lemma DropChildText<C, L>(g: Graph<C, L>, p: C, r: nat, except: set<C>)
    requires Structure(g) && p in g.kids && r < |g.kids[p]| && Balanced(g, except) && p in except
    ensures Balanced(DropChild(g, p, r), except)
  {
    var g' := DropChild(g, p, r);
    forall b | b in g'.kids && b !in except ensures b in g'.text && g'.text[b] == Flat(g'.kids[b], g'.text) {
      assert g.text[b] == Flat(g.kids[b], g.text);
      KeptKids(g, p, r, b);
      FlatSame(g.kids[b], g.text, g'.text);
    }
  }

  /** The remaining children of a remaining branch are still there, with their lines. */
  lemma KeptKids<C, L>(g: Graph<C, L>, p: C, r: nat, b: C)
    requires Structure(g) && p in g.kids && r < |g.kids[p]| && b in DropChild(g, p, r).kids
    ensures forall k :: k in DropChild(g, p, r).kids[b] ==>
      k in g.text && k in DropChild(g, p, r).text && DropChild(g, p, r).text[k] == g.text[k]
  {
    var g' := DropChild(g, p, r);
    DropChildStructure(g, p, r);
    assert PointTo(g'.kids[b], b, g'.up);
  }

  lemma DropChildOutside<C, L>(g: Graph<C, L>, p: C, r: nat)
    requires Structure(g) && p in g.kids && r < |g.kids[p]|
    ensures SameOutside(g, DropChild(g, p, r), p)
  {
    var g', c := DropChild(g, p, r), g.kids[p][r];
    assert PointTo(g.kids[p], p, g.up) && c in g.up && g.up[c] == p;
    NotUnder(g, p, c);
    forall x | x in g.text && !Under(g, x, p) ensures SameAt(g, g', x) {
      if Under(g, x, c) {
        UnderUp(g, x, c);
      }
    }
  }

  // ----- a branch gives up all that is under it for a single leaf

  ghost function Collapse<C, L>(g: Graph<C, L>, p: C, leaf: C): Graph<C, L>
    requires p in g.kids
  {
    g.(kids := (map b | b in g.kids && !Under(g, b, p) :: g.kids[b])[p := [leaf]],
       text := (map x | x in g.text && (x == p || !Under(g, x, p)) :: g.text[x])[leaf := Flat(g.kids[p], g.text)],
       up := (map x | x in g.up && (x == p || !Under(g, x, p)) :: g.up[x])[leaf := p],
       rank := (map x | x in g.rank && (x == p || !Under(g, x, p)) :: g.rank[x])[leaf := 0])
  }

  lemma CollapseKids<C, L>(g: Graph<C, L>, p: C, leaf: C)
    requires Structure(g) && p in g.kids && leaf !in g.text && g.rank[p] > 0
    ensures KidsOk(Collapse(g, p, leaf)) && KeysOk(Collapse(g, p, leaf))
  {
    var g' := Collapse(g, p, leaf);
    forall b | b in g'.kids ensures NoDup(g'.kids[b]) && PointTo(g'.kids[b], b, g'.up) {
      if b != p {
        forall j | 0 <= j < |g'.kids[b]| ensures g'.kids[b][j] in g'.up && g'.up[g'.kids[b][j]] == b {
          var k := g.kids[b][j];
          assert k in g.up && g.up[k] == b && k != leaf;
          assert Under(g, k, p) && k != p ==> Under(g, b, p);
        }
      }
    }
    assert g.root == p || !Under(g, g.root, p) by { if Under(g, g.root, p) { UnderRank(g, g.root, p); } }
  }

  lemma CollapseUp<C, L>(g: Graph<C, L>, p: C, leaf: C)
    requires Structure(g) && p in g.kids && leaf !in g.text && g.rank[p] > 0
    ensures UpOk(Collapse(g, p, leaf)) && RankOk(Collapse(g, p, leaf))
  {
    var g' := Collapse(g, p, leaf);
    forall x | x in g'.up ensures g'.up[x] in g'.kids && x in g'.kids[g'.up[x]] {
      if x != leaf {
        assert g.up[x] in g.kids && x in g.kids[g.up[x]];
        assert Under(g, g.up[x], p) ==> Under(g, x, p);
        if x == p {
          NotUnder(g, g.up[p], p);
        }
      }
    }
    assert g.root == p || !Under(g, g.root, p) by { if Under(g, g.root, p) { UnderRank(g, g.root, p); } }
  }

  lemma CollapseOutside<C, L>(g: Graph<C, L>, p: C, leaf: C)
    requires Structure(g) && p in g.kids && leaf !in g.text && g.rank[p] > 0
    ensures SameOutside(g, Collapse(g, p, leaf), p)
  {
  }

  lemma CollapseText<C, L>(g: Graph<C, L>, p: C, leaf: C, except: set<C>)
    requires Structure(g) && p in g.kids && leaf !in g.text && g.rank[p] > 0 && Balanced(g, except) && p in except
    ensures var g' := Collapse(g, p, leaf);
      Balanced(g', except) && Flat(g'.kids[p], g'.text) == Flat(g.kids[p], g.text)
  {
    var g' := Collapse(g, p, leaf);
    CollapseKids(g, p, leaf);
    FlatOne(leaf, g'.text);
    forall b | b in g'.kids && b !in except ensures b in g'.text && g'.text[b] == Flat(g'.kids[b], g'.text) {
      assert g.text[b] == Flat(g.kids[b], g.text);
      assert PointTo(g'.kids[b], b, g'.up);
      FlatSame(g.kids[b], g.text, g'.text);
    }
  }

  /** What holds after a child was taken out, without its construction. */
  ghost predicate IsDrop<C, L>(g: Graph<C, L>, g': Graph<C, L>, p: C, r: nat) {
    && p in g.kids && p in g'.kids && r < |g.kids[p]|
    && g'.kids[p] == g.kids[p][..r] + g.kids[p][r + 1..]
    && (forall x {:trigger g'.text[x]} :: x in g'.text ==> !Under(g, x, g.kids[p][r]))
    && IsPart(g, g', p)
  }

  /** Some chunks are gone; the others, save perhaps the children of `p`, are as they were. */
  ghost predicate IsPart<C, L>(g: Graph<C, L>, g': Graph<C, L>, p: C) {
    && (forall x {:trigger g'.text[x]} :: x in g'.text ==> x in g.text && g'.text[x] == g.text[x])
    && (forall x {:trigger g'.text[x]} :: x in g'.text ==> (x in g.kids <==> x in g'.kids) && (x in g.kids && x != p ==> g'.kids[x] == g.kids[x]))
    && (forall x {:trigger g'.text[x]} :: x in g'.text ==> (x in g.up <==> x in g'.up) && (x in g.up ==> g'.up[x] == g.up[x]))
    && (forall x {:trigger g'.kids[x]} :: x in g'.kids ==> x in g'.text)
    && p in g.rank && p in g'.rank && g'.rank[p] == g.rank[p]
  }

  lemma DropChildOk<C, L>(g: Graph<C, L>, p: C, r: nat, except: set<C>) returns (g': Graph<C, L>)
    requires Structure(g) && p in g.kids && r < |g.kids[p]| && Balanced(g, except) && p in except
    requires g.kids[p][r] in g.text && g.text[g.kids[p][r]] == []
    ensures Structure(g') && Balanced(g', except) && SameOutside(g, g', p) && IsDrop(g, g', p, r)
    ensures Flat(g'.kids[p], g'.text) == Flat(g.kids[p], g.text)
    ensures Flat(g'.kids[p][..r], g'.text) == Flat(g.kids[p][..r], g.text)
  {
    g' := DropChild(g, p, r);
    DropChildStructure(g, p, r);
    DropChildFlat(g, p, r);
    DropChildText(g, p, r, except);
    DropChildOutside(g, p, r);
    NotUnder(g, p, g.kids[p][r]);
  }

  ghost predicate IsCollapse<C, L>(g: Graph<C, L>, g': Graph<C, L>, p: C, leaf: C) {
    && p in g.kids && p in g'.kids && leaf !in g.text && leaf !in g.kids && leaf !in g'.kids
    && g'.kids[p] == [leaf] && leaf in g'.text && g'.text[leaf] == Flat(g.kids[p], g.text)
    && leaf in g'.up && g'.up[leaf] == p
    && (forall x {:trigger g'.text[x]} :: x in g'.text && x != leaf ==> x in g.text && g'.text[x] == g.text[x] && (x in g.kids <==> x in g'.kids))
    && (forall x {:trigger g'.text[x]} :: x in g'.text && x != leaf && x != p ==> !Under(g, x, p))
    && (forall x {:trigger g'.kids[x]} :: x in g'.kids ==> x in g.kids && x in g'.text && (x != p ==> g'.kids[x] == g.kids[x]))
    && (forall x {:trigger x in g'.up} {:trigger g'.up[x]} :: x in g'.up && x != leaf ==> x in g.up && g'.up[x] == g.up[x])
    && (forall x {:trigger x in g.up} {:trigger g.up[x]} :: x in g.up && x in g'.text ==> x in g'.up)
    && p in g.rank && p in g'.rank && g'.rank[p] == g.rank[p]
  }

  lemma CollapseOk<C, L>(g: Graph<C, L>, p: C, leaf: C, except: set<C>) returns (g': Graph<C, L>)
    requires Structure(g) && p in g.kids && leaf !in g.text && g.rank[p] > 0 && Balanced(g, except) && p in except
    ensures Structure(g') && Balanced(g', except) && SameOutside(g, g', p) && IsCollapse(g, g', p, leaf)
  {
    g' := Collapse(g, p, leaf);
    CollapseKids(g, p, leaf);
    CollapseUp(g, p, leaf);
    CollapseOutside(g, p, leaf);
    CollapseText(g, p, leaf, except);
  }

  // ----- taking lines away

  lemma SumWithout<L>(s: seq<L>, at: nat, n: nat, heights: map<L, nat>)
    requires at + n <= |s|
    ensures Sum(s, heights) == Sum(Without(s, at, n), heights) + Sum(s[at..at + n], heights)
  {
    assert s == s[..at] + s[at..at + n] + s[at + n..];
    SumAppend(s[..at] + s[at..at + n], s[at + n..], heights);
    SumAppend(s[..at], s[at..at + n], heights);
    SumAppend(s[..at], s[at + n..], heights);
  }
  /** The lines of a branch after a removal inside its child `n`. */
  lemma FlatWithout<C, L>(ks: seq<C>, n: nat, text: map<C, seq<L>>, text': map<C, seq<L>>, e: nat, m: nat)
    requires n < |ks| && ks[n] in text && ks[n] in text' && e + m <= |text[ks[n]]|
    requires text'[ks[n]] == Without(text[ks[n]], e, m)
    requires forall k :: k in ks && k != ks[n] ==> k in text && k in text' && text[k] == text'[k]
    requires NoDup(ks)
    ensures |Flat(ks[..n], text)| + e + m <= |Flat(ks, text)|
    ensures Flat(ks, text') == Without(Flat(ks, text), |Flat(ks[..n], text)| + e, m)
    ensures Flat(ks[..n], text') == Flat(ks[..n], text)
    ensures |Flat(ks[..n + 1], text')| == |Flat(ks[..n], text)| + |text[ks[n]]| - m
    ensures var pos := |Flat(ks[..n], text)| + e; Flat(ks, text)[pos..pos + m] == text[ks[n]][e..e + m]
  {
    hide Flat;
    NoDupAt(ks, n);
    FlatAround(ks, n, text);
    FlatAround(ks, n, text');
    FlatSame(ks[..n], text, text');
    FlatSame(ks[n + 1..], text, text');
    FlatStep(ks, n, text');
    WithoutInside(Flat(ks[..n], text), text[ks[n]], Flat(ks[n + 1..], text), e, m);
  }

  /** The shape with fewer lines for a leaf. */
  lemma RetextLeaf<C, L>(g: Graph<C, L>, c: C, ls: seq<L>, except: set<C>) returns (g': Graph<C, L>)
    requires Structure(g) && Balanced(g, except) && c in g.text && c !in g.kids && (c in g.up ==> g.up[c] in except)
    ensures IsRetext(g, g', c, ls) && Structure(g') && Balanced(g', except) && SameOutside(g, g', c)
  {
    g' := g.(text := g.text[c := ls]);
    forall b | b in g'.kids && b !in except ensures b in g'.text && g'.text[b] == Flat(g'.kids[b], g'.text) {
      assert g.text[b] == Flat(g.kids[b], g.text);
      assert c !in g.kids[b];
      FlatSame(g.kids[b], g.text, g'.text);
    }
    forall x | x in g.text && !Under(g, x, c) ensures SameAt(g, g', x) {
      assert x != c;
    }
  }

  /** A branch whose children hold its lines is consistent again. */
  lemma RetextBranch<C, L>(g: Graph<C, L>, c: C, except: set<C>) returns (g': Graph<C, L>)
    requires Structure(g) && Balanced(g, except + {c}) && c in g.kids && c !in except && (c in g.up ==> g.up[c] in except)
    ensures IsRetext(g, g', c, Flat(g.kids[c], g.text)) && Structure(g') && Balanced(g', except) && SameOutside(g, g', c)
  {
    g' := g.(text := g.text[c := Flat(g.kids[c], g.text)]);
    forall b | b in g'.kids && b !in except ensures b in g'.text && g'.text[b] == Flat(g'.kids[b], g'.text) {
      assert b != c ==> g.text[b] == Flat(g.kids[b], g.text);
      assert c !in g.kids[b];
      FlatSame(g.kids[b], g.text, g'.text);
    }
    forall x | x in g.text && !Under(g, x, c) ensures SameAt(g, g', x) {
      assert x != c;
    }
  }

  /** While `p` loses lines child by child: outside `p` nothing changes, and `X`, the chunks above `p`, stay above it. */
  ghost predicate Progress<C, L>(g0: Graph<C, L>, g: Graph<C, L>, p: C, X: set<C>) {
    && Structure(g) && Balanced(g, X + {p})
    && p in g.kids && p in g.text && p !in X && (p in g.up ==> g.up[p] in X)
    && SameOutside(g0, g, p) && p in g.rank && p in g0.rank && g.rank[p] == g0.rank[p]
    && (forall x {:trigger x in X} :: x in X ==> x in g.text && !Under(g, x, p))
  }

  /** A change inside `p` is progress. */
  lemma ProgressStep<C, L>(g0: Graph<C, L>, g: Graph<C, L>, g': Graph<C, L>, p: C, X: set<C>)
    requires Structure(g0) && Progress(g0, g, p, X)
    requires Structure(g') && Balanced(g', X + {p}) && SameOutside(g, g', p) && p in g'.rank && g'.rank[p] == g.rank[p]
    ensures Progress(g0, g', p, X)
  {
    SameOutsideTrans(g0, g, g', p);
    forall x | x in X ensures x in g'.text && !Under(g', x, p) {
      assert SameAt(g, g', x);
      OutsideStays(g, g', x, p);
    }
  }

  /** A change inside a child of `p` is progress too, and leaves the other children alone. */
  lemma ProgressChild<C, L>(g0: Graph<C, L>, g: Graph<C, L>, g': Graph<C, L>, p: C, X: set<C>, r: nat)
    requires Structure(g0) && Progress(g0, g, p, X) && r < |g.kids[p]|
    requires Structure(g') && Balanced(g', X + {p}) && SameOutside(g, g', g.kids[p][r])
    ensures Progress(g0, g', p, X) && g'.kids[p] == g.kids[p] && g'.text[p] == g.text[p]
    ensures forall k :: k in g.kids[p] && k != g.kids[p][r] ==> k in g.text && k in g'.text && g'.text[k] == g.text[k]
  {
    var c := g.kids[p][r];
    assert PointTo(g.kids[p], p, g.up) && c in g.up && g.up[c] == p;
    SameOutsideWiden(g, g', p, c);
    NotUnder(g, p, c);
    ProgressStep(g0, g, g', p, X);
    forall k | k in g.kids[p] && k != c ensures k in g.text && k in g'.text && g'.text[k] == g.text[k] {
      assert k in g.up && g.up[k] == p;
      assert !Under(g, k, c);
      assert SameAt(g, g', k);
    }
  }

  /** What a child of `p` needs before lines are taken from it. */
  lemma ProgressBelow<C, L>(g0: Graph<C, L>, g: Graph<C, L>, p: C, X: set<C>, r: nat)
    requires Progress(g0, g, p, X) && r < |g.kids[p]|
    ensures var c := g.kids[p][r];
      && c in g.text && c in g.up && g.up[c] == p && c !in X + {p} && g.rank[c] < g.rank[p]
      && forall x :: x in X + {p} ==> x in g.text && !Under(g, x, c)
  {
    var c := g.kids[p][r];
    assert PointTo(g.kids[p], p, g.up) && c in g.up && g.up[c] == p;
    NotUnder(g, p, c);
    forall x | x in X + {p} ensures x in g.text && !Under(g, x, c) {
      if Under(g, x, c) {
        UnderUp(g, x, c);
      }
    }
    assert Under(g, c, c);
  }
}
