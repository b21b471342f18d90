/**
 Walking the lines of a tree by their number: what a visit of a range sees, which child of a
 branch holds a line or a height, and the heights above a line.
 */
module Walks {
  import opened Graphs
  import opened Lists

  // ----- visiting a range until a callback says stop

  ghost predicate Stops<T>(s: seq<T>, stop: T -> bool) {
    exists i :: 0 <= i < |s| && stop(s[i])
  }

  /** The elements up to and including the first at which `stop` holds. */
  ghost function Upto<T>(s: seq<T>, stop: T -> bool): seq<T> {
    if s == [] then [] else if stop(s[0]) then [s[0]] else [s[0]] + Upto(s[1..], stop)
  }

  /** `Upto` is the prefix that ends with the first stop, or the whole list. */
  lemma {:induction false} UptoIsPrefix<T>(s: seq<T>, stop: T -> bool)
    ensures Upto(s, stop) <= s
    ensures forall i :: 0 <= i < |Upto(s, stop)| - 1 ==> !stop(s[i])
    ensures if Stops(s, stop) then |Upto(s, stop)| > 0 && stop(s[|Upto(s, stop)| - 1]) else Upto(s, stop) == s
  {
    if s != [] && !stop(s[0]) {
      UptoIsPrefix(s[1..], stop);
      if i :| 0 <= i < |s| && stop(s[i]) {
        assert s[1..][i - 1] == s[i];
      }
      assert forall i :: 0 < i < |s| ==> s[i] == s[1..][i - 1];
    }
  }

  lemma {:induction false} UptoAppend<T>(a: seq<T>, b: seq<T>, stop: T -> bool)
    ensures Upto(a + b, stop) == if Stops(a, stop) then Upto(a, stop) else a + Upto(b, stop)
    ensures Stops(a + b, stop) <==> Stops(a, stop) || Stops(b, stop)
  {
    if a == [] {
      assert a + b == b;
    } else {
      UptoAppend(a[1..], b, stop);
      assert (a + b)[1..] == a[1..] + b;
      assert [a[0]] + (a[1..] + Upto(b, stop)) == a + Upto(b, stop);
      StopsCons(a, stop);
      StopsCons(a + b, stop);
    }
  }

  lemma StopsCons<T>(s: seq<T>, stop: T -> bool)
    requires s != []
    ensures Stops(s, stop) <==> stop(s[0]) || Stops(s[1..], stop)
  {
    if i :| 0 <= i < |s| && stop(s[i]) {
      assert i > 0 ==> s[1..][i - 1] == s[i];
    }
    if i :| 0 <= i < |s[1..]| && stop(s[1..][i]) {
      assert s[1..][i] == s[i + 1];
    }
  }

  lemma UptoNone<T>(stop: T -> bool)
    ensures !Stops([], stop)
  {
  }

  /** One more element of a range is visited, and none before it was a stop. */
  lemma OneMore<T>(s: seq<T>, at: nat, e: nat)
    requires at <= e < |s|
    ensures s[at..e] + [s[e]] == s[at..e + 1]
  {
  }

  lemma UptoStep<T>(s: seq<T>, at: nat, e: nat, end: nat, stop: T -> bool)
    requires at <= e < end <= |s| && !Stops(s[at..e], stop)
    ensures s[at..e] + [s[e]] == s[at..e + 1]
    ensures if stop(s[e]) then Stops(s[at..end], stop) && Upto(s[at..end], stop) == s[at..e + 1] else !Stops(s[at..e + 1], stop)
  {
    var a, b := s[at..e], s[e..end];
    OneMore(s, at, e);
    assert s[at..end] == a + b && b[0] == s[e];
    UptoAppend(a, b, stop);
    StopsCons(b, stop);
    StopsCons([s[e]], stop);
    UptoAppend(a, [s[e]], stop);
  }

  /** The state of a walk over the children of a branch that has `n` lines to visit, from line `at` of child `r` on. */
  ghost predicate Visiting<C, L>(ks: seq<C>, text: map<C, seq<L>>, r: nat, at: nat, n: nat, rest: seq<L>) {
    && r <= |ks|
    && var F, pos := Flat(ks, text), |Flat(ks[..r], text)|;
       pos + at + n <= |F| && rest == F[pos + at..pos + at + n]
  }

  /** `seen` has been visited and `rest` has not, in a visit that is to see what `goal` lists and to report `stops`. */
  ghost predicate Visited<T>(seen: seq<T>, rest: seq<T>, goal: seq<T>, stops: bool, stop: T -> bool) {
    seen + Upto(rest, stop) == goal && (Stops(rest, stop) <==> stops)
  }

  /** One child of the branch has been visited. */
  lemma VisitTurn<C, L>(ks: seq<C>, text: map<C, seq<L>>, r: nat, at: nat, n: nat, rest: seq<L>,
                        seen: seq<L>, goal: seq<L>, stops: bool, stop: L -> bool)
    returns (a: nat, part: seq<L>, rest': seq<L>)
    requires Visiting(ks, text, r, at, n, rest) && r < |ks| && ks[r] in text && at < |text[ks[r]]|
    requires Visited(seen, rest, goal, stops, stop)
    ensures a == if n < |text[ks[r]]| - at then n else |text[ks[r]]| - at
    ensures part == text[ks[r]][at..at + a]
    ensures Stops(part, stop) ==> stops && seen + Upto(part, stop) == goal
    ensures !Stops(part, stop) ==> Visited(seen + Upto(part, stop), rest', goal, stops, stop)
    ensures a < n ==> Visiting(ks, text, r + 1, 0, n - a, rest')
    ensures a == n ==> rest' == []
  {
    a, rest' := VisitChild(ks, text, r, at, n, rest);
    part := text[ks[r]][at..at + a];
    UptoAppend(part, rest', stop);
    UptoIsPrefix(part, stop);
    assert seen + (part + Upto(rest', stop)) == seen + part + Upto(rest', stop);
  }

  /** A child that ends before the range is passed over. */
  lemma VisitSkip<C, L>(ks: seq<C>, text: map<C, seq<L>>, r: nat, at: nat, n: nat, rest: seq<L>)
    requires Visiting(ks, text, r, at, n, rest) && r < |ks| && ks[r] in text && |text[ks[r]]| <= at
    ensures Visiting(ks, text, r + 1, at - |text[ks[r]]|, n, rest)
  {
    FlatStep(ks, r, text);
  }

  /** A child that reaches into the range has its first part. */
  lemma VisitChild<C, L>(ks: seq<C>, text: map<C, seq<L>>, r: nat, at: nat, n: nat, rest: seq<L>)
    returns (a: nat, rest': seq<L>)
    requires Visiting(ks, text, r, at, n, rest) && r < |ks| && ks[r] in text && at < |text[ks[r]]|
    ensures a == if n < |text[ks[r]]| - at then n else |text[ks[r]]| - at
    ensures rest == text[ks[r]][at..at + a] + rest'
    ensures a < n ==> Visiting(ks, text, r + 1, 0, n - a, rest')
    ensures a == n ==> rest' == []
  {
    hide Flat;
    var F, pos := Flat(ks, text), |Flat(ks[..r], text)|;
    a := if n < |text[ks[r]]| - at then n else |text[ks[r]]| - at;
    rest' := F[pos + at + a..pos + at + n];
    FlatAround(ks, r, text);
    FlatStep(ks, r, text);
    SliceInto(F, Flat(ks[..r], text), text[ks[r]], Flat(ks[r + 1..], text), at, a, n);
  }

  /** A range of a list, cut where it leaves the part it starts in. */
  lemma SliceInto<T>(s: seq<T>, a: seq<T>, m: seq<T>, b: seq<T>, at: nat, k: nat, n: nat)
    requires s == a + m + b && at + k <= |m| && k <= n && |a| + at + n <= |s|
    ensures s[|a| + at..|a| + at + n] == m[at..at + k] + s[|a| + at + k..|a| + at + n]
  {
  }

  lemma VisitEnd<C, L>(ks: seq<C>, text: map<C, seq<L>>, r: nat, at: nat, n: nat, rest: seq<L>)
    requires Visiting(ks, text, r, at, n, rest) && r >= |ks|
    ensures rest == []
  {
    assert ks[..|ks|] == ks;
  }

  // ----- heights

  lemma SumNone<L>(heights: map<L, nat>)
    ensures Sum([], heights) == 0
  {
  }

  lemma SumSame<L>(ls: seq<L>, heights: map<L, nat>, heights': map<L, nat>)
    requires forall l :: l in ls ==> l in heights && l in heights' && heights'[l] == heights[l]
    ensures Sum(ls, heights') == Sum(ls, heights)
  {
  }

  /** One line more or less high. */
  lemma {:induction false} SumUpdate<L>(ls: seq<L>, heights: map<L, nat>, x: L, h: nat)
    requires NoDup(ls) && x in heights
    ensures Sum(ls, heights[x := h]) == Sum(ls, heights) + if x in ls then h - heights[x] else 0
  {
    if ls != [] {
      NoDupCut(ls, 1);
      SumUpdate(ls[1..], heights, x, h);
      assert ls == ls[..1] + ls[1..];
    }
  }

  /** The height above line `n`. */
  ghost function Above<L>(ls: seq<L>, heights: map<L, nat>, n: nat): nat
    requires n <= |ls|
  {
    Sum(ls[..n], heights)
  }

  lemma AboveStep<L>(ls: seq<L>, heights: map<L, nat>, n: nat)
    requires n < |ls| && ls[n] in heights
    ensures Above(ls, heights, n + 1) == Above(ls, heights, n) + heights[ls[n]]
  {
    assert ls[..n + 1] == ls[..n] + [ls[n]];
    SumAppend(ls[..n], [ls[n]], heights);
  }

  lemma {:induction false} AboveMonotone<L>(ls: seq<L>, heights: map<L, nat>, m: nat, n: nat)
    requires m <= n <= |ls|
    ensures Above(ls, heights, m) <= Above(ls, heights, n)
  {
    assert ls[..n] == ls[..m] + ls[m..n];
    SumAppend(ls[..m], ls[m..n], heights);
  }

  /** The first line that ends below height `h`, or the number of lines if there is none. */
  ghost predicate IsLineAt<L>(ls: seq<L>, heights: map<L, nat>, h: int, n: nat) {
    && n <= |ls|
    && (n < |ls| ==> h < Above(ls, heights, n + 1))
    && (n > 0 ==> Above(ls, heights, n) <= h)
  }

  /** There is exactly one such line, and from a height within the document it is the line around that height. */
  lemma LineAtIsUnique<L>(ls: seq<L>, heights: map<L, nat>, h: int, m: nat, n: nat)
    requires IsLineAt(ls, heights, h, m) && IsLineAt(ls, heights, h, n)
    ensures m == n
    ensures n == |ls| && n > 0 ==> h >= Sum(ls, heights)
    ensures 0 <= h < Sum(ls, heights) ==> n < |ls| && Above(ls, heights, n) <= h < Above(ls, heights, n + 1)
  {
    assert ls[..|ls|] == ls;
    if m < n {
      AboveMonotone(ls, heights, m + 1, n);
    } else if n < m {
      AboveMonotone(ls, heights, n + 1, m);
    }
  }

  /** Looking up the height above a line gives back the line, if the line has any height. */
  lemma LineAtAbove<L>(ls: seq<L>, heights: map<L, nat>, n: nat, m: nat)
    requires n < |ls| && ls[n] in heights && heights[ls[n]] > 0
    requires IsLineAt(ls, heights, Above(ls, heights, n), m)
    ensures m == n
  {
    AboveStep(ls, heights, n);
    LineAtIsUnique(ls, heights, Above(ls, heights, n), m, n);
  }

  /** The lookup may go on in a part of the lines that the height falls into. */
  lemma LineAtInside<L>(a: seq<L>, m: seq<L>, b: seq<L>, heights: map<L, nat>, h: int, n: nat)
    requires IsLineAt(m, heights, h - Sum(a, heights), n) && n < |m| && (|a| > 0 ==> Sum(a, heights) <= h)
    ensures IsLineAt(a + m + b, heights, h, |a| + n)
  {
    var ls := a + m + b;
    assert ls[..|a| + n] == a + m[..n] && ls[..|a| + n + 1] == a + m[..n + 1];
    SumAppend(a, m[..n], heights);
    SumAppend(a, m[..n + 1], heights);
  }

  /** The lines `m` stand in `ls` between `a` and `b`, and height `h` of `ls` is height `t` of `m`. */
  ghost predicate Falls<L>(ls: seq<L>, heights: map<L, nat>, h: int, a: seq<L>, m: seq<L>, b: seq<L>, t: int) {
    ls == a + m + b && t == h - Sum(a, heights) && (|a| > 0 ==> t >= 0)
  }

  lemma FallsStart<L>(ls: seq<L>, heights: map<L, nat>, h: int) returns (a: seq<L>, b: seq<L>)
    ensures a == [] && Falls(ls, heights, h, a, ls, b, h)
  {
    a, b := [], [];
  }

  /** A height below all children is below all lines. */
  lemma FallsPast<C, L>(ls: seq<L>, ks: seq<C>, text: map<C, seq<L>>, heights: map<L, nat>, h: int)
    requires ls == Flat(ks, text) && (|ks| > 0 ==> Sum(Flat(ks[..|ks|], text), heights) <= h)
    ensures |Flat(ks[..|ks|], text)| == |ls| && IsLineAt(ls, heights, h, |ls|)
  {
    assert ks[..|ks|] == ks && ls[..|ls|] == ls;
  }

  lemma FallsInto<C, L>(ls: seq<L>, heights: map<L, nat>, h: int, a: seq<L>, ks: seq<C>, text: map<C, seq<L>>, b: seq<L>, t: int, k: nat)
    returns (a': seq<L>, b': seq<L>)
    requires Falls(ls, heights, h, a, Flat(ks, text), b, t) && k < |ks| && ks[k] in text
    requires k > 0 ==> Sum(Flat(ks[..k], text), heights) <= t
    ensures Falls(ls, heights, h, a', text[ks[k]], b', t - Sum(Flat(ks[..k], text), heights))
    ensures |a'| == |a| + |Flat(ks[..k], text)|
  {
    FlatAround(ks, k, text);
    var before, after := Flat(ks[..k], text), Flat(ks[k + 1..], text);
    SumAppend(a, before, heights);
    a', b' := a + before, after + b;
    assert ls == a' + text[ks[k]] + b';
    assert k == 0 ==> ks[..k] == [];
  }

  /** The lookup may go on in the part the height falls into. */
  lemma FallsLine<L>(ls: seq<L>, heights: map<L, nat>, h: int, a: seq<L>, m: seq<L>, b: seq<L>, t: int, n: nat)
    requires Falls(ls, heights, h, a, m, b, t) && IsLineAt(m, heights, t, n) && t < Sum(m, heights) && m != []
    ensures IsLineAt(ls, heights, h, |a| + n)
  {
    assert m[..|m|] == m;
    LineAtInside(a, m, b, heights, h, n);
  }

  // ----- which child holds a line

  lemma FlatAt<C, L>(ks: seq<C>, n: nat, text: map<C, seq<L>>, e: nat)
    requires n < |ks| && ks[n] in text && e < |text[ks[n]]|
    ensures |Flat(ks[..n], text)| + e < |Flat(ks, text)|
    ensures Flat(ks, text)[|Flat(ks[..n], text)| + e] == text[ks[n]][e]
  {
    FlatAround(ks, n, text);
  }

  lemma SumAround<C, L>(ks: seq<C>, n: nat, text: map<C, seq<L>>, e: nat, heights: map<L, nat>)
    requires n < |ks| && ks[n] in text && e <= |text[ks[n]]|
    ensures |Flat(ks[..n], text)| + e <= |Flat(ks, text)|
    ensures Above(Flat(ks, text), heights, |Flat(ks[..n], text)| + e) == Sum(Flat(ks[..n], text), heights) + Above(text[ks[n]], heights, e)
  {
    FlatAround(ks, n, text);
    assert Flat(ks, text)[..|Flat(ks[..n], text)| + e] == Flat(ks[..n], text) + text[ks[n]][..e];
    SumAppend(Flat(ks[..n], text), text[ks[n]][..e], heights);
  }
}
