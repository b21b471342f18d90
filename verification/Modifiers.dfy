/**
 Bringing the modifiers of a popup into an order in which each comes after those it depends on:
 a depth-first walk that remembers which names it has visited, and a stable sort by phase.
 */
module Modifiers {

  datatype Modifier = Modifier(name: string, phase: string, needs: seq<string>, needsIfExists: seq<string>)

  /** The names of the modifiers of a list. */
  function Names(ms: seq<Modifier>): set<string> {
    set m | m in ms :: m.name
  }

  function Deps(m: Modifier): (deps: seq<string>)
    ensures forall d :: d in deps <==> d in m.needs || d in m.needsIfExists
  {
    m.needs + m.needsIfExists
  }

  lemma NamesSnoc(ms: seq<Modifier>, m: Modifier)
    ensures Names(ms + [m]) == Names(ms) + {m.name}
  {
    assert forall x :: x in ms + [m] <==> x in ms || x == m;
  }

  ghost predicate OnePerName(ms: seq<Modifier>) {
    forall i, j :: 0 <= i < j < |ms| ==> ms[i].name != ms[j].name
  }

  lemma OnePerNameSnoc(ms: seq<Modifier>, m: Modifier)
    requires OnePerName(ms) && m.name !in Names(ms)
    ensures OnePerName(ms + [m])
  {
    forall i | 0 <= i < |ms| ensures ms[i].name != m.name {
      assert ms[i] in ms;
    }
  }

  /** The dependencies of modifier `i` that are present come before it. */
  ghost predicate DepsBefore(ms: seq<Modifier>, i: nat, present: set<string>)
    requires i < |ms|
  {
    forall d :: (d in ms[i].needs || d in ms[i].needsIfExists) && d in present ==> d in Names(ms[..i])
  }

  ghost predicate InOrder(ms: seq<Modifier>, present: set<string>) {
    forall i :: 0 <= i < |ms| ==> DepsBefore(ms, i, present)
  }

  lemma InOrderSnoc(ms: seq<Modifier>, m: Modifier, present: set<string>)
    requires InOrder(ms, present) && forall d :: d in Deps(m) && d in present ==> d in Names(ms)
    ensures InOrder(ms + [m], present)
  {
    forall i | 0 <= i < |ms| + 1 ensures DepsBefore(ms + [m], i, present) {
      if i < |ms| {
        assert (ms + [m])[..i] == ms[..i] && DepsBefore(ms, i, present);
      } else {
        assert (ms + [m])[..i] == ms;
      }
    }
  }

  /** The dependencies have no cycle: every modifier ranks above those it depends on. */
  ghost predicate RankedBy(ms: seq<Modifier>, rank: map<string, nat>) {
    && (forall m :: m in ms ==> m.name in rank)
    && (forall m, d :: m in ms && d in Deps(m) && d in Names(ms) ==> d in rank && rank[d] < rank[m.name])
  }

  ghost predicate Acyclic(ms: seq<Modifier>) {
    exists rank :: RankedBy(ms, rank)
  }

  lemma HasName(ms: seq<Modifier>, rank: map<string, nat>, m: Modifier)
    requires m in ms
    ensures m.name in Names(ms) && (RankedBy(ms, rank) ==> m.name in rank)
  {
  }

  lemma RanksAbove(ms: seq<Modifier>, rank: map<string, nat>, m: Modifier, d: string)
    requires RankedBy(ms, rank) && m in ms && d in Deps(m) && d in Names(ms)
    ensures d in rank && m.name in rank && rank[d] < rank[m.name]
  {
  }

  /** In a list that is in order nothing has to be visited before its turn. */
  lemma NextVisit(ms: seq<Modifier>, i: nat)
    requires i < |ms| && OnePerName(ms) && InOrder(ms, Names(ms))
    ensures ms[i].name !in Names(ms[..i]) && forall d :: d in Deps(ms[i]) && d in Names(ms) ==> d in Names(ms[..i])
  {
    assert DepsBefore(ms, i, Names(ms));
    forall m | m in ms[..i] ensures m.name != ms[i].name {
      var k :| 0 <= k < i && ms[k] == m;
    }
  }

  lemma NoNames()
    ensures Names([]) == {}
  {
  }

  lemma NamesNext(ms: seq<Modifier>, i: nat)
    requires i < |ms|
    ensures ms[..i + 1] == ms[..i] + [ms[i]] && Names(ms[..i + 1]) == Names(ms[..i]) + {ms[i].name}
  {
    assert ms[..i + 1] == ms[..i] + [ms[i]];
    NamesSnoc(ms[..i], ms[i]);
  }

  class Ordering {
    ghost const input: seq<Modifier>
    ghost const rank: map<string, nat>
    var byName: map<string, Modifier>
    var visited: set<string>
    var result: seq<Modifier>

    /** The modifiers that have been visited but not put out: those the walk is inside of. */
    ghost function Open(): set<string>
      reads this
    {
      visited - Names(result)
    }

    ghost predicate Valid()
      reads this
    {
      && (forall n :: n in byName ==> byName[n] in input && byName[n].name == n)
      && byName.Keys == Names(input)
      && visited <= Names(input) && Names(result) <= visited
      && OnePerName(result) && (forall m :: m in result ==> m in input)
      && (RankedBy(input, rank) ==> InOrder(result, Names(input)))
    }

    constructor (ghost ms: seq<Modifier>, ghost rank: map<string, nat>, byName: map<string, Modifier>)
      requires byName.Keys == Names(ms) && forall n :: n in byName ==> byName[n] in ms && byName[n].name == n
      ensures Valid() && Open() == {} && input == ms && this.rank == rank && visited == {} && result == []
    {
      input, this.rank := ms, rank;
      this.byName, visited, result := byName, {}, [];
    }

    /** Whatever the modifier depends on has been visited, if it is there. */
    ghost predicate AllVisited(m: Modifier)
      reads this
    {
      forall d :: d in Deps(m) && d in Names(input) ==> d in visited
    }

    /** What the walk below a modifier leaves as it was and what it adds. */
    twostate predicate Walked()
      reads this
    {
      byName == old(byName) && Open() == old(Open()) && old(visited) <= visited
    }

    /** Visit a modifier: first those it depends on, unless they were visited before, then the modifier itself. */
    method Sort(m: Modifier)
      requires Valid() && m in input && m.name !in visited
      requires RankedBy(input, rank) ==> forall n :: n in Open() ==> n in rank && m.name in rank && rank[m.name] < rank[n]
      modifies `visited, `result
      ensures Valid() && Walked() && m.name in visited
      ensures old(AllVisited(m)) ==> result == old(result) + [m] && visited == old(visited) + {m.name}
      decreases Names(input) - visited, 1
    {
      hide OnePerName, InOrder, RankedBy, Names;
      HasName(input, rank, m);
      visited := visited + {m.name};
      assert Open() == old(Open()) + {m.name};
      label Visited:
      var i := 0;
      var deps := m.needs + m.needsIfExists;
      while i < |deps|
        invariant 0 <= i <= |deps| && Valid() && Walked@Visited()
        invariant forall k :: 0 <= k < i && deps[k] in Names(input) ==> deps[k] in visited
        invariant old(AllVisited(m)) ==> result == old(result) && visited == old(visited) + {m.name}
      {
        if deps[i] !in visited {
          SortByName(m, deps[i]);
        }
        i := i + 1;
      }
      PutOut(m);
    }

    /** Put out a modifier after all that it depends on. */
    method PutOut(m: Modifier)
      requires Valid() && m in input && m.name in Open() && AllVisited(m)
      requires RankedBy(input, rank) ==> forall n :: n in Open() ==> n in rank && m.name in rank && rank[m.name] <= rank[n]
      modifies `result
      ensures Valid() && result == old(result) + [m] && Open() == old(Open()) - {m.name}
    {
      hide RankedBy, OnePerName, InOrder;
      if RankedBy(input, rank) {
        forall d | d in Deps(m) && d in Names(input) ensures d in Names(result) {
          RanksAbove(input, rank, m, d);
          assert d !in Open();
        }
        InOrderSnoc(result, m, Names(input));
      }
      NamesSnoc(result, m);
      OnePerNameSnoc(result, m);
      result := result + [m];
    }

    /** Visit a dependency, if there is a modifier of that name. */
    method SortByName(ghost m: Modifier, d: string)
      requires Valid() && m in input && d in Deps(m) && d !in visited && m.name in visited
      requires RankedBy(input, rank) ==> forall n :: n in Open() ==> n in rank && rank[m.name] <= rank[n]
      modifies `visited, `result
      ensures Valid() && Walked() && (d in Names(input) ==> d in visited)
      ensures d !in Names(input) ==> result == old(result) && visited == old(visited)
      decreases Names(input) - visited, 2
    {
      if d in byName {
        Sort(byName[d]);
      }
    }

    /** Visit the modifiers in the order of the list. */
    method VisitAll(ms: seq<Modifier>)
      requires Valid() && Open() == {} && ms == input
      modifies `visited, `result
      ensures Valid() && Open() == {} && forall k :: 0 <= k < |ms| ==> ms[k].name in visited
      ensures OnePerName(ms) && InOrder(ms, Names(ms)) && old(visited) == {} && old(result) == [] ==> result == ms
    {
      hide OnePerName, InOrder, RankedBy, Names, Deps;
      NoNames();
      ghost var settled := OnePerName(ms) && InOrder(ms, Names(ms)) && visited == {} && result == [];
      var i := 0;
      while i < |ms|
        invariant 0 <= i <= |ms| && Valid() && Open() == {}
        invariant forall k :: 0 <= k < i ==> ms[k].name in visited
        invariant settled ==> result == ms[..i] && visited == Names(ms[..i])
      {
        if settled {
          NextVisit(ms, i);
          NamesNext(ms, i);
        }
        if ms[i].name !in visited {
          Sort(ms[i]);
        }
        i := i + 1;
      }
    }
  }

  /** A ranking of the modifiers, if their dependencies have no cycle. */
  ghost method Ranking(ms: seq<Modifier>) returns (rank: map<string, nat>)
    ensures Acyclic(ms) ==> RankedBy(ms, rank)
  {
    rank := map[];
    if Acyclic(ms) {
      rank :| RankedBy(ms, rank);
    }
  }

  /** Modifiers by name; of several with the same name the last counts. */
  method ByName(ms: seq<Modifier>) returns (byName: map<string, Modifier>)
    ensures byName.Keys == Names(ms)
    ensures forall n :: n in byName ==> byName[n] in ms && byName[n].name == n
  {
    byName := map[];
    var i := 0;
    while i < |ms|
      invariant 0 <= i <= |ms| && byName.Keys == Names(ms[..i])
      invariant forall n :: n in byName ==> byName[n] in ms && byName[n].name == n
    {
      assert ms[..i + 1] == ms[..i] + [ms[i]];
      NamesSnoc(ms[..i], ms[i]);
      byName := byName[ms[i].name := ms[i]];
      i := i + 1;
    }
    assert ms[..i] == ms;
  }

  /** When nothing is open and every modifier was visited, every name has been put out. */
  lemma AllOut(ms: seq<Modifier>, visited: set<string>, result: seq<Modifier>)
    requires (forall k :: 0 <= k < |ms| ==> ms[k].name in visited) && visited - Names(result) == {}
    requires Names(result) <= Names(ms)
    ensures Names(result) == Names(ms)
  {
    forall n | n in Names(ms) ensures n in Names(result) {
      var m :| m in ms && m.name == n;
      var k :| 0 <= k < |ms| && ms[k] == m;
      assert n in visited && n !in visited - Names(result);
    }
  }

  /** order: all modifiers, each after those it depends on. */
  method Order(ms: seq<Modifier>) returns (result: seq<Modifier>)
    ensures Names(result) == Names(ms) && OnePerName(result) && (forall m :: m in result ==> m in ms)
    ensures Acyclic(ms) ==> InOrder(result, Names(ms))
    ensures OnePerName(ms) && InOrder(ms, Names(ms)) ==> result == ms
  {
    ghost var rank := Ranking(ms);
    var byName := ByName(ms);
    var o := new Ordering(ms, rank, byName);
    o.VisitAll(ms);
    AllOut(ms, o.visited, o.result);
    result := o.result;
  }

  // ----- the sort by phase

  const PHASES := ["beforeRead", "read", "afterRead", "beforeMain", "main", "afterMain", "beforeWrite", "write", "afterWrite"]

  /** The modifiers of one phase, in the order of the list. */
  function InPhase(ms: seq<Modifier>, phase: string): seq<Modifier> {
    if ms == [] then []
    else InPhase(ms[..|ms| - 1], phase) + if ms[|ms| - 1].phase == phase then [ms[|ms| - 1]] else []
  }

  /** The modifiers of the first `k` phases, phase by phase. */
  function ByPhase(ms: seq<Modifier>, k: nat): seq<Modifier>
    requires k <= |PHASES|
  {
    if k == 0 then [] else ByPhase(ms, k - 1) + InPhase(ms, PHASES[k - 1])
  }

  /** orderModifiers, after the dependencies have been seen to. */
  function SortedByPhase(ms: seq<Modifier>): seq<Modifier> {
    ByPhase(ms, |PHASES|)
  }

  /** A modifier of the phase appears as often as in the list, and no other. */
  lemma {:induction false} InPhaseHas(ms: seq<Modifier>, phase: string, m: Modifier)
    ensures multiset(InPhase(ms, phase))[m] == if m.phase == phase then multiset(ms)[m] else 0
    ensures m in InPhase(ms, phase) <==> m in ms && m.phase == phase
  {
    if ms != [] {
      InPhaseHas(ms[..|ms| - 1], phase, m);
      assert ms == ms[..|ms| - 1] + [ms[|ms| - 1]];
    }
  }

  lemma PhasesDiffer(p: nat, q: nat)
    requires p < q < |PHASES|
    ensures PHASES[p] != PHASES[q]
  {
    var a, b := PHASES[p], PHASES[q];
    assert |PHASES| == 9;
  }

  predicate KnownUpto(phase: string, k: nat)
    requires k <= |PHASES|
  {
    exists p :: 0 <= p < k && PHASES[p] == phase
  }

  /** The first phases hold every modifier of these phases as often as the list does, and no other. */
  lemma {:induction false} ByPhaseHas(ms: seq<Modifier>, k: nat, m: Modifier)
    requires k <= |PHASES|
    ensures multiset(ByPhase(ms, k))[m] == if KnownUpto(m.phase, k) then multiset(ms)[m] else 0
    ensures m in ByPhase(ms, k) <==> m in ms && KnownUpto(m.phase, k)
  {
    if k > 0 {
      ByPhaseHas(ms, k - 1, m);
      InPhaseHas(ms, PHASES[k - 1], m);
      KnownStep(m.phase, k);
    }
  }

  lemma KnownStep(phase: string, k: nat)
    requires 0 < k <= |PHASES|
    ensures KnownUpto(phase, k) <==> KnownUpto(phase, k - 1) || PHASES[k - 1] == phase
    ensures !(KnownUpto(phase, k - 1) && PHASES[k - 1] == phase)
  {
    if p :| 0 <= p < k - 1 && PHASES[p] == phase {
      PhasesDiffer(p, k - 1);
    }
  }

  /** Where an entry of a phase stands in the list: what is before it there is what was before it in that phase. */
  lemma {:induction false} InPhaseAt(ms: seq<Modifier>, phase: string, i: nat) returns (k: nat)
    requires i < |InPhase(ms, phase)|
    ensures k < |ms| && ms[k] == InPhase(ms, phase)[i] && ms[k].phase == phase
    ensures InPhase(ms[..k], phase) == InPhase(ms, phase)[..i]
  {
    var r, x := ms[..|ms| - 1], ms[|ms| - 1];
    if x.phase == phase && i == |InPhase(r, phase)| {
      k := |ms| - 1;
    } else {
      k := InPhaseAt(r, phase, i);
      assert ms[..k] == r[..k];
    }
  }

  /** No present dependency has a later phase than the modifier that needs it. */
  ghost predicate PhasesAgree(ms: seq<Modifier>) {
    forall m, d :: m in ms && d in ms && d.name in Deps(m) ==>
      forall k :: 0 <= k < |PHASES| && PHASES[k] == m.phase ==> KnownUpto(d.phase, k + 1)
  }

  /** A dependency that comes first in the list comes first in the sorted list. */
  lemma DepInPhase(ms: seq<Modifier>, k: nat, i: nat, d: string)
    requires k < |PHASES| && InOrder(ms, Names(ms)) && PhasesAgree(ms)
    requires i < |InPhase(ms, PHASES[k])| && d in Deps(InPhase(ms, PHASES[k])[i]) && d in Names(ms)
    ensures d in Names(ByPhase(ms, k) + InPhase(ms, PHASES[k])[..i])
  {
    hide InPhase, ByPhase, PHASES;
    var n := InPhaseAt(ms, PHASES[k], i);
    assert DepsBefore(ms, n, Names(ms));
    var y :| y in ms[..n] && y.name == d;
    DepPlace(ms, k, n, y);
    assert y in ByPhase(ms, k) + InPhase(ms, PHASES[k])[..i];
  }

  lemma DepPlace(ms: seq<Modifier>, k: nat, n: nat, y: Modifier)
    requires k < |PHASES| && n <= |ms| && y in ms[..n] && KnownUpto(y.phase, k + 1)
    ensures y in ByPhase(ms, k) || y in InPhase(ms[..n], PHASES[k])
  {
    KnownStep(y.phase, k + 1);
    ByPhaseHas(ms, k, y);
    InPhaseHas(ms[..n], PHASES[k], y);
  }

  lemma {:induction false} ByPhaseInOrder(ms: seq<Modifier>, k: nat)
    requires k <= |PHASES| && InOrder(ms, Names(ms)) && PhasesAgree(ms)
    ensures InOrder(ByPhase(ms, k), Names(ms))
  {
    if k > 0 {
      ByPhaseInOrder(ms, k - 1);
      var a, b := ByPhase(ms, k - 1), InPhase(ms, PHASES[k - 1]);
      forall i | 0 <= i < |a + b| ensures DepsBefore(a + b, i, Names(ms)) {
        if i < |a| {
          assert DepsBefore(a, i, Names(ms)) && (a + b)[..i] == a[..i];
        } else {
          assert (a + b)[..i] == a + b[..i - |a|];
          forall d | d in Deps(b[i - |a|]) && d in Names(ms) ensures d in Names((a + b)[..i]) {
            DepInPhase(ms, k - 1, i - |a|, d);
          }
        }
      }
    }
  }

  /** The sort keeps every modifier that has a known phase as often as it is there, and drops the others. */
  lemma SortKeeps(ms: seq<Modifier>, m: Modifier)
    ensures multiset(SortedByPhase(ms))[m] == if m.phase in PHASES then multiset(ms)[m] else 0
    ensures m in SortedByPhase(ms) <==> m in ms && m.phase in PHASES
  {
    ByPhaseHas(ms, |PHASES|, m);
  }

  /** One modifier per name stays one per name. */
  lemma SortKeepsNames(ms: seq<Modifier>)
    requires OnePerName(ms)
    ensures OnePerName(SortedByPhase(ms))
  {
    var s := SortedByPhase(ms);
    forall i, j | 0 <= i < j < |s| ensures s[i].name != s[j].name {
      SortKeeps(ms, s[i]);
      SortKeeps(ms, s[j]);
      var a :| 0 <= a < |ms| && ms[a] == s[i];
      var b :| 0 <= b < |ms| && ms[b] == s[j];
      if a == b {
        TwoOf(s, i, j);
        OnlyOne(ms, a);
      }
    }
  }

  lemma TwoOf(s: seq<Modifier>, i: nat, j: nat)
    requires i < j < |s| && s[i] == s[j]
    ensures multiset(s)[s[i]] >= 2
  {
    assert s == s[..i] + [s[i]] + s[i + 1..j] + [s[j]] + s[j + 1..];
  }

  lemma OnlyOne(ms: seq<Modifier>, a: nat)
    requires OnePerName(ms) && a < |ms|
    ensures multiset(ms)[ms[a]] == 1
  {
    assert ms == ms[..a] + [ms[a]] + ms[a + 1..];
    assert ms[a] !in ms[..a] && ms[a] !in ms[a + 1..];
  }

  /** The sort keeps dependencies first whenever none of them belongs to a later phase. */
  lemma SortKeepsOrder(ms: seq<Modifier>)
    requires InOrder(ms, Names(ms)) && PhasesAgree(ms)
    ensures InOrder(SortedByPhase(ms), Names(ms))
  {
    ByPhaseInOrder(ms, |PHASES|);
  }

  /** The first phase comes before the second, or is the second. */
  predicate NotLater(phase: string, phase': string) {
    exists p, q :: 0 <= p <= q < |PHASES| && PHASES[p] == phase && PHASES[q] == phase'
  }

  /** Reading, the main work and writing, in this order, each between what comes before and after it. */
  lemma Stages(k: nat)
    requires k < 3
    ensures |PHASES| == 9 && PHASES[1] == "read" && PHASES[4] == "main" && PHASES[7] == "write"
    ensures PHASES[3 * k] == "before" + Capital(PHASES[3 * k + 1]) && PHASES[3 * k + 2] == "after" + Capital(PHASES[3 * k + 1])
  {
    assert PHASES[3 * k + 1] == if k == 0 then "read" else if k == 1 then "main" else "write";
    assert "Read" == "R" + "read"[1..] && "Main" == "M" + "main"[1..] && "Write" == "W" + "write"[1..];
  }

  /** A word with its first letter as a capital. */
  function Capital(word: string): string {
    if word != "" && 'a' <= word[0] <= 'z' then [(word[0] as int - 'a' as int + 'A' as int) as char] + word[1..] else word
  }

  lemma {:induction false} ByPhaseAt(ms: seq<Modifier>, k: nat, i: nat, j: nat)
    requires k <= |PHASES| && i < j < |ByPhase(ms, k)|
    ensures NotLater(ByPhase(ms, k)[i].phase, ByPhase(ms, k)[j].phase)
  {
    hide PHASES, NotLater, KnownUpto, InPhase;
    var a, b := ByPhase(ms, k - 1), InPhase(ms, PHASES[k - 1]);
    if j < |a| {
      ByPhaseAt(ms, k - 1, i, j);
    } else {
      var x := ByPhase(ms, k)[i];
      assert b[j - |a|] in b && x in ByPhase(ms, k);
      InPhaseHas(ms, PHASES[k - 1], b[j - |a|]);
      ByPhaseHas(ms, k, x);
      KnownNotLater(x.phase, k);
    }
  }

  lemma KnownNotLater(phase: string, k: nat)
    requires 0 < k <= |PHASES| && KnownUpto(phase, k)
    ensures NotLater(phase, PHASES[k - 1])
  {
    hide PHASES;
  }

  lemma {:induction false} InPhaseAppend(a: seq<Modifier>, b: seq<Modifier>, phase: string)
    ensures InPhase(a + b, phase) == InPhase(a, phase) + InPhase(b, phase)
  {
    if b == [] {
      assert a + b == a;
    } else {
      assert (a + b)[..|a + b| - 1] == a + b[..|b| - 1];
      InPhaseAppend(a, b[..|b| - 1], phase);
    }
  }

  lemma {:induction false} InPhaseTwice(ms: seq<Modifier>, phase: string, phase': string)
    ensures InPhase(InPhase(ms, phase), phase') == if phase == phase' then InPhase(ms, phase) else []
  {
    if ms != [] {
      var x := ms[|ms| - 1];
      InPhaseTwice(ms[..|ms| - 1], phase, phase');
      InPhaseAppend(InPhase(ms[..|ms| - 1], phase), if x.phase == phase then [x] else [], phase');
      assert InPhase([x], phase') == if x.phase == phase' then [x] else [] by { assert [x][..0] == []; }
    }
  }

  lemma InPhaseNone(phase: string)
    ensures InPhase([], phase) == []
  {
  }

  lemma {:induction false} PhaseOfSorted(ms: seq<Modifier>, k: nat, p: nat)
    requires k <= |PHASES| && p < |PHASES|
    ensures InPhase(ByPhase(ms, k), PHASES[p]) == if p < k then InPhase(ms, PHASES[p]) else []
  {
    hide PHASES, InPhase;
    InPhaseNone(PHASES[p]);
    if k > 0 {
      PhaseOfSorted(ms, k - 1, p);
      InPhaseAppend(ByPhase(ms, k - 1), InPhase(ms, PHASES[k - 1]), PHASES[p]);
      InPhaseTwice(ms, PHASES[k - 1], PHASES[p]);
      if p < k - 1 {
        PhasesDiffer(p, k - 1);
      } else if k - 1 < p {
        PhasesDiffer(k - 1, p);
      }
    }
  }

  /** In the sorted list earlier phases come first, and every phase has the modifiers of the list in their order. */
  lemma PhaseByPhase(ms: seq<Modifier>)
    ensures var s := SortedByPhase(ms);
      && (forall i, j :: 0 <= i < j < |s| ==> NotLater(s[i].phase, s[j].phase))
      && (forall phase :: phase in PHASES ==> InPhase(s, phase) == InPhase(ms, phase))
  {
    hide PHASES, NotLater;
    var s := SortedByPhase(ms);
    forall i, j | 0 <= i < j < |s| ensures NotLater(s[i].phase, s[j].phase) {
      ByPhaseAt(ms, |PHASES|, i, j);
    }
    forall phase | phase in PHASES ensures InPhase(s, phase) == InPhase(ms, phase) {
      var p :| 0 <= p < |PHASES| && PHASES[p] == phase;
      PhaseOfSorted(ms, |PHASES|, p);
    }
  }

  /** orderModifiers as a whole: one modifier for every name that can have no unknown phase. */
  method OrderModifiers(ms: seq<Modifier>) returns (result: seq<Modifier>)
    ensures OnePerName(result) && forall m :: m in result ==> m in ms && m.phase in PHASES
    ensures forall n :: n in Names(ms) && (forall m :: m in ms && m.name == n ==> m.phase in PHASES) ==> n in Names(result)
    ensures Acyclic(ms) && PhasesAgree(ms) ==> InOrder(result, Names(ms))
    ensures forall i, j :: 0 <= i < j < |result| ==> NotLater(result[i].phase, result[j].phase)
    ensures OnePerName(ms) && InOrder(ms, Names(ms)) ==> forall phase :: phase in PHASES ==> InPhase(result, phase) == InPhase(ms, phase)
  {
    var ordered := Order(ms);
    result := SortedByPhase(ordered);
    forall m | m in result ensures m in ms && m.phase in PHASES {
      SortKeeps(ordered, m);
    }
    SortKeepsNames(ordered);
    PhaseByPhase(ordered);
    forall n | n in Names(ms) && (forall m :: m in ms && m.name == n ==> m.phase in PHASES) ensures n in Names(result) {
      var m :| m in ordered && m.name == n;
      SortKeeps(ordered, m);
    }
    if Acyclic(ms) && PhasesAgree(ms) {
      SortKeepsOrder(ordered);
    }
  }
}
