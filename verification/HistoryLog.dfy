/**
 The record of edits as plain values: stacks of selections and events, what an event undoes, and
 which text every event leads back to.
 */
module HistoryLog {
  import opened Positions
  import opened Texts
  import opened Changes

  /** An entry of the history: a selection, or the inverses of the edits made in one go. */
  datatype Entry<S> = Selection(sel: S) | Event(changes: seq<Change>, generation: nat)

  /** Carrying out `cs` from the last to the first takes the text `d` to `d0`. */
  ghost predicate Undoes(cs: seq<Change>, d: seq<string>, d0: seq<string>) {
    if cs == [] then d == d0
    else ValidChange(d, Last(cs)) && Undoes(cs[..|cs| - 1], Splice(d, Last(cs)), d0)
  }

  /**
   A stack on top of the text `d`: its events lead, from the top down, to the texts `ts`, from the
   last to the first; `gens` gives the text each generation number stands for.  Below every event
   there is a selection.
   */
  ghost predicate Stack<S>(s: seq<Entry<S>>, d: seq<string>, ts: seq<seq<string>>, gens: map<nat, seq<string>>) {
    if s == [] then ts == []
    else match Last(s)
      case Selection(_) => Stack(s[..|s| - 1], d, ts, gens)
      case Event(cs, generation) =>
        && |s| > 1 && s[|s| - 2].Selection?
        && |ts| > 0 && |cs| > 0 && Undoes(cs, d, Last(ts))
        && generation > 0 && generation in gens && gens[generation] == Last(ts)
        && Stack(s[..|s| - 1], Last(ts), ts[..|ts| - 1], gens)
  }

  function Events<S>(s: seq<Entry<S>>): nat {
    if s == [] then 0 else Events(s[..|s| - 1]) + if Last(s).Event? then 1 else 0
  }

  lemma {:induction false} StackEvents<S>(s: seq<Entry<S>>, d: seq<string>, ts: seq<seq<string>>, gens: map<nat, seq<string>>)
    requires Stack(s, d, ts, gens)
    ensures Events(s) == |ts|
    ensures s != [] ==> s[0].Selection?
  {
    if s != [] {
      match Last(s)
      case Selection(_) => StackEvents(s[..|s| - 1], d, ts, gens);
      case Event(_, _) => StackEvents(s[..|s| - 1], Last(ts), ts[..|ts| - 1], gens);
    }
  }

  lemma StackNone<S>(d: seq<string>, gens: map<nat, seq<string>>)
    ensures Stack<S>([], d, [], gens)
  {
  }

  /** Taking a selection off the top leaves a stack. */
  lemma StackPop<S>(s: seq<Entry<S>>, d: seq<string>, ts: seq<seq<string>>, gens: map<nat, seq<string>>)
    requires Stack(s, d, ts, gens) && s != [] && Last(s).Selection?
    ensures Stack(s[..|s| - 1], d, ts, gens) && Events(s[..|s| - 1]) == Events(s)
  {
  }

  /** What lies under an event on top of a stack. */
  lemma StackTop<S>(s: seq<Entry<S>>, d: seq<string>, ts: seq<seq<string>>, gens: map<nat, seq<string>>)
    requires Stack(s, d, ts, gens) && s != [] && Last(s).Event?
    ensures |s| > 1 && s[|s| - 2].Selection? && |ts| > 0 && |Last(s).changes| > 0 && Undoes(Last(s).changes, d, Last(ts))
    ensures Last(s).generation > 0 && Last(s).generation in gens && gens[Last(s).generation] == Last(ts)
    ensures Stack(s[..|s| - 1], Last(ts), ts[..|ts| - 1], gens)
  {
  }

  /** New generation numbers do not disturb a stack. */
  lemma {:induction false} StackMore<S>(s: seq<Entry<S>>, d: seq<string>, ts: seq<seq<string>>, gens: map<nat, seq<string>>, gens': map<nat, seq<string>>)
    requires Stack(s, d, ts, gens) && forall k :: k in gens ==> k in gens' && gens'[k] == gens[k]
    ensures Stack(s, d, ts, gens')
  {
    if s != [] {
      match Last(s)
      case Selection(_) => StackMore(s[..|s| - 1], d, ts, gens, gens');
      case Event(_, _) => StackMore(s[..|s| - 1], Last(ts), ts[..|ts| - 1], gens, gens');
    }
  }

  /** A selection may come on top of any stack. */
  lemma StackSelect<S>(s: seq<Entry<S>>, d: seq<string>, ts: seq<seq<string>>, gens: map<nat, seq<string>>, sel: S)
    requires Stack(s, d, ts, gens)
    ensures Stack(s + [Selection(sel)], d, ts, gens)
  {
    assert (s + [Selection(sel)])[..|s|] == s;
  }

  /** An event may come on top of a selection. */
  lemma StackPush<S>(s: seq<Entry<S>>, d: seq<string>, ts: seq<seq<string>>, gens: map<nat, seq<string>>, cs: seq<Change>, generation: nat, e: seq<string>)
    requires Stack(s, d, ts, gens) && |s| > 0 && Last(s).Selection?
    requires |cs| > 0 && Undoes(cs, e, d) && generation > 0 && generation in gens && gens[generation] == d
    ensures Stack(s + [Event(cs, generation)], e, ts + [d], gens)
  {
    assert (s + [Event(cs, generation)])[..|s|] == s && (ts + [d])[..|ts|] == ts;
  }

  /** The event on top may change, as long as it leads from the new text to where it led before. */
  lemma StackChange<S>(s: seq<Entry<S>>, d: seq<string>, e: seq<string>, ts: seq<seq<string>>, gens: map<nat, seq<string>>, event: Entry<S>)
    requires Stack(s, d, ts, gens) && s != [] && Last(s).Event?
    requires event.Event? && |event.changes| > 0 && event.generation == Last(s).generation && Undoes(event.changes, e, Last(ts))
    ensures Stack(s[..|s| - 1] + [event], e, ts, gens)
  {
    var s' := s[..|s| - 1] + [event];
    assert s'[..|s'| - 1] == s[..|s| - 1] && s'[|s'| - 2] == s[|s| - 2];
  }

  /** Selections on top do not count. */
  lemma {:induction false} EventsBelow<S>(s: seq<Entry<S>>, n: nat)
    requires n <= |s| && forall i :: n <= i < |s| ==> s[i].Selection?
    ensures Events(s) == Events(s[..n])
    ensures n > 0 && s[n - 1].Event? ==> Events(s) > 0
  {
    if n < |s| {
      EventsBelow(s[..|s| - 1], n);
      assert s[..|s| - 1][..n] == s[..n];
    } else {
      assert s[..n] == s;
    }
  }

  lemma {:induction false} EventsAt<S>(s: seq<Entry<S>>, i: nat)
    requires i < |s| && s[i].Event?
    ensures Events(s) > 0
  {
    if i < |s| - 1 {
      EventsAt(s[..|s| - 1], i);
    }
  }

  /** Dropping the oldest selection, when no event rests on it. */
  lemma {:induction false} StackShift<S>(s: seq<Entry<S>>, d: seq<string>, ts: seq<seq<string>>, gens: map<nat, seq<string>>)
    requires Stack(s, d, ts, gens) && |s| > 0 && (|s| > 1 ==> s[1].Selection?)
    ensures Stack(s[1..], d, ts, gens)
  {
    var r, t := s[..|s| - 1], s[1..];
    if |s| == 1 {
      assert t == [];
    } else {
      assert t[..|t| - 1] == r[1..] && Last(t) == Last(s);
      match Last(s)
      case Selection(_) =>
        StackShift(r, d, ts, gens);
      case Event(cs, generation) =>
        StackShift(r, Last(ts), ts[..|ts| - 1], gens);
        assert |s| > 2 && t[|t| - 2] == s[|s| - 2];
    }
  }

  /** Dropping the oldest selection together with the event that rests on it. */
  lemma {:induction false} StackShiftEvent<S>(s: seq<Entry<S>>, d: seq<string>, ts: seq<seq<string>>, gens: map<nat, seq<string>>)
    requires Stack(s, d, ts, gens) && |s| > 1 && s[1].Event?
    ensures |ts| > 0 && Stack(s[2..], d, ts[1..], gens)
  {
    StackEvents(s, d, ts, gens);
    var r, t := s[..|s| - 1], s[2..];
    if |s| == 2 {
      StackEvents(r, Last(ts), ts[..|ts| - 1], gens);
      assert Events(r[..0]) == 0 && Events(r) == 0;
      assert t == [] && ts[1..] == [];
    } else {
      assert t[..|t| - 1] == r[2..] && Last(t) == Last(s);
      match Last(s)
      case Selection(_) =>
        StackShiftEvent(r, d, ts, gens);
      case Event(cs, generation) =>
        StackShiftEvent(r, Last(ts), ts[..|ts| - 1], gens);
        assert ts[1..][..|ts| - 2] == ts[..|ts| - 1][1..];
        assert |s| > 3 && t[|t| - 2] == s[|s| - 2];
    }
  }

  // ----- events

  /** One more edit in an event. */
  lemma UndoesMore(cs: seq<Change>, d: seq<string>, d0: seq<string>, c: Change)
    requires Undoes(cs, d, d0) && ValidChange(d, c)
    ensures Undoes(cs + [Inverse(d, c)], Splice(d, c), d0)
  {
    InverseUndoes(d, c);
    assert (cs + [Inverse(d, c)])[..|cs|] == cs;
  }

  lemma OneEdit(d: seq<string>, c: Change)
    requires ValidChange(d, c)
    ensures Undoes([Inverse(d, c)], Splice(d, c), d)
  {
    UndoesMore([], d, d, c);
    assert [] + [Inverse(d, c)] == [Inverse(d, c)];
  }

  /** An insertion right where the last inverse edit ends can be undone together with it. */
  lemma UndoesLonger(cs: seq<Change>, d: seq<string>, d0: seq<string>, c: Change)
    requires |cs| > 0 && Undoes(cs, d, d0) && ValidChange(d, c)
    requires Cmp(c.from, c.to) == 0 && Cmp(c.from, Last(cs).to) == 0
    ensures Undoes(cs[..|cs| - 1] + [Last(cs).(to := ChangeEnd(c))], Splice(d, c), d0)
  {
    var a, r := Last(cs), cs[..|cs| - 1];
    InsertionMerges(d, a, c);
    assert (r + [a.(to := ChangeEnd(c))])[..|r|] == r;
  }

  lemma InsertionMerges(d: seq<string>, a: Change, c: Change)
    requires ValidChange(d, a) && ValidChange(d, c) && c.from == c.to == a.to
    ensures ValidChange(Splice(d, c), a.(to := ChangeEnd(c)))
    ensures Splice(Splice(d, c), a.(to := ChangeEnd(c))) == Splice(d, a)
  {
    var e, b := Splice(d, c), a.(to := ChangeEnd(c));
    SpliceCut(d, c);
    if Cmp(a.from, a.to) < 0 {
      AdjustBefore(d, c, a.from);
    }
    assert Before(e, a.from) == Before(d, a.from);
    SpliceCat(d, a);
    SpliceCat(e, b);
  }
}
