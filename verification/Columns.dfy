/** Columns of a line with tabs: from index to column, back, and the cached column of a stream. */
module Columns {
  import opened Wrappers

  /** The column after character `c` that stands in column `col`. */
  function Step(c: char, col: nat, tab: nat): nat
    requires tab > 0
  {
    if c == '\t' then col + (tab - col % tab) else col + 1
  }

  /** The column of index `end`, counting on from index `from` in column `col`. */
  function Count(s: string, from: nat, end: nat, col: nat, tab: nat): (r: nat)
    requires from <= end <= |s| && tab > 0
    ensures r >= col + (end - from)
    decreases end - from
  {
    if from == end then col else Count(s, from + 1, end, Step(s[from], col, tab), tab)
  }

  /** The column of an index of the line. */
  function Column(s: string, k: nat, tab: nat): nat
    requires k <= |s| && tab > 0
  {
    Count(s, 0, k, 0, tab)
  }

  /** Counting may be resumed anywhere. */
  lemma {:induction false} CountResumes(s: string, from: nat, mid: nat, end: nat, col: nat, tab: nat)
    requires from <= mid <= end <= |s| && tab > 0
    ensures Count(s, from, end, col, tab) == Count(s, mid, end, Count(s, from, mid, col, tab), tab)
    decreases mid - from
  {
    if from < mid {
      CountResumes(s, from + 1, mid, end, Step(s[from], col, tab), tab);
    }
  }

  /** A tab leads to the next column that is a multiple of the tab size, any other character to the next column. */
  lemma TabStops(s: string, k: nat, tab: nat)
    requires k < |s| && tab > 0
    ensures s[k] == '\t' ==> Column(s, k + 1, tab) % tab == 0
    ensures s[k] == '\t' ==> Column(s, k, tab) < Column(s, k + 1, tab) <= Column(s, k, tab) + tab
    ensures s[k] != '\t' ==> Column(s, k + 1, tab) == Column(s, k, tab) + 1
    ensures Column(s, 0, tab) == 0
  {
    hide Count;
    var col := Column(s, k, tab);
    CountNone(s, 0, 0, tab);
    CountResumes(s, 0, k, k + 1, 0, tab);
    CountOne(s, k, col, tab);
    if s[k] == '\t' {
      NextStop(col, tab);
    }
  }

  lemma CountOne(s: string, k: nat, col: nat, tab: nat)
    requires k < |s| && tab > 0
    ensures Count(s, k, k + 1, col, tab) == Step(s[k], col, tab)
  {
  }

  lemma NextStop(col: nat, tab: nat)
    requires tab > 0
    ensures col < col + (tab - col % tab) <= col + tab && (col + (tab - col % tab)) % tab == 0
  {
    NextMultiple(tab, col / tab);
    NoRemainder(tab, col / tab + 1);
  }

  lemma NextMultiple(tab: nat, n: nat)
    ensures tab * (n + 1) == tab * n + tab
  {
  }

  /** A multiple of a number leaves no remainder. */
  lemma NoRemainder(tab: nat, n: nat)
    requires tab > 0
    ensures (tab * n) % tab == 0
  {
    var x := tab * n;
    var q, r := x / tab, x % tab;
    if q < n {
      Further(tab, q, n);
    } else if n < q {
      Further(tab, n, q);
    }
  }

  lemma {:induction false} Further(tab: nat, m: nat, n: nat)
    requires m < n
    ensures tab * m + tab <= tab * n
  {
    NextMultiple(tab, n - 1);
    if m < n - 1 {
      Further(tab, m, n - 1);
    }
  }

  lemma {:induction false} CountPlain(s: string, from: nat, end: nat, col: nat, tab: nat)
    requires from <= end <= |s| && tab > 0 && '\t' !in s[from..end]
    ensures Count(s, from, end, col, tab) == col + (end - from)
    decreases end - from
  {
    if from < end {
      assert s[from] == s[from..end][0] && s[from + 1..end] == s[from..end][1..];
      CountPlain(s, from + 1, end, col + 1, tab);
    }
  }

  /** Every character takes up room. */
  lemma ColumnStrict(s: string, j: nat, k: nat, tab: nat)
    requires j < k <= |s| && tab > 0
    ensures Column(s, j, tab) < Column(s, k, tab)
  {
    CountResumes(s, 0, j, k, 0, tab);
  }

  /** indexOf for the tab. */
  method NextTab(s: string, from: nat) returns (r: Option<nat>)
    requires from <= |s|
    ensures r.None? ==> '\t' !in s[from..]
    ensures r.Some? ==> from <= r.value < |s| && s[r.value] == '\t' && '\t' !in s[from..r.value]
  {
    var i := from;
    while i < |s|
      invariant from <= i <= |s| && '\t' !in s[from..i]
    {
      if s[i] == '\t' { return Some(i); }
      assert s[from..i + 1] == s[from..i] + [s[i]];
      i := i + 1;
    }
    return None;
  }

  lemma CountNone(s: string, from: nat, col: nat, tab: nat)
    requires from <= |s| && tab > 0
    ensures Count(s, from, from, col, tab) == col
  {
  }

  lemma NoneBefore(s: string, i: nat, t: nat, m: nat)
    requires i <= t <= m <= |s| && '\t' !in s[i..m]
    ensures '\t' !in s[i..t]
  {
    forall k | i <= k < t ensures s[k] != '\t' {
      assert s[k] == s[i..m][k - i];
    }
  }

  /** The first index of a character that is not white space. */
  function FirstVisible(s: string, isSpace: char -> bool): (r: nat)
    ensures r <= |s| && (r < |s| ==> !isSpace(s[r])) && forall i :: 0 <= i < r ==> isSpace(s[i])
  {
    if s == "" || !isSpace(s[0]) then 0 else 1 + FirstVisible(s[1..], isSpace)
  }

  /** countColumn: from tab to tab; without an end, up to the first character that is not white space. */
  method CountColumn(s: string, end: Option<nat>, tab: nat, startIndex: nat, startValue: nat, isSpace: char -> bool) returns (col: nat)
    requires tab > 0
    requires var t := if end.Some? then end.value else FirstVisible(s, isSpace); startIndex <= t <= |s|
    ensures col == Count(s, startIndex, if end.Some? then end.value else FirstVisible(s, isSpace), startValue, tab)
  {
    hide Count;
    var t := if end.Some? then end.value else FirstVisible(s, isSpace);
    var i, n := startIndex, startValue;
    CountNone(s, i, n, tab);
    while true
      invariant startIndex <= i <= t && n == Count(s, startIndex, i, startValue, tab)
      decreases t - i
    {
      var nextTab := NextTab(s, i);
      if nextTab.None? || nextTab.value >= t {
        NoneBefore(s, i, t, if nextTab.None? then |s| else nextTab.value);
        CountPlain(s, i, t, n, tab);
        CountResumes(s, startIndex, i, t, startValue, tab);
        return n + (t - i);
      }
      ToNextTab(s, startIndex, i, nextTab.value, startValue, tab);
      n := n + (nextTab.value - i);
      n := n + (tab - n % tab);
      i := nextTab.value + 1;
    }
  }

  lemma ToNextTab(s: string, from: nat, i: nat, j: nat, col: nat, tab: nat)
    requires from <= i <= j < |s| && tab > 0 && s[j] == '\t' && '\t' !in s[i..j]
    ensures Count(s, from, j, col, tab) == Count(s, from, i, col, tab) + (j - i)
    ensures Count(s, from, j + 1, col, tab) == Step('\t', Count(s, from, j, col, tab), tab)
  {
    CountResumes(s, from, i, j, col, tab);
    CountPlain(s, i, j, Count(s, from, i, col, tab), tab);
    CountResumes(s, from, j, j + 1, col, tab);
  }

  /** The first index whose column is at least `goal`, or the end of the line. */
  ghost predicate IsIndexAt(s: string, goal: nat, tab: nat, k: nat)
    requires tab > 0
  {
    && k <= |s|
    && (k < |s| ==> Column(s, k, tab) >= goal)
    && (forall j :: 0 <= j < k ==> Column(s, j, tab) < goal)
  }

  /** findColumn */
  method FindColumn(s: string, goal: nat, tab: nat) returns (index: nat)
    requires tab > 0
    ensures IsIndexAt(s, goal, tab, index)
  {
    var pos, col := 0, 0;
    while true
      invariant 0 <= pos <= |s| && col == Column(s, pos, tab)
      invariant pos == 0 || col < goal
      decreases |s| - pos
    {
      var found := NextTab(s, pos);
      var nextTab := if found.Some? then found.value else |s|;
      assert '\t' !in s[pos..nextTab];
      var skipped := nextTab - pos;
      if nextTab == |s| || col + skipped >= goal {
        index := pos + if skipped < goal - col then skipped else goal - col;
        PlainIndex(s, goal, tab, pos, nextTab, index);
        return;
      }
      ToNextTab(s, 0, pos, nextTab, 0, tab);
      col := col + nextTab - pos;
      col := col + (tab - col % tab);
      pos := nextTab + 1;
      if col >= goal {
        forall j | 0 <= j < pos ensures Column(s, j, tab) < goal {
          if j < nextTab { ColumnStrict(s, j, nextTab, tab); }
        }
        return pos;
      }
    }
  }

  /** Between two tabs the index is found by subtraction. */
  lemma PlainIndex(s: string, goal: nat, tab: nat, pos: nat, next: nat, index: int)
    requires tab > 0 && pos <= next <= |s| && '\t' !in s[pos..next]
    requires var col := Column(s, pos, tab);
      && (pos == 0 || col < goal) && (next == |s| || col + (next - pos) >= goal)
      && index == pos + if next - pos < goal - col then next - pos else goal - col
    ensures index >= 0 && IsIndexAt(s, goal, tab, index)
  {
    var col := Column(s, pos, tab);
    NoneBefore(s, pos, index, next);
    CountPlain(s, pos, index, col, tab);
    CountResumes(s, 0, pos, index, 0, tab);
    forall j | 0 <= j < index ensures Column(s, j, tab) < goal {
      ColumnStrict(s, j, index, tab);
    }
  }

  /** Finding the column of an index gives back the index. */
  lemma IndexOfColumn(s: string, k: nat, tab: nat, r: nat)
    requires tab > 0 && k <= |s| && IsIndexAt(s, Column(s, k, tab), tab, r)
    ensures r == k
  {
    if r < k {
      ColumnStrict(s, r, k, tab);
    }
  }

  /** Finding a column never overshoots by more than the width of the character before. */
  lemma ColumnOfIndex(s: string, goal: nat, tab: nat, r: nat)
    requires tab > 0 && IsIndexAt(s, goal, tab, r) && 0 < r < |s|
    ensures goal <= Column(s, r, tab) < goal + if s[r - 1] == '\t' then tab else 1
  {
    CountResumes(s, 0, r - 1, r, 0, tab);
    assert Column(s, r - 1, tab) < goal;
    assert Count(s, r - 1, r, Column(s, r - 1, tab), tab) == Step(s[r - 1], Column(s, r - 1, tab), tab);
  }

  /** The part of a stream over a line that knows its column. */
  class Stream {
    const text: string
    const tab: nat
    var pos: nat
    var start: nat
    var lineStart: nat
    var lastColumnPos: nat
    var lastColumnValue: nat

    /** The cached column is right for the index it was computed for. */
    ghost predicate Valid()
      reads this
    {
      && tab > 0 && pos <= |text| && start <= |text| && lineStart <= |text| && lastColumnPos <= |text|
      && lastColumnValue == Column(text, lastColumnPos, tab)
    }

    constructor (text: string, tab: nat)
      ensures Valid() && this.text == text && this.tab == (if tab == 0 then 8 else tab)
      ensures pos == start == lineStart == lastColumnPos == 0
    {
      this.text, this.tab := text, if tab == 0 then 8 else tab;
      pos, start, lineStart, lastColumnPos, lastColumnValue := 0, 0, 0, 0, 0;
    }

    /** The next token starts where the stream is. */
    method StartToken()
      requires Valid()
      modifies `start
      ensures Valid() && start == pos
    {
      start := pos;
    }

    method Next() returns (c: Option<char>)
      requires Valid()
      modifies `pos
      ensures Valid() && c == if old(pos) < |text| then Some(text[old(pos)]) else None
      ensures pos == if old(pos) < |text| then old(pos) + 1 else old(pos)
    {
      if pos < |text| {
        c, pos := Some(text[pos]), pos + 1;
      } else {
        c := None;
      }
    }

    method BackUp(n: nat)
      requires Valid() && n <= pos
      modifies `pos
      ensures Valid() && pos == old(pos) - n
    {
      pos := pos - n;
    }

    /**
     column: the column where the current token starts.  It is right exactly as long as tokens
     do not start before the one whose column was asked for last.
     */
    method TokenColumn() returns (col: int)
      requires Valid()
      modifies `lastColumnPos, `lastColumnValue
      ensures Valid() && lastColumnPos == if old(lastColumnPos) < start then start else old(lastColumnPos)
      ensures col == Column(text, start, tab) - Column(text, lineStart, tab) <==> old(lastColumnPos) <= start
    {
      if lastColumnPos < start {
        CountResumes(text, 0, lastColumnPos, start, 0, tab);
        lastColumnValue := CountColumn(text, Some(start), tab, lastColumnPos, lastColumnValue, c => false);
        lastColumnPos := start;
      } else if start < lastColumnPos {
        ColumnStrict(text, start, lastColumnPos, tab);
      }
      col := lastColumnValue;
      if lineStart != 0 {
        var hidden := CountColumn(text, Some(lineStart), tab, 0, 0, c => false);
        col := col - hidden;
      }
    }
  }

  /** A token that starts before the one last asked for gets a wrong column: one character on, asked, and back. */
  method EarlierToken() returns (s: Stream, col: int)
    ensures fresh(s) && s.Valid() && s.start == 0 && s.lineStart == 0
    ensures col != Column(s.text, s.start, s.tab) - Column(s.text, s.lineStart, s.tab)
  {
    s := new Stream("ab", 8);
    var c := s.Next();
    s.StartToken();
    col := s.TokenColumn();
    s.BackUp(1);
    s.StartToken();
    col := s.TokenColumn();
  }
}
