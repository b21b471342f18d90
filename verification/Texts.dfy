/**
 Documents as plain sequences of lines, and edits as splices of the joined text.

 A non-empty sequence of lines is a word over "characters and line breaks": `Cat` is the
 concatenation of two such words and `Join` writes one out with a separator.  `Splice` is the
 line-level effect of an edit; the lemmas tie it to concatenation and to the joined string.
 */
module Texts {
  import opened Positions

  /** An edit: replace the text between `from` and `to` by `text`. */
  datatype Change = Change(from: Pos, to: Pos, text: seq<string>)

  predicate ValidPos(d: seq<string>, p: Pos) {
    0 <= p.line < |d| && 0 <= p.ch <= |d[p.line]|
  }

  predicate ValidChange(d: seq<string>, c: Change) {
    ValidPos(d, c.from) && ValidPos(d, c.to) && Cmp(c.from, c.to) <= 0 && |c.text| > 0
  }

  function Last<T>(s: seq<T>): T
    requires |s| > 0
  {
    s[|s| - 1]
  }

  /** The lines of `text` with `head` glued before the first and `tail` after the last. */
  function Glue(head: string, text: seq<string>, tail: string): seq<string>
    requires |text| > 0
  {
    if |text| == 1 then [head + text[0] + tail]
    else [head + text[0]] + text[1..|text| - 1] + [Last(text) + tail]
  }

  /** The lines of the document after the edit. */
  function Splice(d: seq<string>, c: Change): seq<string>
    requires ValidChange(d, c)
  {
    d[..c.from.line] + Glue(d[c.from.line][..c.from.ch], c.text, d[c.to.line][c.to.ch..]) + d[c.to.line + 1..]
  }

  /** The lines between two positions. */
  function Between(d: seq<string>, from: Pos, to: Pos): seq<string>
    requires ValidPos(d, from) && ValidPos(d, to) && Cmp(from, to) <= 0
  {
    if from.line == to.line then [d[from.line][from.ch..to.ch]]
    else [d[from.line][from.ch..]] + d[from.line + 1..to.line] + [d[to.line][..to.ch]]
  }

  /** Concatenation of two texts: the last line of `a` continues with the first line of `b`. */
  function Cat(a: seq<string>, b: seq<string>): seq<string>
    requires |a| > 0 && |b| > 0
  {
    a[..|a| - 1] + [Last(a) + b[0]] + b[1..]
  }

  /** The text before a position. */
  function Before(d: seq<string>, p: Pos): seq<string>
    requires ValidPos(d, p)
  {
    d[..p.line] + [d[p.line][..p.ch]]
  }

  /** The text after a position. */
  function After(d: seq<string>, p: Pos): seq<string>
    requires ValidPos(d, p)
  {
    [d[p.line][p.ch..]] + d[p.line + 1..]
  }

  /** The position just past the end of a text that starts at line 0, column 0. */
  function EndPos(a: seq<string>): Pos
    requires |a| > 0
  {
    Pos(|a| - 1, |Last(a)|)
  }

  /** The whole text as one string. */
  function Join(d: seq<string>, sep: string): string
    requires |d| > 0
  {
    if |d| == 1 then d[0] else d[0] + sep + Join(d[1..], sep)
  }

  /** Number of characters of the joined text that precede a position. */
  function Offset(d: seq<string>, sep: string, p: Pos): nat
    requires ValidPos(d, p)
    decreases p.line
  {
    if p.line == 0 then p.ch else |d[0]| + |sep| + Offset(d[1..], sep, Pos(p.line - 1, p.ch))
  }

  // ----- the algebra of texts

  lemma CatAssoc(a: seq<string>, b: seq<string>, c: seq<string>)
    requires |a| > 0 && |b| > 0 && |c| > 0
    ensures Cat(Cat(a, b), c) == Cat(a, Cat(b, c))
  {
    if |b| == 1 {
      assert Cat(Cat(a, b), c) == a[..|a| - 1] + [Last(a) + b[0] + c[0]] + c[1..];
      assert (Last(a) + b[0]) + c[0] == Last(a) + (b[0] + c[0]);
    } else {
      assert Cat(Cat(a, b), c) == a[..|a| - 1] + [Last(a) + b[0]] + b[1..|b| - 1] + [Last(b) + c[0]] + c[1..];
    }
  }

  lemma SplitAt(d: seq<string>, p: Pos)
    requires ValidPos(d, p)
    ensures d == Cat(Before(d, p), After(d, p))
    ensures EndPos(Before(d, p)) == p
  {
    assert d[p.line] == d[p.line][..p.ch] + d[p.line][p.ch..];
  }

  /** Splitting a concatenation at its seam gives back the two parts. */
  lemma SplitCat(a: seq<string>, b: seq<string>)
    requires |a| > 0 && |b| > 0
    ensures ValidPos(Cat(a, b), EndPos(a))
    ensures Before(Cat(a, b), EndPos(a)) == a
    ensures After(Cat(a, b), EndPos(a)) == b
    ensures EndPos(Cat(a, b)) == Plus(EndPos(a), EndPos(b))
  {
    var d, p := Cat(a, b), EndPos(a);
    assert d[p.line] == Last(a) + b[0];
    assert d[p.line][..p.ch] == Last(a);
    assert d[p.line][p.ch..] == b[0];
  }

  /** `Between` is the part of the document that the two positions cut out. */
  lemma BetweenCat(d: seq<string>, from: Pos, to: Pos)
    requires ValidPos(d, from) && ValidPos(d, to) && Cmp(from, to) <= 0
    ensures |Between(d, from, to)| > 0
    ensures Cat(Before(d, from), Between(d, from, to)) == Before(d, to)
    ensures d == Cat(Before(d, from), Cat(Between(d, from, to), After(d, to)))
  {
    var m := Between(d, from, to);
    if from.line == to.line {
      assert d[from.line][..from.ch] + d[from.line][from.ch..to.ch] == d[from.line][..to.ch];
    } else {
      assert d[from.line][..from.ch] + d[from.line][from.ch..] == d[from.line];
    }
    assert Cat(Before(d, from), m) == Before(d, to);
    CatAssoc(Before(d, from), m, After(d, to));
    SplitAt(d, to);
  }

  /** Conversely, the middle of a three-part concatenation is what lies between its seams. */
  lemma BetweenOfCat(a: seq<string>, m: seq<string>, b: seq<string>)
    requires |a| > 0 && |m| > 0 && |b| > 0
    ensures var d := Cat(a, Cat(m, b));
            && ValidPos(d, EndPos(a)) && ValidPos(d, EndPos(Cat(a, m)))
            && Cmp(EndPos(a), EndPos(Cat(a, m))) <= 0
            && Between(d, EndPos(a), EndPos(Cat(a, m))) == m
            && Before(d, EndPos(a)) == a && After(d, EndPos(Cat(a, m))) == b
  {
    CatAssoc(a, m, b);
    SplitCat(a, Cat(m, b));
    SplitCat(Cat(a, m), b);
    var d := Cat(a, Cat(m, b));
    var x := Between(d, EndPos(a), EndPos(Cat(a, m)));
    BetweenCat(d, EndPos(a), EndPos(Cat(a, m)));
    CatCancel(a, x, m);
  }

  lemma CatCancel(a: seq<string>, x: seq<string>, y: seq<string>)
    requires |a| > 0 && |x| > 0 && |y| > 0 && Cat(a, x) == Cat(a, y)
    ensures x == y
  {
    SplitCat(a, x);
    SplitCat(a, y);
  }

  /** An edit keeps the text before and after it and puts its own text in the middle. */
  lemma SpliceCat(d: seq<string>, c: Change)
    requires ValidChange(d, c)
    ensures Splice(d, c) == Cat(Before(d, c.from), Cat(c.text, After(d, c.to)))
  {
    var h, t := d[c.from.line][..c.from.ch], d[c.to.line][c.to.ch..];
    if |c.text| == 1 {
      assert h + (c.text[0] + t) == h + c.text[0] + t;
    }
  }

  // ----- the joined string

  lemma {:induction false} JoinCat(a: seq<string>, b: seq<string>, sep: string)
    requires |a| > 0 && |b| > 0
    ensures Join(Cat(a, b), sep) == Join(a, sep) + Join(b, sep)
  {
    if |a| == 1 {
      if |b| > 1 {
        assert Cat(a, b)[1..] == b[1..];
        assert a[0] + (b[0] + sep + Join(b[1..], sep)) == a[0] + b[0] + sep + Join(b[1..], sep);
      } else {
        assert Cat(a, b) == [a[0] + b[0]];
      }
    } else {
      JoinCat(a[1..], b, sep);
      assert Cat(a, b)[1..] == Cat(a[1..], b);
      assert a[0] + sep + (Join(a[1..], sep) + Join(b, sep)) == (a[0] + sep + Join(a[1..], sep)) + Join(b, sep);
    }
  }

  lemma {:induction false} OffsetBefore(d: seq<string>, sep: string, p: Pos)
    requires ValidPos(d, p)
    ensures Offset(d, sep, p) == |Join(Before(d, p), sep)|
    decreases p.line
  {
    if p.line > 0 {
      OffsetBefore(d[1..], sep, Pos(p.line - 1, p.ch));
      assert Before(d, p)[1..] == Before(d[1..], Pos(p.line - 1, p.ch));
    } else {
      assert Before(d, p) == [d[0][..p.ch]];
    }
  }

  /** A position cuts the joined string at its offset. */
  lemma JoinAtOffset(d: seq<string>, sep: string, p: Pos)
    requires ValidPos(d, p)
    ensures Offset(d, sep, p) <= |Join(d, sep)|
    ensures Join(Before(d, p), sep) == Join(d, sep)[..Offset(d, sep, p)]
    ensures Join(After(d, p), sep) == Join(d, sep)[Offset(d, sep, p)..]
  {
    SplitAt(d, p);
    JoinCat(Before(d, p), After(d, p), sep);
    OffsetBefore(d, sep, p);
  }

  /** The effect of an edit on the joined text is a string splice at the offsets of its ends. */
  lemma SpliceIsStringSplice(d: seq<string>, c: Change, sep: string)
    requires ValidChange(d, c)
    ensures Offset(d, sep, c.from) <= Offset(d, sep, c.to) <= |Join(d, sep)|
    ensures |Splice(d, c)| > 0
    ensures Join(Splice(d, c), sep)
         == Join(d, sep)[..Offset(d, sep, c.from)] + Join(c.text, sep) + Join(d, sep)[Offset(d, sep, c.to)..]
    ensures Join(Between(d, c.from, c.to), sep) == Join(d, sep)[Offset(d, sep, c.from)..Offset(d, sep, c.to)]
  {
    SpliceCat(d, c);
    var a, m, b := Before(d, c.from), Between(d, c.from, c.to), After(d, c.to);
    JoinCat(a, Cat(c.text, b), sep);
    JoinCat(c.text, b, sep);
    JoinAtOffset(d, sep, c.from);
    JoinAtOffset(d, sep, c.to);
    BetweenCat(d, c.from, c.to);
    JoinCat(a, m, sep);
  }
}
