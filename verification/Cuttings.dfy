/** All ways to cut a string into pieces, as the search box of a select field lists them. */
module Cuttings {

  function Concat(pieces: seq<string>): string {
    if pieces == [] then "" else pieces[0] + Concat(pieces[1..])
  }

  /** A cutting: non-empty pieces that make up the string. */
  ghost predicate IsCutting(pieces: seq<string>, s: string) {
    Concat(pieces) == s && forall i :: 0 <= i < |pieces| ==> pieces[i] != ""
  }

  function Power2(n: nat): nat {
    if n == 0 then 1 else 2 * Power2(n - 1)
  }

  /** A cutting of the rest with the first character: joined to the first piece, and as a piece of its own. */
  function Extended(c: char, cutting: seq<string>): seq<seq<string>> {
    [if cutting == [] then [[c]] else [[c] + cutting[0]] + cutting[1..], [[c]] + cutting]
  }

  function ExtendedAll(c: char, cuttings: seq<seq<string>>): seq<seq<string>> {
    if cuttings == [] then []
    else ExtendedAll(c, cuttings[..|cuttings| - 1]) + Extended(c, cuttings[|cuttings| - 1])
  }

  /** All cuttings of a string. */
  function AllCuttings(s: string): seq<seq<string>>
    requires s != ""
  {
    if |s| == 1 then [[s]] else ExtendedAll(s[0], AllCuttings(s[1..]))
  }

  /** allSubstringCuttings: the loop appends to a list of its own. */
  method Cut(s: string) returns (cuttings: seq<seq<string>>)
    requires s != ""
    ensures cuttings == AllCuttings(s)
  {
    if |s| == 1 { return [[s]]; }
    cuttings := [];
    var rest := Cut(s[1..]);
    var i := 0;
    while i < |rest|
      invariant 0 <= i <= |rest| && cuttings == ExtendedAll(s[0], rest[..i])
      invariant rest == AllCuttings(s[1..])
    {
      CuttingAt(s[1..], i);
      var joined := rest[i][0 := [s[0]] + rest[i][0]];
      assert joined == [[s[0]] + rest[i][0]] + rest[i][1..];
      assert rest[..i + 1][..i] == rest[..i];
      cuttings := cuttings + [joined];
      cuttings := cuttings + [[[s[0]]] + rest[i]];
      i := i + 1;
    }
    assert rest[..i] == rest;
  }

  // ----- soundness

  lemma {:induction false} ExtendedAllAt(c: char, cuttings: seq<seq<string>>, i: nat)
    requires i < 2 * |cuttings|
    ensures |ExtendedAll(c, cuttings)| == 2 * |cuttings|
    ensures ExtendedAll(c, cuttings)[i] == Extended(c, cuttings[i / 2])[i % 2]
  {
    var n := |cuttings| - 1;
    if n > 0 {
      ExtendedAllAt(c, cuttings[..n], if i < 2 * n then i else 0);
    } else {
      assert ExtendedAll(c, cuttings[..0]) == [];
    }
  }

  lemma {:induction false} ExtendedCount(c: char, cuttings: seq<seq<string>>)
    ensures |ExtendedAll(c, cuttings)| == 2 * |cuttings|
  {
    if cuttings != [] {
      ExtendedAllAt(c, cuttings, 0);
    }
  }

  /** A string of length n has 2 to the power of n - 1 cuttings. */
  lemma {:induction false} HowMany(s: string)
    requires s != ""
    ensures |AllCuttings(s)| == Power2(|s| - 1)
  {
    if |s| > 1 {
      HowMany(s[1..]);
      ExtendedCount(s[0], AllCuttings(s[1..]));
    }
  }

  /** Every list that is produced is a cutting. */
  lemma {:induction false} CuttingAt(s: string, i: nat)
    requires s != "" && i < |AllCuttings(s)|
    ensures IsCutting(AllCuttings(s)[i], s) && AllCuttings(s)[i] != []
  {
    if |s| == 1 {
      assert [s][1..] == [];
    } else {
      var rest := AllCuttings(s[1..]);
      ExtendedCount(s[0], rest);
      ExtendedAllAt(s[0], rest, i);
      CuttingAt(s[1..], i / 2);
      ExtendedIsCutting(s, rest[i / 2]);
    }
  }

  lemma ExtendedIsCutting(s: string, cutting: seq<string>)
    requires |s| > 1 && cutting != [] && IsCutting(cutting, s[1..])
    ensures forall k :: 0 <= k < 2 ==> IsCutting(Extended(s[0], cutting)[k], s)
  {
    var joined, apart := [[s[0]] + cutting[0]] + cutting[1..], [[s[0]]] + cutting;
    assert joined[1..] == cutting[1..] && apart[1..] == cutting;
    assert [s[0]] + cutting[0] + Concat(cutting[1..]) == [s[0]] + (cutting[0] + Concat(cutting[1..]));
    assert s == [s[0]] + s[1..];
  }

  // ----- completeness and distinctness

  /** Which cutting of the rest, and which way to extend it, a cutting comes from. */
  lemma ShortenCutting(s: string, pieces: seq<string>) returns (rest: seq<string>, k: nat)
    requires |s| > 1 && IsCutting(pieces, s)
    ensures k < 2 && rest != [] && IsCutting(rest, s[1..]) && Extended(s[0], rest)[k] == pieces
  {
    var p := pieces[0];
    assert s == p + Concat(pieces[1..]) && p[0] == s[0];
    if |p| == 1 {
      rest, k := pieces[1..], 1;
      assert p == [s[0]] && Concat(rest) == s[1..];
      assert rest == [] ==> Concat(rest) == "";
      assert pieces == [p] + rest;
    } else {
      rest, k := [p[1..]] + pieces[1..], 0;
      assert rest[1..] == pieces[1..];
      assert p[1..] + Concat(pieces[1..]) == s[1..];
      assert [s[0]] + p[1..] == p && pieces == [p] + pieces[1..];
    }
  }

  /** A string has room for as many pieces as it has characters. */
  lemma {:induction false} PiecesFit(pieces: seq<string>)
    requires forall i :: 0 <= i < |pieces| ==> pieces[i] != ""
    ensures |pieces| <= |Concat(pieces)|
  {
    if pieces != [] {
      PiecesFit(pieces[1..]);
    }
  }

  /** Every cutting of the string is produced. */
  lemma {:induction false} AllAppear(s: string, pieces: seq<string>) returns (i: nat)
    requires s != "" && IsCutting(pieces, s)
    ensures i < |AllCuttings(s)| && AllCuttings(s)[i] == pieces
  {
    if |s| == 1 {
      i := 0;
      PiecesFit(pieces);
      assert pieces != [] && pieces[1..] == [];
      assert Concat(pieces[1..]) == "" && pieces[0] + "" == pieces[0];
      assert pieces == [pieces[0]];
    } else {
      var rest, k := ShortenCutting(s, pieces);
      var j := AllAppear(s[1..], rest);
      i := 2 * j + k;
      ExtendedCount(s[0], AllCuttings(s[1..]));
      ExtendedAllAt(s[0], AllCuttings(s[1..]), i);
    }
  }

  /** No cutting is produced twice. */
  lemma {:induction false} NoneTwice(s: string, i: nat, j: nat)
    requires s != "" && i < j < |AllCuttings(s)|
    ensures AllCuttings(s)[i] != AllCuttings(s)[j]
  {
    if |s| > 1 {
      var c, rest := s[0], AllCuttings(s[1..]);
      ExtendedCount(c, rest);
      ExtendedAllAt(c, rest, i);
      ExtendedAllAt(c, rest, j);
      CuttingAt(s[1..], i / 2);
      CuttingAt(s[1..], j / 2);
      if i / 2 < j / 2 {
        NoneTwice(s[1..], i / 2, j / 2);
      }
      ExtendedDiffers(c, rest[i / 2], i % 2, rest[j / 2], j % 2);
    }
  }

  lemma ExtendedDiffers(c: char, a: seq<string>, k: nat, b: seq<string>, l: nat)
    requires k < 2 && l < 2 && a != [] && b != [] && a[0] != "" && b[0] != "" && (a != b || k != l)
    ensures Extended(c, a)[k] != Extended(c, b)[l]
  {
    ExtendedBack(c, a, k);
    ExtendedBack(c, b, l);
  }

  /** What was extended, and how, can be read off the result. */
  lemma ExtendedBack(c: char, a: seq<string>, k: nat)
    requires k < 2 && a != [] && a[0] != ""
    ensures var x := Extended(c, a)[k];
      && x != [] && (k == 1 <==> |x[0]| == 1)
      && a == if k == 1 then x[1..] else [x[0][1..]] + x[1..]
  {
    var x := Extended(c, a)[k];
    assert k == 0 ==> x[0][1..] == a[0] && x[1..] == a[1..];
  }
}
