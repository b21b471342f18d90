/** Lists without repetition, and putting elements into lists and taking them out. */
module Lists {

  ghost predicate Apart<T>(s: seq<T>, i: int, j: int) {
    0 <= i < j < |s| ==> s[i] != s[j]
  }

  ghost predicate NoDup<T>(s: seq<T>) {
    forall i, j {:trigger Apart(s, i, j)} :: Apart(s, i, j)
  }

  lemma NoDupAt<T>(s: seq<T>, i: nat)
    requires NoDup(s) && i < |s|
    ensures s[i] !in s[..i] && s[i] !in s[i + 1..]
  {
    forall j | 0 <= j < |s| && j != i ensures s[j] != s[i] {
      assert Apart(s, j, i) && Apart(s, i, j);
    }
  }

  lemma NoDupSplit<T>(s: seq<T>, k: nat)
    requires NoDup(s) && k <= |s|
    ensures forall i, j :: 0 <= i < k <= j < |s| ==> s[i] != s[j]
  {
    forall i, j | 0 <= i < k <= j < |s| ensures s[i] != s[j] {
      assert Apart(s, i, j);
    }
  }

  lemma NoDupCut<T>(s: seq<T>, k: nat)
    requires NoDup(s) && k <= |s|
    ensures NoDup(s[..k]) && NoDup(s[k..])
    ensures forall x :: x in s[..k] ==> x in s && x !in s[k..]
    ensures forall x :: x in s[k..] ==> x in s
  {
    NoDupPart(s, 0, k);
    NoDupPart(s, k, |s|);
    assert s[0..k] == s[..k] && s[k..|s|] == s[k..];
    forall i, j | 0 <= i < k <= j < |s| ensures s[i] != s[j] {
      assert Apart(s, i, j);
    }
  }

  lemma NoDupAppend<T>(a: seq<T>, b: seq<T>)
    requires NoDup(a) && NoDup(b) && forall x :: x in b ==> x !in a
    ensures NoDup(a + b)
  {
    forall i, j ensures Apart(a + b, i, j) {
      assert Apart(a, i, j) && Apart(b, i - |a|, j - |a|);
      if 0 <= i < |a| <= j < |a| + |b| {
        assert (a + b)[i] in a && (a + b)[j] in b;
      }
    }
  }

  lemma NoDupSnoc<T>(s: seq<T>, x: T)
    requires NoDup(s) && x !in s
    ensures NoDup(s + [x])
  {
    forall i, j ensures Apart(s + [x], i, j) {
      assert Apart(s, i, j);
    }
  }

  lemma MoveOver<T>(a: seq<T>, b: seq<T>, k: nat)
    requires k <= |b|
    ensures (a + b[..k]) + b[k..] == a + b
  {
  }

  lemma InsertAfter<T>(a: seq<T>, m: seq<T>, b: seq<T>, x: T)
    ensures var s, k := a + m + b, |a| + |m|; s[..k] + [x] + s[k..] == a + (m + [x]) + b
  {
  }

  lemma NoDupPart<T>(s: seq<T>, i: nat, j: nat)
    requires NoDup(s) && i <= j <= |s|
    ensures NoDup(s[i..j])
  {
    forall a, b ensures Apart(s[i..j], a, b) {
      assert Apart(s, i + a, i + b);
    }
  }

  /** The lists `a`, `m` and `b` one after the other. */
  ghost function Joined<T>(a: seq<T>, m: seq<T>, b: seq<T>): seq<T> {
    if a == [] then m + b else [a[0]] + Joined(a[1..], m, b)
  }

  lemma {:induction false} JoinedIs<T>(a: seq<T>, m: seq<T>, b: seq<T>)
    ensures Joined(a, m, b) == a + m + b
  {
    if a != [] {
      JoinedIs(a[1..], m, b);
    }
  }

  lemma JoinedCut<T>(s: seq<T>, n: nat)
    requires n <= |s|
    ensures Joined(s[..n], [], s[n..]) == s
  {
    JoinedIs(s[..n], [], s[n..]);
  }

  lemma InsertNoDup<T>(a: seq<T>, m: seq<T>, b: seq<T>)
    requires NoDup(a + b) && NoDup(m) && forall x :: x in m ==> x !in a && x !in b
    ensures NoDup(a + m + b)
  {
    var s := a + m + b;
    forall i, j | 0 <= i < j < |s| ensures s[i] != s[j] {
      assert Apart(a + b, i, j) && Apart(a + b, i, j - |m|) && Apart(a + b, i - |m|, j - |m|);
      assert |a| <= i ==> Apart(m, i - |a|, j - |a|);
      if j < |a| {
        assert s[i] == (a + b)[i] && s[j] == (a + b)[j];
      } else if |a| + |m| <= j {
        assert s[j] == (a + b)[j - |m|];
        assert i < |a| ==> s[i] == (a + b)[i];
        assert |a| <= i < |a| + |m| ==> s[i] in m && s[j] in b;
        assert |a| + |m| <= i ==> s[i] == (a + b)[i - |m|];
      } else {
        assert s[j] in m;
        assert i < |a| ==> s[i] in a;
        assert |a| <= i ==> s[i] == m[i - |a|] && s[j] == m[j - |a|];
      }
    }
  }

  lemma InsertMember<T>(s: seq<T>, i: nat, m: seq<T>, x: T)
    requires i <= |s|
    ensures x in s[..i] + m + s[i..] <==> x in s || x in m
  {
    assert s == s[..i] + s[i..];
  }

  /** `ls` inserted into `s` before position `at`. */
  ghost function Spliced<T>(s: seq<T>, at: nat, ls: seq<T>): seq<T>
    requires at <= |s|
  {
    s[..at] + ls + s[at..]
  }

  lemma NoDupSpliced<T>(s: seq<T>, at: nat, ls: seq<T>)
    requires at <= |s| && NoDup(s) && NoDup(ls) && forall x :: x in ls ==> x !in s
    ensures NoDup(Spliced(s, at, ls))
    ensures forall x :: x in Spliced(s, at, ls) ==> x in s || x in ls
  {
    assert s == s[..at] + s[at..];
    InsertNoDup(s[..at], ls, s[at..]);
  }

  lemma SplicedInside<T>(a: seq<T>, m: seq<T>, b: seq<T>, e: nat, ls: seq<T>)
    requires e <= |m|
    ensures Spliced(a + m + b, |a| + e, ls) == a + Spliced(m, e, ls) + b
  {
    assert (a + m + b)[..|a| + e] == a + m[..e];
    assert (a + m + b)[|a| + e..] == m[e..] + b;
  }

  /** `s` without the `n` elements from position `at` on. */
  ghost function Without<T>(s: seq<T>, at: nat, n: nat): seq<T>
    requires at + n <= |s|
  {
    s[..at] + s[at + n..]
  }

  lemma WithoutNoDup<T>(s: seq<T>, r: nat)
    requires NoDup(s) && r < |s|
    ensures NoDup(s[..r] + s[r + 1..])
    ensures forall x :: x in s[..r] + s[r + 1..] <==> x in s && x != s[r]
  {
    var t := s[..r] + s[r + 1..];
    forall i, j ensures Apart(t, i, j) {
      assert Apart(s, i, j) && Apart(s, i, j + 1) && Apart(s, i + 1, j + 1);
    }
    NoDupAt(s, r);
    assert s == s[..r] + [s[r]] + s[r + 1..];
  }

  lemma NoDupWithout<T>(s: seq<T>, at: nat, n: nat)
    requires at + n <= |s| && NoDup(s)
    ensures NoDup(Without(s, at, n))
    ensures forall x :: x in Without(s, at, n) ==> x in s && x !in s[at..at + n]
  {
    var t := Without(s, at, n);
    forall i, j ensures Apart(t, i, j) {
      assert Apart(s, i, j) && Apart(s, i, j + n) && Apart(s, i + n, j + n);
    }
    forall i, j | 0 <= i < |t| && at <= j < at + n ensures t[i] != s[j] {
      assert Apart(s, i, j) && Apart(s, j, i + n);
    }
  }

  lemma WithoutInside<T>(a: seq<T>, m: seq<T>, b: seq<T>, e: nat, n: nat)
    requires e + n <= |m|
    ensures Without(a + m + b, |a| + e, n) == a + Without(m, e, n) + b
  {
    assert (a + m + b)[..|a| + e] == a + m[..e];
    assert (a + m + b)[|a| + e + n..] == m[e + n..] + b;
  }

  /** Removing `k` of `n` elements and then the others from the same place. */
  lemma WithoutTwice<T>(s: seq<T>, at: nat, k: nat, n: nat)
    requires k <= n && at + n <= |s|
    ensures Without(Without(s, at, k), at, n - k) == Without(s, at, n)
  {
  }

  /** The place of an element in a list (indexOf), which must be there. */
  method IndexOf<T(==)>(s: seq<T>, x: T) returns (r: nat)
    requires x in s
    ensures r < |s| && s[r] == x && x !in s[..r]
  {
    r := 0;
    while s[r] != x
      invariant r < |s| && x !in s[..r]
      decreases |s| - r
    {
      r := r + 1;
    }
  }

  /** An element of a list without repetition has one place. */
  lemma OnlyPlace<T>(s: seq<T>, x: T, n: nat)
    requires NoDup(s) && n < |s| && s[n] == x
    ensures forall i :: 0 <= i < |s| && s[i] == x ==> i == n
  {
    forall i | 0 <= i < |s| && i != n ensures s[i] != x {
      assert Apart(s, i, n) && Apart(s, n, i);
    }
  }
}
