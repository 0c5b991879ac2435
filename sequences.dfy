/** Small facts about sequences shared by the other modules. */
module Sequences {

  predicate NoDuplicates<T(==)>(xs: seq<T>) {
    forall i, j :: 0 <= i < j < |xs| ==> xs[i] != xs[j]
  }

  /** Two duplicate-free sequences with nothing in common join without duplicates. */
  lemma NoDuplicatesConcat<T>(a: seq<T>, b: seq<T>)
    requires NoDuplicates(a) && NoDuplicates(b)
    requires forall x :: x in a ==> x !in b
    ensures NoDuplicates(a + b)
  {
    var c := a + b;
    forall i, j | 0 <= i < j < |c| ensures c[i] != c[j] {
      if i < |a| && j >= |a| {
        assert c[i] in a && c[j] == b[j - |a|];
      }
    }
  }

  /** Position of the first occurrence of `x`. */
  function IndexOf<T(==)>(xs: seq<T>, x: T): (i: nat)
    requires x in xs
    ensures i < |xs| && xs[i] == x && x !in xs[..i]
  {
    if xs[0] == x then 0
    else
      assert xs[1..][IndexOf(xs[1..], x)] == x;
      assert xs[..IndexOf(xs[1..], x) + 1] == [xs[0]] + xs[1..][..IndexOf(xs[1..], x)];
      1 + IndexOf(xs[1..], x)
  }

  /** In a duplicate-free sequence the first occurrence is the only one. */
  lemma IndexOfUnique<T>(xs: seq<T>, i: nat)
    requires NoDuplicates(xs) && i < |xs|
    ensures IndexOf(xs, xs[i]) == i
  {
  }

  /** `xs` without its first occurrence of `x` (List.Remove). */
  function RemoveFirst<T(==)>(xs: seq<T>, x: T): (r: seq<T>)
    ensures x in xs ==> r == xs[..IndexOf(xs, x)] + xs[IndexOf(xs, x) + 1..]
    ensures x !in xs ==> r == xs
  {
    if xs == [] then []
    else if xs[0] == x then xs[1..]
    else
      var r := [xs[0]] + RemoveFirst(xs[1..], x);
      assert x in xs ==> xs[..IndexOf(xs, x)] == [xs[0]] + xs[1..][..IndexOf(xs[1..], x)];
      r
  }

  /** Removing from a duplicate-free sequence removes exactly that element. */
  lemma RemoveFirstDistinct<T>(xs: seq<T>, x: T)
    ensures NoDuplicates(xs) ==> NoDuplicates(RemoveFirst(xs, x))
    ensures NoDuplicates(xs) ==> forall y :: y in RemoveFirst(xs, x) <==> y in xs && y != x
  {
    if x in xs && NoDuplicates(xs) {
      var i := IndexOf(xs, x);
      SpliceMembers(xs, i);
      SpliceDistinct(xs, i);
    }
  }

  lemma SpliceMembers<T>(xs: seq<T>, i: nat)
    requires NoDuplicates(xs) && i < |xs|
    ensures forall y :: y in xs[..i] + xs[i + 1..] <==> y in xs && y != xs[i]
  {
    assert xs == xs[..i] + [xs[i]] + xs[i + 1..];
    assert forall j :: i < j < |xs| ==> xs[i + 1..][j - i - 1] == xs[j];
  }

  lemma SpliceDistinct<T>(xs: seq<T>, i: nat)
    requires NoDuplicates(xs) && i < |xs|
    ensures NoDuplicates(xs[..i] + xs[i + 1..])
  {
    var r := xs[..i] + xs[i + 1..];
    forall a, b | 0 <= a < b < |r| ensures r[a] != r[b] {
      var a' := if a < i then a else a + 1;
      var b' := if b < i then b else b + 1;
      assert r[a] == xs[a'] && r[b] == xs[b'];
    }
  }

  /** A duplicate-free sequence all of whose elements are `x`, `x` among them, is [x]. */
  lemma OnlyElement<T>(xs: seq<T>, x: T)
    requires NoDuplicates(xs) && x in xs && forall y :: y in xs ==> y == x
    ensures xs == [x]
  {
    assert xs[0] in xs;
    if |xs| >= 2 {
      ElementIn(xs, 1);
      assert false;
    }
  }

  lemma ElementIn<T>(xs: seq<T>, i: int)
    ensures 0 <= i < |xs| ==> xs[i] in xs
  {
  }

  /** `xs` after List.Remove of each element of `rs` in turn. */
  function RemoveAll<T(==)>(xs: seq<T>, rs: seq<T>): seq<T> {
    if rs == [] then xs else RemoveFirst(RemoveAll(xs, rs[..|rs| - 1]), rs[|rs| - 1])
  }

  /** From a duplicate-free sequence RemoveAll takes out exactly the elements of `rs`. */
  lemma {:induction false} RemoveAllMembers<T>(xs: seq<T>, rs: seq<T>)
    requires NoDuplicates(xs)
    ensures NoDuplicates(RemoveAll(xs, rs))
    ensures forall y :: y in RemoveAll(xs, rs) <==> y in xs && y !in rs
  {
    if rs != [] {
      var init, last := rs[..|rs| - 1], rs[|rs| - 1];
      var before := RemoveAll(xs, init);
      assert RemoveAll(xs, rs) == RemoveFirst(before, last);
      RemoveAllMembers(xs, init);
      RemoveFirstDistinct(before, last);
      LastSplit(rs);
    }
  }

  /** An element of a non-empty sequence is in its front or is its last element. */
  lemma LastSplit<T>(rs: seq<T>)
    requires rs != []
    ensures forall y :: y in rs <==> y in rs[..|rs| - 1] || y == rs[|rs| - 1]
  {
    assert rs == rs[..|rs| - 1] + [rs[|rs| - 1]];
  }

  /** The front and the last element of a concatenation whose second part is not empty. */
  lemma ConcatLast<T>(a: seq<T>, b: seq<T>)
    requires b != []
    ensures (a + b)[..|a + b| - 1] == a + b[..|b| - 1]
    ensures (a + b)[|a + b| - 1] == b[|b| - 1]
  {
  }

  /** Two non-empty sequences with the same front and the same last element are equal. */
  lemma SameFrontSameLast<T>(a: seq<T>, b: seq<T>)
    requires |a| == |b| > 0 && a[..|a| - 1] == b[..|b| - 1] && a[|a| - 1] == b[|b| - 1]
    ensures a == b
  {
    assert a == a[..|a| - 1] + [a[|a| - 1]];
    assert b == b[..|b| - 1] + [b[|b| - 1]];
  }

  /** Concatenation is associative. */
  lemma AppendAssociative<T>(a: seq<T>, b: seq<T>, c: seq<T>)
    ensures (a + b) + c == a + (b + c)
  {
  }

  /** Removing an element that is there makes a duplicate-free sequence shorter. */
  lemma {:induction false} RemoveAllShorter<T>(xs: seq<T>, rs: seq<T>, y: T)
    requires NoDuplicates(xs) && y in rs && y in xs
    ensures |RemoveAll(xs, rs)| < |xs|
  {
    var init := rs[..|rs| - 1];
    var last := rs[|rs| - 1];
    RemoveAllMembers(xs, init);
    RemoveAllNotLonger(xs, init);
    if last in RemoveAll(xs, init) {
      var before := RemoveAll(xs, init);
      var i := IndexOf(before, last);
      assert |RemoveFirst(before, last)| == |before| - 1;
    } else {
      if y == last {
        assert last in init;
        RemoveAllShorter(xs, init, last);
      } else {
        assert y in init;
        RemoveAllShorter(xs, init, y);
      }
      assert |RemoveFirst(RemoveAll(xs, init), last)| <= |RemoveAll(xs, init)|;
    }
  }

  lemma {:induction false} RemoveAllNotLonger<T>(xs: seq<T>, rs: seq<T>)
    ensures |RemoveAll(xs, rs)| <= |xs|
  {
    if rs != [] {
      RemoveAllNotLonger(xs, rs[..|rs| - 1]);
    }
  }
}
