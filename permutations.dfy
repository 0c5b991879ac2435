/** The permutation generator of the canonicaliser (Permute and RotateRight): it
    works in place on one list, rotating its first `count` elements right after each
    round of permutations of the first `count - 1`, and hands out the list itself
    at each step. Here the in-place algorithm runs on an array and returns the
    successive states it hands out; `Permutations` is the enumeration it performs. */
module Permutations {
  import opened Sequences

  /** The list after RotateRight(list, count): element count-1 moved to the front. */
  function RotateRight<T>(s: seq<T>, count: nat): (r: seq<T>)
    requires 1 <= count <= |s|
  {
    [s[count - 1]] + s[..count - 1] + s[count..]
  }

  /** Rotating only reorders the first `count` elements. */
  lemma RotateRightPermutes<T>(s: seq<T>, count: nat)
    requires 1 <= count <= |s|
    ensures |RotateRight(s, count)| == |s|
    ensures RotateRight(s, count)[count..] == s[count..]
    ensures multiset(RotateRight(s, count)[..count]) == multiset(s[..count])
  {
    var r := RotateRight(s, count);
    assert r[..count] == [s[count - 1]] + s[..count - 1];
    assert s[..count] == s[..count - 1] + [s[count - 1]];
  }

  /** RotateRight done in place: take out element count-1 and insert it at 0. */
  method RotateRightInPlace<T>(a: array<T>, count: nat)
    requires 1 <= count <= a.Length
    modifies a
    ensures a[..] == RotateRight(old(a[..]), count)
  {
    var tmp := a[count - 1];
    var i := count - 1;
    while i > 0
      invariant 0 <= i <= count - 1
      invariant forall k :: 0 <= k <= i ==> a[k] == old(a[k])
      invariant forall k :: i < k < count ==> a[k] == old(a[k - 1])
      invariant forall k :: count <= k < a.Length ==> a[k] == old(a[k])
    {
      a[i] := a[i - 1];
      i := i - 1;
    }
    a[0] := tmp;
  }

  /** The lists Permute(list, count) hands out, in order. */
  function Permutations<T>(s: seq<T>, count: nat): seq<seq<T>>
    requires count <= |s|
    decreases count, 1
  {
    if count == 1 then [s] else Rounds(s, count, count)
  }

  /** The last `k` rounds of the loop in Permute(list, count): the permutations of
      the first count-1 elements, then a rotation of the first `count`. */
  function Rounds<T>(s: seq<T>, count: nat, k: nat): seq<seq<T>>
    requires count <= |s| && k <= count
    decreases count, 0, k
  {
    if k == 0 then [] else Permutations(s, count - 1) + Rounds(RotateRight(s, count), count, k - 1)
  }

  /** Permute(list, count), run to completion. */
  method Permute<T>(a: array<T>, count: nat) returns (perms: seq<seq<T>>)
    requires count <= a.Length
    modifies a
    ensures perms == Permutations(old(a[..]), count)
    ensures a[..] == old(a[..])
    decreases count
  {
    if count == 1 {
      perms := [a[..]];
    } else {
      perms := [];
      var i := 0;
      while i < count
        invariant 0 <= i <= count
        invariant count == 0 ==> a[..] == old(a[..])
        invariant count > 0 ==> a[..] == RotateN(old(a[..]), count, i)
        invariant perms + Rounds(a[..], count, count - i) == Permutations(old(a[..]), count)
      {
        ghost var before := a[..];
        var sub := Permute(a, count - 1);
        perms := perms + sub;
        RotateRightInPlace(a, count);
        RotateNStep(old(a[..]), count, i);
        assert Rounds(before, count, count - i) == sub + Rounds(a[..], count, count - i - 1);
        i := i + 1;
      }
      if count > 0 {
        RotateNClosed(old(a[..]), count, count);
        assert old(a[..])[0..count] + old(a[..])[..0] + old(a[..])[count..] == old(a[..]);
      }
    }
  }

  /** The list after `i` rotations of its first `count` elements. */
  function RotateN<T>(s: seq<T>, count: nat, i: nat): (r: seq<T>)
    requires 1 <= count <= |s|
    ensures |r| == |s|
    decreases i
  {
    if i == 0 then s else RotateN(RotateRight(s, count), count, i - 1)
  }

  lemma {:induction false} RotateNStep<T>(s: seq<T>, count: nat, i: nat)
    requires 1 <= count <= |s|
    ensures RotateN(s, count, i + 1) == RotateRight(RotateN(s, count, i), count)
    decreases i
  {
    if i > 0 {
      RotateNStep(RotateRight(s, count), count, i - 1);
    }
  }

  /** After `i <= count` rotations the last `i` of the first `count` elements lead. */
  lemma {:induction false} RotateNClosed<T>(s: seq<T>, count: nat, i: nat)
    requires 1 <= count <= |s| && i <= count
    ensures RotateN(s, count, i) == s[count - i..count] + s[..count - i] + s[count..]
    decreases i
  {
    if i == 0 {
      assert s[count..count] == [];
      assert s == s[..count] + s[count..];
    } else {
      var r := RotateRight(s, count);
      RotateNClosed(r, count, i - 1);
      RotateRightSlices(s, count, i);
      AppendAssociative(s[count - i..count - 1], [s[count - 1]], s[..count - i]);
      assert s[count - i..count] == s[count - i..count - 1] + [s[count - 1]];
    }
  }

  /** How the slices RotateNClosed needs look after one more rotation. */
  lemma RotateRightSlices<T>(s: seq<T>, count: nat, i: nat)
    requires 1 <= i <= count <= |s|
    ensures RotateRight(s, count)[count - (i - 1)..count] == s[count - i..count - 1]
    ensures RotateRight(s, count)[..count - (i - 1)] == [s[count - 1]] + s[..count - i]
    ensures RotateRight(s, count)[count..] == s[count..]
  {
  }

  function Factorial(n: nat): (f: nat)
    ensures f >= 1
  {
    if n == 0 then 1 else n * Factorial(n - 1)
  }

  /** `t` is `s` with its first `count` elements reordered and the rest untouched. */
  ghost predicate Rearranges<T>(t: seq<T>, s: seq<T>, count: nat)
    requires count <= |s|
  {
    |t| == |s| && t[count..] == s[count..] && multiset(t[..count]) == multiset(s[..count])
  }

  lemma RearrangesWiden<T>(t: seq<T>, s: seq<T>, count: nat)
    requires 1 <= count <= |s| && Rearranges(t, s, count - 1)
    ensures Rearranges(t, s, count)
  {
    assert t[..count] == t[..count - 1] + [t[count - 1]];
    assert s[..count] == s[..count - 1] + [s[count - 1]];
    assert t[count - 1] == t[count - 1..][0] == s[count - 1..][0] == s[count - 1];
    assert t[count..] == t[count - 1..][1..];
    assert s[count..] == s[count - 1..][1..];
  }

  lemma RearrangesTransitive<T>(t: seq<T>, u: seq<T>, s: seq<T>, count: nat)
    requires count <= |s| && Rearranges(u, s, count) && Rearranges(t, u, count)
    ensures Rearranges(t, s, count)
  {
  }

  /** Permute(list, count) hands out count! lists. */
  lemma {:induction false} PermutationsLength<T>(s: seq<T>, count: nat)
    requires 1 <= count <= |s|
    ensures |Permutations(s, count)| == Factorial(count)
    decreases count, 1
  {
    if count > 1 {
      RoundsLength(s, count, count);
    }
  }

  lemma {:induction false} RoundsLength<T>(s: seq<T>, count: nat, k: nat)
    requires 2 <= count <= |s| && k <= count
    ensures |Rounds(s, count, k)| == k * Factorial(count - 1)
    decreases count, 0, k
  {
    if k > 0 {
      PermutationsLength(s, count - 1);
      RoundsLength(RotateRight(s, count), count, k - 1);
      assert k * Factorial(count - 1) == (k - 1) * Factorial(count - 1) + Factorial(count - 1);
    }
  }

  /** Every list handed out is a reordering of the first `count` elements. */
  lemma {:induction false} PermutationsRearrange<T>(s: seq<T>, count: nat)
    requires count <= |s|
    ensures forall t :: t in Permutations(s, count) ==> Rearranges(t, s, count)
    decreases count, 1
  {
    if count != 1 {
      RoundsRearrange(s, count, count);
    }
  }

  lemma {:induction false} RoundsRearrange<T>(s: seq<T>, count: nat, k: nat)
    requires count <= |s| && k <= count
    ensures forall t :: t in Rounds(s, count, k) ==> Rearranges(t, s, count)
    decreases count, 0, k
  {
    if k > 0 {
      var r := RotateRight(s, count);
      PermutationsRearrange(s, count - 1);
      RoundsRearrange(r, count, k - 1);
      RotateRightPermutes(s, count);
      forall t | t in Rounds(s, count, k) ensures Rearranges(t, s, count) {
        if t in Permutations(s, count - 1) {
          RearrangesWiden(t, s, count);
        } else {
          RearrangesTransitive(t, r, s, count);
        }
      }
    }
  }

  /** Rotating `count - 1 - j` times brings element `j` to position count-1. */
  lemma RotatedToLast<T>(s: seq<T>, n: nat, j: nat)
    requires 1 <= n <= |s| && j < n
    ensures RotateN(s, n, n - 1 - j)[n - 1] == s[j]
    ensures RotateN(s, n, n - 1 - j)[n..] == s[n..]
    ensures multiset(RotateN(s, n, n - 1 - j)[..n - 1]) == multiset(s[..n]) - multiset{s[j]}
  {
    var u := RotateN(s, n, n - 1 - j);
    RotateNClosed(s, n, n - 1 - j);
    assert u == s[j + 1..n] + s[..j + 1] + s[n..];
    assert u[..n - 1] == s[j + 1..n] + s[..j];
    assert s[..n] == s[..j] + [s[j]] + s[j + 1..n];
  }

  /** Dropping the last of the first `n` elements of a reordering. */
  lemma DropLast<T>(t: seq<T>, s: seq<T>, n: nat)
    requires 1 <= n <= |s| && Rearranges(t, s, n)
    ensures t[n - 1] in multiset(s[..n])
    ensures multiset(t[..n - 1]) == multiset(s[..n]) - multiset{t[n - 1]}
  {
    assert t[..n] == t[..n - 1] + [t[n - 1]];
  }

  /** Every reordering of the first `count` elements is handed out. */
  lemma {:induction false} PermutationsComplete<T>(s: seq<T>, count: nat, t: seq<T>)
    requires 1 <= count <= |s| && Rearranges(t, s, count)
    ensures t in Permutations(s, count)
    decreases count
  {
    if count == 1 {
      assert t[..1] == [t[0]] && s[..1] == [s[0]];
      assert multiset{t[0]} == multiset{s[0]};
      assert t == t[..1] + t[1..] && s == s[..1] + s[1..];
    } else {
      var n := count;
      DropLast(t, s, n);
      var j :| 0 <= j < n && s[..n][j] == t[n - 1];
      var i := n - 1 - j;
      var u := RotateN(s, n, i);
      RotatedToLast(s, n, j);
      RearrangesNarrow(t, s, u, n);
      PermutationsComplete(u, n - 1, t);
      RoundsContain(s, n, n, i, t);
    }
  }

  /** Once the last of the first `n` elements of `u` is that of `t` and the rest
      of `u` agrees with `s`, `t` reorders only the first `n - 1` of `u`. */
  lemma RearrangesNarrow<T>(t: seq<T>, s: seq<T>, u: seq<T>, n: nat)
    requires 1 <= n <= |s| == |u| && Rearranges(t, s, n)
    requires u[n - 1] == t[n - 1] && u[n..] == s[n..]
    requires multiset(u[..n - 1]) == multiset(s[..n]) - multiset{t[n - 1]}
    requires multiset(t[..n - 1]) == multiset(s[..n]) - multiset{t[n - 1]}
    ensures Rearranges(t, u, n - 1)
  {
    assert u[n - 1..] == [u[n - 1]] + u[n..];
    assert t[n - 1..] == [t[n - 1]] + t[n..];
  }

  /** Round `i` of the loop hands out the permutations of the `i`-times rotated list. */
  lemma {:induction false} RoundsContain<T>(s: seq<T>, count: nat, k: nat, i: nat, t: seq<T>)
    requires 1 <= count <= |s| && i < k <= count
    requires t in Permutations(RotateN(s, count, i), count - 1)
    ensures t in Rounds(s, count, k)
    decreases i
  {
    if i > 0 {
      RoundsContain(RotateRight(s, count), count, k - 1, i - 1, t);
    }
  }

  /** Permuting distinct elements hands out each ordering once. */
  lemma {:induction false} PermutationsDistinct<T>(s: seq<T>, count: nat)
    requires count <= |s| && NoDuplicates(s[..count])
    ensures NoDuplicates(Permutations(s, count))
    decreases count, 1
  {
    if count > 1 {
      RoundsDistinct(s, count, count);
    }
  }

  lemma {:induction false} RoundsDistinct<T>(s: seq<T>, count: nat, k: nat)
    requires 2 <= count <= |s| && k <= count && NoDuplicates(s[..count])
    ensures NoDuplicates(Rounds(s, count, k))
    ensures forall t :: t in Rounds(s, count, k) ==> |t| == |s| && t[count - 1] in s[count - k..count]
    decreases count, 0, k
  {
    if k > 0 {
      var r := RotateRight(s, count);
      var first := Permutations(s, count - 1);
      var rest := Rounds(r, count, k - 1);
      assert s[..count - 1] == s[..count][..count - 1];
      PermutationsDistinct(s, count - 1);
      PermutationsRearrange(s, count - 1);
      assert r[..count] == [s[count - 1]] + s[..count - 1];
      assert NoDuplicates(r[..count]) by {
        forall a, b | 0 <= a < b < count ensures r[..count][a] != r[..count][b] {
          if a == 0 {
            assert r[..count][b] == s[..count][b - 1];
          } else {
            assert r[..count][a] == s[..count][a - 1] && r[..count][b] == s[..count][b - 1];
          }
        }
      }
      RoundsDistinct(r, count, k - 1);
      assert r[count - (k - 1)..count] == s[count - k..count - 1];
      forall t | t in first ensures |t| == |s| && t[count - 1] == s[count - 1] {
        assert t[count - 1..] == s[count - 1..];
        assert t[count - 1] == t[count - 1..][0];
      }
      assert s[count - 1] !in s[count - k..count - 1] by {
        forall a | count - k <= a < count - 1 ensures s[a] != s[count - 1] {
          assert s[..count][a] == s[a] && s[..count][count - 1] == s[count - 1];
        }
      }
      NoDuplicatesConcat(first, rest);
      assert s[count - k..count] == s[count - k..count - 1] + [s[count - 1]];
    }
  }

  /** What the canonicaliser relies on: for a non-empty list, Permute hands out
      |list|! lists, each a reordering of the list, every reordering among them,
      and, when the list holds no repeated element, no reordering twice; and it
      leaves the list as it found it (the postcondition of Permute). */
  lemma PermuteEnumeratesAll<T>(xs: seq<T>)
    requires |xs| >= 1
    ensures |Permutations(xs, |xs|)| == Factorial(|xs|)
    ensures forall t :: t in Permutations(xs, |xs|) <==> |t| == |xs| && multiset(t) == multiset(xs)
    ensures NoDuplicates(xs) ==> NoDuplicates(Permutations(xs, |xs|))
  {
    PermutationsLength(xs, |xs|);
    PermutationsRearrange(xs, |xs|);
    forall t | |t| == |xs| && multiset(t) == multiset(xs) ensures t in Permutations(xs, |xs|) {
      assert t[..|xs|] == t && xs[..|xs|] == xs;
      PermutationsComplete(xs, |xs|, t);
    }
    forall t | t in Permutations(xs, |xs|) ensures multiset(t) == multiset(xs) {
      assert t[..|xs|] == t && xs[..|xs|] == xs;
    }
    if NoDuplicates(xs) {
      assert xs[..|xs|] == xs;
      PermutationsDistinct(xs, |xs|);
    }
  }

  /** Each list Permute hands out has the length of the list and only its elements. */
  lemma PermutationMembers<T>(xs: seq<T>, t: seq<T>)
    requires t in Permutations(xs, |xs|)
    ensures |t| == |xs| && forall x :: x in t ==> x in xs
  {
    PermutationsRearrange(xs, |xs|);
    assert t[..|xs|] == t && xs[..|xs|] == xs;
    forall x | x in t ensures x in xs {
      assert x in multiset(t);
    }
  }
}
