/** Ordinal string comparison as done by StringComparer.Ordinal: the strings are
    compared UTF-16 code unit by code unit. A Dafny string is a sequence of Unicode
    scalar values, so each character is first written out as the one or two code
    units .NET stores for it. Also a stable sort keyed by that comparison, as done
    by LINQ's OrderBy. */
module Ordinal {

  /** The UTF-16 code units of one character: the character itself below U+10000,
      otherwise a high surrogate followed by a low surrogate. */
  function CodeUnits(c: char): (u: seq<int>)
    ensures 1 <= |u| <= 2
    ensures |u| == 1 <==> (c as int) < 0x1_0000
    ensures forall i :: 0 <= i < |u| ==> 0 <= u[i] < 0x1_0000
    ensures |u| == 2 ==> 0xD800 <= u[0] < 0xDC00 && 0xDC00 <= u[1] < 0xE000
  {
    if (c as int) < 0x1_0000 then [c as int]
    else
      var v := c as int - 0x1_0000;
      [0xD800 + v / 0x400, 0xDC00 + v % 0x400]
  }

  /** Two characters with the same code units are the same character. */
  lemma CodeUnitsInjective(c: char, d: char)
    requires CodeUnits(c) == CodeUnits(d)
    ensures c == d
  {
    if (c as int) >= 0x1_0000 {
      var v, w := c as int - 0x1_0000, d as int - 0x1_0000;
      assert v / 0x400 == w / 0x400 && v % 0x400 == w % 0x400;
      assert v == 0x400 * (v / 0x400) + v % 0x400;
      assert w == 0x400 * (w / 0x400) + w % 0x400;
    }
  }

  /** The UTF-16 encoding of a string, as .NET stores it. */
  function Utf16(s: string): seq<int> {
    if s == [] then [] else CodeUnits(s[0]) + Utf16(s[1..])
  }

  /** `String.Length` in .NET: the number of UTF-16 code units. */
  function Utf16Length(s: string): nat {
    |Utf16(s)|
  }

  /** Encoding is a homomorphism: the code units of `a + b` are those of `a`
      followed by those of `b`. */
  lemma {:induction false} Utf16Append(a: string, b: string)
    ensures Utf16(a + b) == Utf16(a) + Utf16(b)
  {
    if a != [] {
      calc {
        Utf16(a + b);
        { assert (a + b)[0] == a[0] && (a + b)[1..] == a[1..] + b; }
        CodeUnits(a[0]) + Utf16(a[1..] + b);
        { Utf16Append(a[1..], b); }
        CodeUnits(a[0]) + (Utf16(a[1..]) + Utf16(b));
      }
    } else {
      assert a + b == b;
    }
  }

  /** Different strings have different encodings. */
  lemma {:induction false} Utf16Injective(a: string, b: string)
    ensures Utf16(a) == Utf16(b) ==> a == b
  {
    if a != [] && b != [] && Utf16(a) == Utf16(b) {
      var ua, ub := CodeUnits(a[0]), CodeUnits(b[0]);
      // The first code unit tells a lone character from a surrogate pair.
      assert Utf16(a)[0] == ua[0] && Utf16(b)[0] == ub[0];
      assert |ua| == |ub|;
      assert ua == Utf16(a)[..|ua|] && ub == Utf16(b)[..|ub|];
      CodeUnitsInjective(a[0], b[0]);
      assert Utf16(a[1..]) == Utf16(a)[|ua|..] && Utf16(b[1..]) == Utf16(b)[|ub|..];
      Utf16Injective(a[1..], b[1..]);
      assert a == [a[0]] + a[1..] && b == [b[0]] + b[1..];
    }
  }

  /** Sign of the comparison of two code-unit sequences: the first differing code
      unit decides, and a proper prefix sorts first. */
  function CompareUnits(a: seq<int>, b: seq<int>): (r: int)
    ensures -1 <= r <= 1
    ensures r == 0 <==> a == b
  {
    if a == [] then (if b == [] then 0 else -1)
    else if b == [] then 1
    else if a[0] < b[0] then -1
    else if a[0] > b[0] then 1
    else
      assert a == [a[0]] + a[1..] && b == [b[0]] + b[1..];
      CompareUnits(a[1..], b[1..])
  }

  /** Sign of the ordinal comparison of `a` and `b`, StringComparer.Ordinal.Compare. */
  function Compare(a: string, b: string): (r: int)
    ensures -1 <= r <= 1
    ensures r == 0 <==> a == b
  {
    Utf16Injective(a, b);
    CompareUnits(Utf16(a), Utf16(b))
  }

  /** The order is that of UTF-16 code units, not of code points: a character
      outside the Basic Multilingual Plane (stored as a surrogate pair starting
      at 0xD800..0xDBFF) sorts below any character from U+E000 to U+FFFF. */
  lemma SupplementaryBelowHighBmp(c: char, d: char)
    requires (c as int) >= 0x1_0000 && 0xE000 <= (d as int) < 0x1_0000
    ensures Less([c], [d]) && (c as int) > (d as int)
  {
    assert Utf16([c]) == CodeUnits(c) + Utf16([]);
    assert Utf16([d]) == CodeUnits(d) + Utf16([]);
  }

  predicate Less(a: string, b: string) {
    Compare(a, b) < 0
  }

  predicate Greater(a: string, b: string) {
    Compare(a, b) > 0
  }

  /** `p` is a prefix of `s`. */
  predicate IsPrefix(p: string, s: string) {
    |p| <= |s| && s[..|p|] == p
  }

  lemma PrefixTransitive(a: string, b: string, c: string)
    requires IsPrefix(a, b) && IsPrefix(b, c)
    ensures IsPrefix(a, c)
  {
    assert c[..|a|] == c[..|b|][..|a|];
  }

  lemma {:induction false} CompareUnitsAntisymmetric(a: seq<int>, b: seq<int>)
    ensures CompareUnits(a, b) == -CompareUnits(b, a)
  {
    if a != [] && b != [] && a[0] == b[0] {
      CompareUnitsAntisymmetric(a[1..], b[1..]);
    }
  }

  /** Swapping the operands negates the comparison. */
  lemma CompareAntisymmetric(a: string, b: string)
    ensures Compare(a, b) == -Compare(b, a)
  {
    CompareUnitsAntisymmetric(Utf16(a), Utf16(b));
  }

  lemma {:induction false} LessUnitsTransitive(a: seq<int>, b: seq<int>, c: seq<int>)
    requires CompareUnits(a, b) < 0 && CompareUnits(b, c) < 0
    ensures CompareUnits(a, c) < 0
  {
    if a != [] && b != [] && c != [] && a[0] == b[0] == c[0] {
      LessUnitsTransitive(a[1..], b[1..], c[1..]);
    }
  }

  /** The ordinal order is transitive. */
  lemma LessTransitive(a: string, b: string, c: string)
    requires Less(a, b) && Less(b, c)
    ensures Less(a, c)
  {
    LessUnitsTransitive(Utf16(a), Utf16(b), Utf16(c));
  }

  /** Any two strings are comparable: the order is total. */
  lemma LessTotal(a: string, b: string)
    ensures Less(a, b) || a == b || Less(b, a)
  {
    CompareAntisymmetric(a, b);
  }

  lemma {:induction false} GreaterUnitsExtends(p: seq<int>, c: seq<int>, x: seq<int>)
    requires CompareUnits(p, c) > 0
    ensures CompareUnits(p + x, c) > 0
  {
    if c != [] && p[0] == c[0] {
      assert (p + x)[1..] == p[1..] + x;
      GreaterUnitsExtends(p[1..], c[1..], x);
    }
  }

  /** Once a string is ordinally greater than `c`, so is every extension of it.
      This is what makes abandoning a partial path sound. */
  lemma GreaterExtends(p: string, c: string, x: string)
    requires Greater(p, c)
    ensures Greater(p + x, c)
  {
    Utf16Append(p, x);
    GreaterUnitsExtends(Utf16(p), Utf16(c), Utf16(x));
  }

  /** Greater is Less with the operands swapped. */
  lemma GreaterIsLess(a: string, b: string)
    ensures Greater(a, b) <==> Less(b, a)
  {
    CompareAntisymmetric(a, b);
  }

  /** Lowering the bound keeps a string above it: Greater(p, c) and Less(d, c)
      give Greater(p, d). */
  lemma GreaterLowered(p: string, c: string, d: string)
    requires Greater(p, c) && Less(d, c)
    ensures Greater(p, d)
  {
    GreaterIsLess(p, c);
    LessTransitive(d, c, p);
    GreaterIsLess(p, d);
  }

  /** `a` is not ordinally after `b`. */
  predicate AtMost(a: string, b: string) {
    !Less(b, a)
  }

  /** Below a string that is at most `p`, one is below `p`. */
  lemma LessAtMost(d: string, c: string, p: string)
    requires Less(d, c) && AtMost(c, p)
    ensures Less(d, p)
  {
    LessTotal(c, p);
    if c != p {
      LessTransitive(d, c, p);
    }
  }

  lemma AtMostTransitive(a: string, b: string, c: string)
    requires AtMost(a, b) && AtMost(b, c)
    ensures AtMost(a, c)
  {
    if Less(c, a) {
      LessTotal(a, b);
      if a != b {
        LessTransitive(c, a, b);
      }
    }
  }

  /** `xs` is in ascending order of `key`, ties allowed. */
  ghost predicate SortedBy<T>(xs: seq<T>, key: T -> string) {
    forall i, j :: 0 <= i < j < |xs| ==> AtMost(key(xs[i]), key(xs[j]))
  }

  /** Inserts `x` before the first element whose key is not below its own, so that
      `x` lands in front of the elements it ties with. */
  function InsertBy<T>(x: T, xs: seq<T>, key: T -> string): (r: seq<T>)
    ensures multiset(r) == multiset(xs) + multiset{x}
  {
    if xs == [] || !Less(key(xs[0]), key(x)) then [x] + xs
    else
      assert xs == [xs[0]] + xs[1..];
      [xs[0]] + InsertBy(x, xs[1..], key)
  }

  /** Every element of `xs` has a key at or above `k`. */
  ghost predicate AllAtLeast<T>(xs: seq<T>, key: T -> string, k: string) {
    forall i :: 0 <= i < |xs| ==> AtMost(k, key(xs[i]))
  }

  lemma SortedCons<T>(a: T, r: seq<T>, key: T -> string)
    requires AllAtLeast(r, key, key(a)) && SortedBy(r, key)
    ensures SortedBy([a] + r, key)
  {
    var s := [a] + r;
    forall i, j | 0 <= i < j < |s| ensures AtMost(key(s[i]), key(s[j])) {
      if i > 0 {
        assert s[i] == r[i - 1] && s[j] == r[j - 1];
      } else {
        assert s[j] == r[j - 1];
      }
    }
  }

  lemma {:induction false} InsertByBound<T>(x: T, xs: seq<T>, key: T -> string, k: string)
    requires AllAtLeast(xs, key, k) && AtMost(k, key(x))
    ensures AllAtLeast(InsertBy(x, xs, key), key, k)
  {
    if !(xs == [] || !Less(key(xs[0]), key(x))) {
      InsertByBound(x, xs[1..], key, k);
      var r := InsertBy(x, xs, key);
      forall i | 0 <= i < |r| ensures AtMost(k, key(r[i])) {
        if i > 0 { assert r[i] == InsertBy(x, xs[1..], key)[i - 1]; }
      }
    }
  }

  lemma {:induction false} InsertBySorted<T>(x: T, xs: seq<T>, key: T -> string)
    requires SortedBy(xs, key)
    ensures SortedBy(InsertBy(x, xs, key), key)
  {
    if xs == [] || !Less(key(xs[0]), key(x)) {
      forall j | 0 <= j < |xs| ensures AtMost(key(x), key(xs[j])) {
        if j > 0 {
          AtMostTransitive(key(x), key(xs[0]), key(xs[j]));
        }
      }
      SortedCons(x, xs, key);
    } else {
      InsertBySorted(x, xs[1..], key);
      assert AllAtLeast(xs[1..], key, key(xs[0])) by {
        forall i | 0 <= i < |xs[1..]| ensures AtMost(key(xs[0]), key(xs[1..][i])) {
          assert xs[1..][i] == xs[i + 1];
        }
      }
      CompareAntisymmetric(key(x), key(xs[0]));
      InsertByBound(x, xs[1..], key, key(xs[0]));
      SortedCons(xs[0], InsertBy(x, xs[1..], key), key);
    }
  }

  /** Stable insertion sort by `key`: the model of LINQ's OrderBy. */
  function SortBy<T>(xs: seq<T>, key: T -> string): (r: seq<T>)
    ensures SortedBy(r, key)
    ensures multiset(r) == multiset(xs)
  {
    if xs == [] then []
    else
      assert xs == [xs[0]] + xs[1..];
      InsertBySorted(xs[0], SortBy(xs[1..], key), key);
      InsertBy(xs[0], SortBy(xs[1..], key), key)
  }

  /** The elements of `xs` whose key is `k`, in their order in `xs`. */
  function WithKey<T>(xs: seq<T>, key: T -> string, k: string): (r: seq<T>)
  {
    if xs == [] then []
    else (if key(xs[0]) == k then [xs[0]] else []) + WithKey(xs[1..], key, k)
  }

  lemma {:induction false} InsertByWithKey<T>(x: T, xs: seq<T>, key: T -> string, k: string)
    ensures WithKey(InsertBy(x, xs, key), key, k)
         == (if key(x) == k then [x] else []) + WithKey(xs, key, k)
  {
    var r := InsertBy(x, xs, key);
    if xs == [] || !Less(key(xs[0]), key(x)) {
      assert r[1..] == xs;
    } else {
      assert key(xs[0]) != key(x);
      assert r[1..] == InsertBy(x, xs[1..], key);
      InsertByWithKey(x, xs[1..], key, k);
      if key(x) == k {
        assert key(xs[0]) != k;
      }
    }
  }

  /** The sort is stable: elements that tie on their key keep their relative order. */
  lemma {:induction false} SortByStable<T>(xs: seq<T>, key: T -> string, k: string)
    ensures WithKey(SortBy(xs, key), key, k) == WithKey(xs, key, k)
  {
    if xs != [] {
      SortByStable(xs[1..], key, k);
      InsertByWithKey(xs[0], SortBy(xs[1..], key), key, k);
    }
  }

  /** Sorting strings by their own ordinal value. */
  function SortOrdinal(xs: seq<string>): (r: seq<string>)
    ensures SortedBy(r, s => s)
    ensures multiset(r) == multiset(xs)
    ensures |r| == |xs| && forall x :: x in r <==> x in xs
  {
    var r := SortBy(xs, s => s);
    assert forall x :: x in r <==> x in multiset(r);
    assert forall x :: x in xs <==> x in multiset(xs);
    assert |r| == |multiset(r)|;
    r
  }

  /** Two ascending sequences of strings with the same elements are equal: the
      sorted order of a collection does not depend on the order it came in. */
  lemma {:induction false} SortedUnique(a: seq<string>, b: seq<string>)
    requires SortedBy(a, s => s) && SortedBy(b, s => s)
    requires multiset(a) == multiset(b)
    ensures a == b
  {
    if a != [] {
      assert a[0] in multiset(b);
      assert b[0] in multiset(a) by { assert b[0] in multiset(b); }
      SortedHeadLeast(b, a[0]);
      SortedHeadLeast(a, b[0]);
      LessTotal(a[0], b[0]);
      HeadMultiset(a);
      HeadMultiset(b);
      SortedUnique(a[1..], b[1..]);
      assert a == [a[0]] + a[1..] && b == [b[0]] + b[1..];
    } else {
      assert |b| == |multiset(b)|;
    }
  }

  /** The head of an ascending sequence is at most each of its elements. */
  lemma SortedHeadLeast(a: seq<string>, x: string)
    requires SortedBy(a, s => s) && x in multiset(a)
    ensures AtMost(a[0], x)
  {
    var i :| 0 <= i < |a| && a[i] == x;
    if i > 0 {
      assert AtMost(a[0], a[i]);
    }
  }

  lemma HeadMultiset(a: seq<string>)
    requires a != []
    ensures multiset(a[1..]) == multiset(a) - multiset{a[0]}
  {
    assert a == [a[0]] + a[1..];
  }

  /** Sorting strings depends only on which strings there are, not on their order. */
  lemma SortOrdinalPermutation(a: seq<string>, b: seq<string>)
    requires multiset(a) == multiset(b)
    ensures SortOrdinal(a) == SortOrdinal(b)
  {
    SortedUnique(SortOrdinal(a), SortOrdinal(b));
  }
}
