/** The N-degree hash is a function of its inputs: whatever traces record two
    computations of it for the same blank node, issuer, canonical issuer and
    index, they give the same hash and leave the same issuer. The proof follows
    the mutual recursion of the specification, on the sum of the two budgets.
    From the same budget the whole trace is the same, so the counter it leaves
    is too, and a computation that succeeds does not also run out. */
module Determinism {
  import opened Sequences
  import opened Ordinal
  import opened Issuers
  import opened Multimaps
  import opened FirstDegree
  import opened Related
  import Permutations

  /** Two N-degree hashes of the same node under the same issuer are equal, and
      so are the issuers they leave. */
  lemma {:induction false} NDegreeHashedUnique(prims: Primitives, index: Index, canonical: Issuer, identifier: string,
                                               issuer: Issuer, r1: (string, Issuer), t1: NDegreeTrace,
                                               r2: (string, Issuer), t2: NDegreeTrace)
    requires NDegreeHashed(prims, index, canonical, identifier, issuer, r1, t1)
    requires NDegreeHashed(prims, index, canonical, identifier, issuer, r2, t2)
    ensures r1 == r2
    decreases t1.budget + t2.budget, 5, 0
  {
    var m := RelatedMap(prims, index, canonical, issuer, identifier);
    GroupsChosenUnique(prims, index, canonical, m, issuer, t1, t2);
  }

  /** The same, for the hash of a recursive call. */
  lemma {:induction false} NDegreeCallUnique(prims: Primitives, index: Index, canonical: Issuer, b1: nat, b2: nat,
                                             identifier: string, issuer: Issuer, before1: int, r1: (string, Issuer), after1: int,
                                             before2: int, r2: (string, Issuer), after2: int)
    requires NDegreeCall(prims, index, canonical, b1, identifier, issuer, before1, r1, after1)
    requires NDegreeCall(prims, index, canonical, b2, identifier, issuer, before2, r2, after2)
    ensures r1 == r2
    decreases b1 + b2, 0, 0
  {
    var t1: NDegreeTrace :| t1.budget < b1 && t1.budget == before1 && NDegreeHashed(prims, index, canonical, identifier, issuer, r1, t1)
      && CounterAfter(t1) == after1;
    var t2: NDegreeTrace :| t2.budget < b2 && t2.budget == before2 && NDegreeHashed(prims, index, canonical, identifier, issuer, r2, t2)
      && CounterAfter(t2) == after2;
    NDegreeHashedUnique(prims, index, canonical, identifier, issuer, r1, t1, r2, t2);
  }

  /** Two traces of the groups of the same related map, from the same issuer and
      over the same keys, choose the same paths and issuers. */
  lemma {:induction false} GroupsChosenUnique(prims: Primitives, index: Index, canonical: Issuer, m: Multimap<string, string>,
                                              issuer: Issuer, t1: NDegreeTrace, t2: NDegreeTrace)
    requires GroupsChosen(prims, index, canonical, m, issuer, t1)
    requires GroupsChosen(prims, index, canonical, m, issuer, t2)
    requires t1.keys == t2.keys
    ensures t1.paths == t2.paths && t1.issuers == t2.issuers
    decreases t1.budget + t2.budget, 4, |t1.keys|
  {
    if t1.keys != [] {
      var n := |t1.keys| - 1;
      var u1, u2 := TracePrefix(t1, n), TracePrefix(t2, n);
      GroupsChosenUnique(prims, index, canonical, m, issuer, u1, u2);
      var group := m.entries[t1.keys[n]];
      assert t2.issuers[n] == u2.issuers[n] == u1.issuers[n] == t1.issuers[n];
      assert GroupChosen(prims, index, canonical, t2.budget, group, t1.issuers[n], t2.counters[n], t2.outcomes[n],
                         t2.marks[n], t2.paths[n], t2.issuers[n + 1], t2.counters[n + 1]);
      GroupChoiceUnique(prims, index, canonical, t1.budget, t2.budget, group, t1.issuers[n],
                        t1.counters[n], t1.outcomes[n], t1.marks[n], t1.paths[n], t1.issuers[n + 1], t1.counters[n + 1],
                        t2.counters[n], t2.outcomes[n], t2.marks[n], t2.paths[n], t2.issuers[n + 1], t2.counters[n + 1]);
      SameFrontSameLast(t1.paths, t2.paths);
      SameFrontSameLast(t1.issuers, t2.issuers);
    }
  }

  /** The permutation search over one group is deterministic: two explorations of
      the same group from the same issuer choose the same path and the same
      issuer, whatever budget each started from. */
  lemma GroupChoiceUnique(prims: Primitives, index: Index, canonical: Issuer, b1: nat, b2: nat, group: seq<string>,
                          issuer: Issuer, s1: int, o1: seq<PathOutcome>, m1: seq<int>, p1: string, c1: Issuer, e1: int,
                          s2: int, o2: seq<PathOutcome>, m2: seq<int>, p2: string, c2: Issuer, e2: int)
    requires GroupChosen(prims, index, canonical, b1, group, issuer, s1, o1, m1, p1, c1, e1)
    requires GroupChosen(prims, index, canonical, b2, group, issuer, s2, o2, m2, p2, c2, e2)
    ensures p1 == p2 && c1 == c2
    decreases b1 + b2, 3, 0
  {
    var perms := Permutations.Permutations(group, |group|);
    var k1 :| ChosenAt(o1, k1, p1, c1);
    var k2 :| ChosenAt(o2, k2, p2, c2);
    var ch1, ch2 := RunningChoice(o1[..k1]), RunningChoice(o2[..k2]);
    assert OutcomeAt(prims, index, canonical, b2, issuer, perms, o2, m2, k2);
    ChoiceBelowOther(prims, index, canonical, b1, b2, group, issuer, s1, o1, m1, k1, p1, c1, e1, k2, ch2, m2[k2], o2[k2], m2[k2 + 1]);
    assert OutcomeAt(prims, index, canonical, b1, issuer, perms, o1, m1, k1);
    ChoiceBelowOther(prims, index, canonical, b2, b1, group, issuer, s2, o2, m2, k2, p2, c2, e2, k1, ch1, m1[k1], o1[k1], m1[k1 + 1]);
    LessTotal(p1, p2);
    CompareAntisymmetric(p1, p1);
    assert p1 == p2 && k1 == k2;
    var direct := DirectPath(canonical, issuer, perms[k1]);
    CompletedUnique(prims, index, canonical, b1, b2, direct, ch1, m1[k1], p1, c1, m1[k1 + 1], ch2, m2[k2], p2, c2, m2[k2 + 1]);
  }

  /** The path chosen in one exploration is at most the path any other exploration
      completed for permutation `j`, and strictly below it when `j` comes before
      the chosen permutation. */
  lemma ChoiceBelowOther(prims: Primitives, index: Index, canonical: Issuer, bA: nat, bB: nat, group: seq<string>,
                         issuer: Issuer, sA: int, oA: seq<PathOutcome>, mA: seq<int>, kA: int, pA: string, cA: Issuer, eA: int,
                         j: int, chosenB: string, before: int, other: PathOutcome, after: int)
    requires GroupChosen(prims, index, canonical, bA, group, issuer, sA, oA, mA, pA, cA, eA) && ChosenAt(oA, kA, pA, cA)
    requires 0 <= j < |oA| && other.Complete?
    requires OutcomeOf(prims, index, canonical, bB, issuer, Permutations.Permutations(group, |group|)[j], chosenB,
                       before, other, after)
    ensures AtMost(pA, other.path)
    ensures j < kA ==> Less(pA, other.path)
    decreases bA + bB, 2, 0
  {
    var perms := Permutations.Permutations(group, |group|);
    var perm := perms[j];
    var direct := DirectPath(canonical, issuer, perm);
    assert OutcomeAt(prims, index, canonical, bA, issuer, perms, oA, mA, j);
    var ch, s, o, e := RunningChoice(oA[..j]), mA[j], oA[j], mA[j + 1];
    assert OutcomeOf(prims, index, canonical, bA, issuer, perm, ch, s, o, e);
    assert !o.Failed?;
    CompareAntisymmetric(pA, other.path);
    if o.Complete? {
      assert CompletedWith(prims, index, canonical, bA, direct, ch, s, o.path, o.issuer, e);
      CompletedUnique(prims, index, canonical, bA, bB, direct, ch, s, o.path, o.issuer, e,
                      chosenB, before, other.path, other.issuer, after);
    } else {
      PrunedBelowCompleted(prims, index, canonical, bA, bB, issuer, perm, ch, s, o.partial, e,
                           chosenB, before, other.path, other.issuer, after, pA);
    }
  }

  /** Two completions of the same permutation give the same path and issuer: the
      recursions on the same nodes return the same hashes and issuers. */
  lemma CompletedUnique(prims: Primitives, index: Index, canonical: Issuer, b1: nat, b2: nat, direct: DirectStep,
                        ch1: string, s1: int, path1: string, res1: Issuer, e1: int,
                        ch2: string, s2: int, path2: string, res2: Issuer, e2: int)
    requires direct.issuer.Valid()
    requires CompletedWith(prims, index, canonical, b1, direct, ch1, s1, path1, res1, e1)
    requires CompletedWith(prims, index, canonical, b2, direct, ch2, s2, path2, res2, e2)
    ensures path1 == path2 && res1 == res2
    decreases b1 + b2, 1, 0
  {
    var h1, i1, c1 :| |h1| == |direct.recursion|
      && RecursedWith(prims, index, canonical, b1, direct, h1, i1, c1) && c1[0] == s1 && c1[|h1|] == e1
      && path1 == direct.path + RecursionText(direct.issuer, direct.recursion, h1) && res1 == i1[|h1|];
    var h2, i2, c2 :| |h2| == |direct.recursion|
      && RecursedWith(prims, index, canonical, b2, direct, h2, i2, c2) && c2[0] == s2 && c2[|h2|] == e2
      && path2 == direct.path + RecursionText(direct.issuer, direct.recursion, h2) && res2 == i2[|h2|];
    RecursedWithAgree(prims, index, canonical, b1, b2, direct, h1, i1, c1, h2, i2, c2, |h1|);
    assert h1 == h1[..|h1|] && h2 == h2[..|h2|] && i1 == i1[..|h1| + 1] && i2 == i2[..|h2| + 1];
  }

  /** A permutation abandoned in one exploration would have completed above
      anything its partial path was already above, in any other exploration. */
  lemma PrunedBelowCompleted(prims: Primitives, index: Index, canonical: Issuer, b1: nat, b2: nat, issuer: Issuer,
                             perm: seq<string>, ch1: string, s1: int, partial: string, e1: int,
                             ch2: string, s2: int, path: string, res: Issuer, e2: int, chosen: string)
    requires issuer.Valid()
    requires OutcomeOf(prims, index, canonical, b1, issuer, perm, ch1, s1, Pruned(partial), e1)
    requires OutcomeOf(prims, index, canonical, b2, issuer, perm, ch2, s2, Complete(path, res), e2)
    requires Greater(partial, chosen)
    ensures Greater(path, chosen)
    decreases b1 + b2, 1, 1
  {
    var direct := DirectPath(canonical, issuer, perm);
    assert CompletedWith(prims, index, canonical, b2, direct, ch2, s2, path, res, e2);
    if PrunedInDirect(canonical, issuer, perm, ch1, partial) {
      CompletedExtendsDirect(prims, index, canonical, b2, direct, ch2, s2, path, res, e2);
      var i :| 1 <= i <= |perm| && partial == DirectPath(canonical, issuer, perm[..i]).path;
      DirectPathPrefix(canonical, issuer, perm, i);
      PrefixTransitive(partial, direct.path, path);
      GreaterPrefix(partial, path, chosen);
    } else {
      assert PrunedInRecursion(prims, index, canonical, b1, direct, ch1, s1, partial, e1);
      RecursionPrunedBelow(prims, index, canonical, b1, b2, direct, ch1, s1, partial, e1, ch2, s2, path, res, e2, chosen);
    }
  }

  /** The same, for a permutation abandoned in the second loop: the recursions it
      made are those the completed one made first. */
  lemma RecursionPrunedBelow(prims: Primitives, index: Index, canonical: Issuer, b1: nat, b2: nat, direct: DirectStep,
                             ch1: string, s1: int, partial: string, e1: int,
                             ch2: string, s2: int, path: string, res: Issuer, e2: int, chosen: string)
    requires direct.issuer.Valid()
    requires PrunedInRecursion(prims, index, canonical, b1, direct, ch1, s1, partial, e1)
    requires CompletedWith(prims, index, canonical, b2, direct, ch2, s2, path, res, e2)
    requires Greater(partial, chosen)
    ensures Greater(path, chosen)
    decreases b1 + b2, 1, 0
  {
    var h2, i2, c2 :| |h2| == |direct.recursion|
      && RecursedWith(prims, index, canonical, b2, direct, h2, i2, c2) && c2[0] == s2 && c2[|h2|] == e2
      && path == direct.path + RecursionText(direct.issuer, direct.recursion, h2) && res == i2[|h2|];
    var hq, iq, cq :| 1 <= |hq| <= |direct.recursion|
      && RecursedWith(prims, index, canonical, b1, direct, hq, iq, cq) && cq[0] == s1 && cq[|hq|] == e1
      && partial == direct.path + RecursionText(direct.issuer, direct.recursion[..|hq|], hq);
    RecursedWithAgree(prims, index, canonical, b1, b2, direct, hq, iq, cq, h2, i2, c2, |hq|);
    assert hq == hq[..|hq|];
    PrunedInRecursionNeverChosen(direct, |hq|, h2, chosen);
  }

  /** Two runs of the second loop over the same permutation agree on their first
      `n` hashes and on the issuers before and after them. */
  lemma {:induction false} RecursedWithAgree(prims: Primitives, index: Index, canonical: Issuer, b1: nat, b2: nat,
                                             direct: DirectStep, h1: seq<string>, i1: seq<Issuer>, c1: seq<int>,
                                             h2: seq<string>, i2: seq<Issuer>, c2: seq<int>, n: nat)
    requires RecursedWith(prims, index, canonical, b1, direct, h1, i1, c1)
    requires RecursedWith(prims, index, canonical, b2, direct, h2, i2, c2)
    requires n <= |h1| && n <= |h2|
    ensures h1[..n] == h2[..n] && i1[..n + 1] == i2[..n + 1]
    decreases b1 + b2, 0, n
  {
    if n > 0 {
      var k := n - 1;
      RecursedWithAgree(prims, index, canonical, b1, b2, direct, h1, i1, c1, h2, i2, c2, k);
      assert i1[k] == i1[..k + 1][k] && i2[k] == i2[..k + 1][k];
      assert RecursedAt(prims, index, canonical, b1, direct, h1, i1, c1, k);
      assert RecursedAt(prims, index, canonical, b2, direct, h2, i2, c2, k);
      NDegreeCallUnique(prims, index, canonical, b1, b2, direct.recursion[k], i1[k],
                        c1[k], (h1[k], i1[k + 1]), c1[k + 1], c2[k], (h2[k], i2[k + 1]), c2[k + 1]);
      assert h1[..n] == h1[..k] + [h1[k]] && h2[..n] == h2[..k] + [h2[k]];
      assert i1[..n + 1] == i1[..k + 1] + [i1[k + 1]] && i2[..n + 1] == i2[..k + 1] + [i2[k + 1]];
    }
  }

  // ---------------------------------------------------------------------------
  // The budget is spent deterministically
  //
  // Pruning depends only on the path chosen so far, so two computations of the
  // same N-degree hash from the same budget explore the same permutations, make
  // the same recursive calls and leave the counter at the same value; and a
  // computation that succeeds from some budget cannot also run out from it.

  /** Two N-degree hashes of the same node under the same issuer, called with the
      same budget, have the same trace: the same outcomes for every permutation,
      pruned at the same place, and the same counter after every group. */
  lemma {:induction false} NDegreeTraceUnique(prims: Primitives, index: Index, canonical: Issuer, identifier: string,
                                              issuer: Issuer, r1: (string, Issuer), t1: NDegreeTrace,
                                              r2: (string, Issuer), t2: NDegreeTrace)
    requires NDegreeHashed(prims, index, canonical, identifier, issuer, r1, t1)
    requires NDegreeHashed(prims, index, canonical, identifier, issuer, r2, t2)
    requires t1.budget == t2.budget
    ensures t1 == t2 && r1 == r2
    decreases t1.budget, 6, 0
  {
    var m := RelatedMap(prims, index, canonical, issuer, identifier);
    GroupsTraceUnique(prims, index, canonical, m, issuer, t1, t2);
  }

  /** The groups of one related map, chosen from the same issuer and budget over
      the same keys, have the same trace. */
  lemma {:induction false} GroupsTraceUnique(prims: Primitives, index: Index, canonical: Issuer, m: Multimap<string, string>,
                                             issuer: Issuer, t1: NDegreeTrace, t2: NDegreeTrace)
    requires GroupsChosen(prims, index, canonical, m, issuer, t1)
    requires GroupsChosen(prims, index, canonical, m, issuer, t2)
    requires t1.keys == t2.keys && t1.budget == t2.budget
    ensures t1 == t2
    decreases t1.budget, 5, |t1.keys|
  {
    if t1.keys != [] {
      var n := |t1.keys| - 1;
      var u1, u2 := TracePrefix(t1, n), TracePrefix(t2, n);
      GroupsTraceUnique(prims, index, canonical, m, issuer, u1, u2);
      assert t1.issuers[n] == u1.issuers[n] && t2.issuers[n] == u2.issuers[n];
      assert t1.counters[n] == u1.counters[n] && t2.counters[n] == u2.counters[n];
      GroupTraceUnique(prims, index, canonical, t1.budget, m.entries[t1.keys[n]], t1.issuers[n], t1.counters[n],
                       t1.outcomes[n], t1.marks[n], t1.paths[n], t1.issuers[n + 1], t1.counters[n + 1],
                       t2.outcomes[n], t2.marks[n], t2.paths[n], t2.issuers[n + 1], t2.counters[n + 1]);
      TraceFromPrefix(t1, t2);
    }
  }

  /** Two traces of the same length that agree on all but their last group, and
      on that group, are the same. */
  lemma TraceFromPrefix(t1: NDegreeTrace, t2: NDegreeTrace)
    requires t1.budget == t2.budget && t1.keys == t2.keys && |t1.keys| >= 1
    requires |t1.paths| == |t1.keys| && |t1.outcomes| == |t1.keys| && |t1.marks| == |t1.keys|
    requires |t2.paths| == |t2.keys| && |t2.outcomes| == |t2.keys| && |t2.marks| == |t2.keys|
    requires |t1.issuers| == |t1.keys| + 1 && |t1.counters| == |t1.keys| + 1
    requires |t2.issuers| == |t2.keys| + 1 && |t2.counters| == |t2.keys| + 1
    requires TracePrefix(t1, |t1.keys| - 1) == TracePrefix(t2, |t1.keys| - 1)
    requires var n := |t1.keys| - 1;
      && t1.paths[n] == t2.paths[n] && t1.outcomes[n] == t2.outcomes[n] && t1.marks[n] == t2.marks[n]
      && t1.issuers[n + 1] == t2.issuers[n + 1] && t1.counters[n + 1] == t2.counters[n + 1]
    ensures t1 == t2
  {
    var n := |t1.keys| - 1;
    var u1, u2 := TracePrefix(t1, n), TracePrefix(t2, n);
    assert t1.paths == u1.paths + [t1.paths[n]] && t2.paths == u2.paths + [t2.paths[n]];
    assert t1.outcomes == u1.outcomes + [t1.outcomes[n]] && t2.outcomes == u2.outcomes + [t2.outcomes[n]];
    assert t1.marks == u1.marks + [t1.marks[n]] && t2.marks == u2.marks + [t2.marks[n]];
    assert t1.issuers == u1.issuers + [t1.issuers[n + 1]] && t2.issuers == u2.issuers + [t2.issuers[n + 1]];
    assert t1.counters == u1.counters + [t1.counters[n + 1]] && t2.counters == u2.counters + [t2.counters[n + 1]];
  }

  /** One group explored twice from the same issuer and counter: the same
      outcomes, the same counters between them, the same choice. */
  lemma GroupTraceUnique(prims: Primitives, index: Index, canonical: Issuer, b: nat, group: seq<string>,
                         issuer: Issuer, before: int,
                         o1: seq<PathOutcome>, m1: seq<int>, p1: string, c1: Issuer, e1: int,
                         o2: seq<PathOutcome>, m2: seq<int>, p2: string, c2: Issuer, e2: int)
    requires GroupChosen(prims, index, canonical, b, group, issuer, before, o1, m1, p1, c1, e1)
    requires GroupChosen(prims, index, canonical, b, group, issuer, before, o2, m2, p2, c2, e2)
    ensures o1 == o2 && m1 == m2 && p1 == p2 && c1 == c2 && e1 == e2
    decreases b, 4, 0
  {
    var perms := Permutations.Permutations(group, |group|);
    OutcomesPrefixUnique(prims, index, canonical, b, issuer, perms, o1, m1, o2, m2, |o1|);
    assert o1 == o1[..|o1|] && o2 == o2[..|o2|] && m1 == m1[..|o1| + 1] && m2 == m2[..|o2| + 1];
    GroupChoiceUnique(prims, index, canonical, b, b, group, issuer, before, o1, m1, p1, c1, e1, before, o2, m2, p2, c2, e2);
  }

  /** The first `n` permutations of a group, explored twice from the same counter
      without running out, end the same way, with the same counters. */
  lemma {:induction false} OutcomesPrefixUnique(prims: Primitives, index: Index, canonical: Issuer, b: nat, issuer: Issuer,
                                                perms: seq<seq<string>>, o1: seq<PathOutcome>, m1: seq<int>,
                                                o2: seq<PathOutcome>, m2: seq<int>, n: nat)
    requires issuer.Valid()
    requires OutcomesOf(prims, index, canonical, b, issuer, perms, o1, m1) && NoneFailed(o1)
    requires OutcomesOf(prims, index, canonical, b, issuer, perms, o2, m2) && NoneFailed(o2)
    requires m1[0] == m2[0] && n <= |o1| && n <= |o2|
    ensures o1[..n] == o2[..n] && m1[..n + 1] == m2[..n + 1]
    decreases b, 3, n
  {
    if n > 0 {
      var j := n - 1;
      OutcomesPrefixUnique(prims, index, canonical, b, issuer, perms, o1, m1, o2, m2, j);
      OutcomeNextUnique(prims, index, canonical, b, issuer, perms, o1, m1, o2, m2, j);
      PrefixesExtend(o1, o2, j);
      PrefixesExtend(m1, m2, j + 1);
    }
  }

  /** Outcome `j` of two explorations that agree before it is the same, and so
      is the counter after it. */
  lemma OutcomeNextUnique(prims: Primitives, index: Index, canonical: Issuer, b: nat, issuer: Issuer,
                          perms: seq<seq<string>>, o1: seq<PathOutcome>, m1: seq<int>,
                          o2: seq<PathOutcome>, m2: seq<int>, j: nat)
    requires issuer.Valid()
    requires OutcomesOf(prims, index, canonical, b, issuer, perms, o1, m1) && NoneFailed(o1)
    requires OutcomesOf(prims, index, canonical, b, issuer, perms, o2, m2) && NoneFailed(o2)
    requires j < |o1| && j < |o2| && o1[..j] == o2[..j] && m1[..j + 1] == m2[..j + 1]
    ensures o1[j] == o2[j] && m1[j + 1] == m2[j + 1]
    decreases b, 3, 0
  {
    assert m1[j] == m1[..j + 1][j] && m2[j] == m2[..j + 1][j];
    assert OutcomeAt(prims, index, canonical, b, issuer, perms, o1, m1, j);
    assert OutcomeAt(prims, index, canonical, b, issuer, perms, o2, m2, j);
    OutcomeUnique(prims, index, canonical, b, issuer, perms[j], RunningChoice(o1[..j]), m1[j],
                  o1[j], m1[j + 1], o2[j], m2[j + 1]);
  }

  /** Two sequences that agree on their first `j` elements and on the next one
      agree on their first `j + 1`. */
  lemma PrefixesExtend<T>(a: seq<T>, b: seq<T>, j: nat)
    requires j < |a| && j < |b| && a[..j] == b[..j] && a[j] == b[j]
    ensures a[..j + 1] == b[..j + 1]
  {
    assert a[..j + 1] == a[..j] + [a[j]] && b[..j + 1] == b[..j] + [b[j]];
  }

  /** One permutation explored twice, with the same chosen path and counter and
      without running out, ends the same way: abandoned at the same prefix of the
      same loop, or completed with the same path and issuer; and the counter
      after it is the same. */
  lemma OutcomeUnique(prims: Primitives, index: Index, canonical: Issuer, b: nat, issuer: Issuer, perm: seq<string>,
                      chosen: string, before: int, o1: PathOutcome, a1: int, o2: PathOutcome, a2: int)
    requires issuer.Valid() && !o1.Failed? && !o2.Failed?
    requires OutcomeOf(prims, index, canonical, b, issuer, perm, chosen, before, o1, a1)
    requires OutcomeOf(prims, index, canonical, b, issuer, perm, chosen, before, o2, a2)
    ensures o1 == o2 && a1 == a2
    decreases b, 2, 1
  {
    var direct := DirectPath(canonical, issuer, perm);
    var d1 := o1.Pruned? && PrunedInDirect(canonical, issuer, perm, chosen, o1.partial) && a1 == before;
    var d2 := o2.Pruned? && PrunedInDirect(canonical, issuer, perm, chosen, o2.partial) && a2 == before;
    if d1 || d2 {
      DirectOutcomeUnique(prims, index, canonical, b, issuer, perm, chosen, before, o1, a1, o2, a2);
    } else {
      var h1, i1, c1 := Explored(prims, index, canonical, b, issuer, perm, chosen, before, o1, a1);
      var h2, i2, c2 := Explored(prims, index, canonical, b, issuer, perm, chosen, before, o2, a2);
      RecursionOutcomeUnique(prims, index, canonical, b, direct, chosen, before, o1, a1, h1, i1, c1, o2, a2, h2, i2, c2);
    }
  }

  /** Two explorations past the first loop, from the same counter and against
      the same chosen path, end the same way: their recursions agree as far as
      both go, and neither can be abandoned before the other or complete where
      the other was abandoned. */
  lemma RecursionOutcomeUnique(prims: Primitives, index: Index, canonical: Issuer, b: nat, direct: DirectStep,
                               chosen: string, before: int,
                               o1: PathOutcome, a1: int, h1: seq<string>, i1: seq<Issuer>, c1: seq<int>,
                               o2: PathOutcome, a2: int, h2: seq<string>, i2: seq<Issuer>, c2: seq<int>)
    requires direct.issuer.Valid()
    requires ExploredWith(prims, index, canonical, b, direct, chosen, before, o1, a1, h1, i1, c1)
    requires ExploredWith(prims, index, canonical, b, direct, chosen, before, o2, a2, h2, i2, c2)
    ensures o1 == o2 && a1 == a2
    decreases b, 2, 0
  {
    var q := if |h1| <= |h2| then |h1| else |h2|;
    RecursedWithUnique(prims, index, canonical, b, direct, h1, i1, c1, h2, i2, c2, q);
    if |h1| < |h2| {
      AbandonedAt(direct, h1, h2, chosen, o1.partial);
    } else if |h2| < |h1| {
      AbandonedAt(direct, h2, h1, chosen, o2.partial);
    } else {
      assert h1 == h1[..q] && h2 == h2[..q] && i1 == i1[..q + 1] && i2 == i2[..q + 1];
      assert c1[q] == c1[..q + 1][q] && c2[q] == c2[..q + 1][q];
    }
  }

  /** OutcomeUnique when one of the explorations was abandoned in the first
      loop: the other was too, at the same first prefix that meets the test. */
  lemma DirectOutcomeUnique(prims: Primitives, index: Index, canonical: Issuer, b: nat, issuer: Issuer,
                            perm: seq<string>, chosen: string, before: int,
                            o1: PathOutcome, a1: int, o2: PathOutcome, a2: int)
    requires issuer.Valid() && !o1.Failed? && !o2.Failed?
    requires OutcomeOf(prims, index, canonical, b, issuer, perm, chosen, before, o1, a1)
    requires OutcomeOf(prims, index, canonical, b, issuer, perm, chosen, before, o2, a2)
    requires || (o1.Pruned? && PrunedInDirect(canonical, issuer, perm, chosen, o1.partial) && a1 == before)
             || (o2.Pruned? && PrunedInDirect(canonical, issuer, perm, chosen, o2.partial) && a2 == before)
    ensures o1 == o2 && a1 == a2
  {
    var d1 := o1.Pruned? && PrunedInDirect(canonical, issuer, perm, chosen, o1.partial) && a1 == before;
    var d2 := o2.Pruned? && PrunedInDirect(canonical, issuer, perm, chosen, o2.partial) && a2 == before;
    if d1 && d2 {
      var i1 :| 1 <= i1 <= |perm| && o1.partial == DirectPath(canonical, issuer, perm[..i1]).path
        && Abandons(o1.partial, chosen) && DirectUnpruned(canonical, issuer, perm, chosen, i1 - 1);
      var i2 :| 1 <= i2 <= |perm| && o2.partial == DirectPath(canonical, issuer, perm[..i2]).path
        && Abandons(o2.partial, chosen) && DirectUnpruned(canonical, issuer, perm, chosen, i2 - 1);
      assert i1 == i2;
    } else if d1 {
      DirectPrunedNotUnpruned(canonical, issuer, perm, chosen, o1.partial);
    } else {
      DirectPrunedNotUnpruned(canonical, issuer, perm, chosen, o2.partial);
    }
  }

  /** The second loop of a permutation that ended with `o` without failing,
      from counter `before` to `a`: the hashes, issuers and counters of its
      recursions satisfy RecursedWith; for a completed path they cover the
      recursion list and none of their paths met the test; for an abandoned
      path they stop at the first recursion after which the path met it. */
  ghost predicate ExploredWith(prims: Primitives, index: Index, canonical: Issuer, b: nat, direct: DirectStep,
                               chosen: string, before: int, o: PathOutcome, a: int,
                               h: seq<string>, iss: seq<Issuer>, c: seq<int>)
    requires direct.issuer.Valid()
  {
    && !o.Failed?
    && RecursedWith(prims, index, canonical, b, direct, h, iss, c) && c[0] == before && c[|h|] == a
    && (o.Pruned? ==>
          && 1 <= |h| <= |direct.recursion| && o.partial == RecursionPath(direct, h, |h|)
          && Abandons(o.partial, chosen) && RecursionUnpruned(direct, h, chosen, |h| - 1))
    && (o.Complete? ==>
          && |h| == |direct.recursion| && o.path == RecursionPath(direct, h, |h|) && o.issuer == iss[|h|]
          && RecursionUnpruned(direct, h, chosen, |h|))
  }

  /** The second loop of an exploration that the first loop did not abandon:
      the hashes, issuers and counters of its recursions, which satisfy
      RecursedWith; all of them for a completed path, which none of the paths
      along the way met the test; for an abandoned path, up to the first
      recursion after which the path met it. */
  lemma Explored(prims: Primitives, index: Index, canonical: Issuer, b: nat, issuer: Issuer, perm: seq<string>,
                 chosen: string, before: int, o: PathOutcome, a: int)
      returns (h: seq<string>, iss: seq<Issuer>, c: seq<int>)
    requires issuer.Valid() && !o.Failed?
    requires OutcomeOf(prims, index, canonical, b, issuer, perm, chosen, before, o, a)
    requires !(o.Pruned? && PrunedInDirect(canonical, issuer, perm, chosen, o.partial) && a == before)
    ensures ExploredWith(prims, index, canonical, b, DirectPath(canonical, issuer, perm), chosen, before, o, a, h, iss, c)
  {
    var direct := DirectPath(canonical, issuer, perm);
    if o.Pruned? {
      h, iss, c := ExploredPruned(prims, index, canonical, b, direct, chosen, before, o.partial, a);
    } else {
      h, iss, c := ExploredComplete(prims, index, canonical, b, direct, chosen, before, o.path, o.issuer, a);
    }
  }

  /** The recursions of a second loop abandoned with `partial`. */
  lemma ExploredPruned(prims: Primitives, index: Index, canonical: Issuer, b: nat, direct: DirectStep,
                       chosen: string, before: int, partial: string, a: int)
      returns (h: seq<string>, iss: seq<Issuer>, c: seq<int>)
    requires direct.issuer.Valid()
    requires PrunedInRecursion(prims, index, canonical, b, direct, chosen, before, partial, a)
    ensures && RecursedWith(prims, index, canonical, b, direct, h, iss, c) && c[0] == before && c[|h|] == a
            && 1 <= |h| <= |direct.recursion| && partial == RecursionPath(direct, h, |h|)
            && Abandons(partial, chosen) && RecursionUnpruned(direct, h, chosen, |h| - 1)
  {
    h, iss, c :| && 1 <= |h| <= |direct.recursion|
      && RecursedWith(prims, index, canonical, b, direct, h, iss, c)
      && c[0] == before && c[|h|] == a
      && partial == direct.path + RecursionText(direct.issuer, direct.recursion[..|h|], h)
      && Abandons(partial, chosen) && RecursionUnpruned(direct, h, chosen, |h| - 1);
    assert h[..|h|] == h;
  }

  /** The recursions of a completed second loop. */
  lemma ExploredComplete(prims: Primitives, index: Index, canonical: Issuer, b: nat, direct: DirectStep,
                         chosen: string, before: int, path: string, result: Issuer, a: int)
      returns (h: seq<string>, iss: seq<Issuer>, c: seq<int>)
    requires direct.issuer.Valid()
    requires CompletedWith(prims, index, canonical, b, direct, chosen, before, path, result, a)
    ensures && RecursedWith(prims, index, canonical, b, direct, h, iss, c) && c[0] == before && c[|h|] == a
            && |h| == |direct.recursion| && path == RecursionPath(direct, h, |h|) && result == iss[|h|]
            && RecursionUnpruned(direct, h, chosen, |h|)
  {
    h, iss, c :| && |h| == |direct.recursion|
      && RecursedWith(prims, index, canonical, b, direct, h, iss, c)
      && c[0] == before && c[|h|] == a
      && path == direct.path + RecursionText(direct.issuer, direct.recursion, h)
      && result == iss[|h|]
      && RecursionUnpruned(direct, h, chosen, |h|);
    assert h[..|h|] == h && direct.recursion[..|h|] == direct.recursion;
  }

  /** A path abandoned after the first |short| recursions is the path after as
      many recursions of any other run of the second loop that agrees with it so
      far, which the other run therefore must have abandoned there too. */
  lemma AbandonedAt(direct: DirectStep, short: seq<string>, long: seq<string>, chosen: string, partial: string)
    requires direct.issuer.Valid() && 1 <= |short| <= |long| <= |direct.recursion|
    requires short == long[..|short|]
    requires partial == RecursionPath(direct, short, |short|) && Abandons(partial, chosen)
    ensures !RecursionUnpruned(direct, long, chosen, |long|)
    ensures |short| < |long| ==> !RecursionUnpruned(direct, long, chosen, |long| - 1)
  {
    assert short[..|short|] == short;
    assert RecursionPath(direct, long, |short|) == partial;
  }

  /** Two runs of the second loop over the same permutation, from the same
      counter, agree on their first `n` hashes and on the issuers and counters
      before and after them. */
  lemma {:induction false} RecursedWithUnique(prims: Primitives, index: Index, canonical: Issuer, b: nat,
                                              direct: DirectStep, h1: seq<string>, i1: seq<Issuer>, c1: seq<int>,
                                              h2: seq<string>, i2: seq<Issuer>, c2: seq<int>, n: nat)
    requires RecursedWith(prims, index, canonical, b, direct, h1, i1, c1)
    requires RecursedWith(prims, index, canonical, b, direct, h2, i2, c2)
    requires c1[0] == c2[0] && n <= |h1| && n <= |h2|
    ensures h1[..n] == h2[..n] && i1[..n + 1] == i2[..n + 1] && c1[..n + 1] == c2[..n + 1]
    decreases b, 1, n
  {
    if n > 0 {
      var k := n - 1;
      RecursedWithUnique(prims, index, canonical, b, direct, h1, i1, c1, h2, i2, c2, k);
      assert i1[k] == i1[..k + 1][k] && i2[k] == i2[..k + 1][k];
      assert c1[k] == c1[..k + 1][k] && c2[k] == c2[..k + 1][k];
      assert RecursedAt(prims, index, canonical, b, direct, h1, i1, c1, k);
      assert RecursedAt(prims, index, canonical, b, direct, h2, i2, c2, k);
      CallUnique(prims, index, canonical, b, direct.recursion[k], i1[k], c1[k],
                 (h1[k], i1[k + 1]), c1[k + 1], (h2[k], i2[k + 1]), c2[k + 1]);
      assert h1[..n] == h1[..k] + [h1[k]] && h2[..n] == h2[..k] + [h2[k]];
      assert i1[..n + 1] == i1[..k + 1] + [i1[k + 1]] && i2[..n + 1] == i2[..k + 1] + [i2[k + 1]];
      assert c1[..n + 1] == c1[..k + 1] + [c1[k + 1]] && c2[..n + 1] == c2[..k + 1] + [c2[k + 1]];
    }
  }

  /** A recursive call made twice from the same counter returns the same hash
      and issuer and leaves the counter at the same value. */
  lemma CallUnique(prims: Primitives, index: Index, canonical: Issuer, b: nat, identifier: string, issuer: Issuer,
                   before: int, r1: (string, Issuer), a1: int, r2: (string, Issuer), a2: int)
    requires NDegreeCall(prims, index, canonical, b, identifier, issuer, before, r1, a1)
    requires NDegreeCall(prims, index, canonical, b, identifier, issuer, before, r2, a2)
    ensures r1 == r2 && a1 == a2
    decreases b, 0, 0
  {
    var t1: NDegreeTrace :| t1.budget < b && t1.budget == before && NDegreeHashed(prims, index, canonical, identifier, issuer, r1, t1)
      && CounterAfter(t1) == a1;
    var t2: NDegreeTrace :| t2.budget < b && t2.budget == before && NDegreeHashed(prims, index, canonical, identifier, issuer, r2, t2)
      && CounterAfter(t2) == a2;
    NDegreeTraceUnique(prims, index, canonical, identifier, issuer, r1, t1, r2, t2);
  }

  // ---------------------------------------------------------------------------
  // Succeeding and running out exclude each other

  /** An N-degree hash that succeeds from some budget does not also run out from
      that budget. */
  lemma {:induction false} SucceededNotFailed(prims: Primitives, index: Index, canonical: Issuer, identifier: string,
                                              issuer: Issuer, r: (string, Issuer), t: NDegreeTrace, u: NDegreeTrace)
    requires NDegreeHashed(prims, index, canonical, identifier, issuer, r, t)
    requires u.budget == t.budget
    ensures !NDegreeFailedIn(prims, index, canonical, identifier, issuer, u)
    decreases t.budget, 6, 0
  {
    if NDegreeFailedIn(prims, index, canonical, identifier, issuer, u) {
      var m := RelatedMap(prims, index, canonical, issuer, identifier);
      GroupsSucceededNotFailed(prims, index, canonical, m, issuer, t, u);
    }
  }

  /** Groups chosen from a budget, in some order, do not also run out from that
      budget in the same order. */
  lemma GroupsSucceededNotFailed(prims: Primitives, index: Index, canonical: Issuer, m: Multimap<string, string>,
                                 issuer: Issuer, t: NDegreeTrace, u: NDegreeTrace)
    requires GroupsChosen(prims, index, canonical, m, issuer, t)
    requires u.budget == t.budget && |u.keys| <= |t.keys| && u.keys == t.keys[..|u.keys|]
    ensures !GroupsFailed(prims, index, canonical, m, issuer, u)
    decreases t.budget, 5, 0
  {
    if GroupsFailed(prims, index, canonical, m, issuer, u) {
      var n := |u.keys| - 1;
      var v := TracePrefix(t, n + 1);
      GroupsChosenPrefix(prims, index, canonical, m, issuer, t, n + 1);
      var w := TracePrefix(v, n);
      assert w.keys == u.keys[..n];
      GroupsTraceUnique(prims, index, canonical, m, issuer, w, TracePrefix(u, n));
      assert v.issuers[n] == w.issuers[n] == u.issuers[n];
      assert v.counters[n] == w.counters[n] == u.counters[n];
      assert v.keys[n] == u.keys[n];
      GroupSucceededNotFailed(prims, index, canonical, t.budget, m.entries[u.keys[n]], u.issuers[n], u.counters[n],
                              v.outcomes[n], v.marks[n], v.paths[n], v.issuers[n + 1], v.counters[n + 1],
                              u.outcomes[n], u.marks[n]);
    }
  }

  /** The first `n` groups of a trace were chosen as GroupsChosen says. */
  lemma {:induction false} GroupsChosenPrefix(prims: Primitives, index: Index, canonical: Issuer,
                                              m: Multimap<string, string>, issuer: Issuer, t: NDegreeTrace, n: nat)
    requires GroupsChosen(prims, index, canonical, m, issuer, t) && n <= |t.keys|
    ensures GroupsChosen(prims, index, canonical, m, issuer, TracePrefix(t, n))
    decreases |t.keys|
  {
    if n == |t.keys| {
      TracePrefixWhole(t);
    } else {
      var u := TracePrefix(t, |t.keys| - 1);
      GroupsChosenPrefix(prims, index, canonical, m, issuer, u, n);
      TracePrefixTwice(t, |t.keys| - 1, n);
    }
  }

  /** The prefix of a trace as long as the trace is the trace. */
  lemma TracePrefixWhole(t: NDegreeTrace)
    requires |t.paths| == |t.keys| && |t.outcomes| == |t.keys| && |t.marks| == |t.keys|
    requires |t.issuers| == |t.keys| + 1 && |t.counters| == |t.keys| + 1
    ensures TracePrefix(t, |t.keys|) == t
  {
    var n := |t.keys|;
    assert t.keys[..n] == t.keys && t.paths[..n] == t.paths && t.outcomes[..n] == t.outcomes;
    assert t.marks[..n] == t.marks && t.issuers[..n + 1] == t.issuers && t.counters[..n + 1] == t.counters;
  }

  /** A prefix of a prefix of a trace is a prefix of the trace. */
  lemma TracePrefixTwice(t: NDegreeTrace, p: nat, n: nat)
    requires n <= p <= |t.keys| && p <= |t.paths| && p <= |t.outcomes| && p <= |t.marks|
    requires p < |t.issuers| && p < |t.counters|
    ensures TracePrefix(TracePrefix(t, p), n) == TracePrefix(t, n)
  {
    assert t.keys[..p][..n] == t.keys[..n] && t.paths[..p][..n] == t.paths[..n];
    assert t.outcomes[..p][..n] == t.outcomes[..n] && t.marks[..p][..n] == t.marks[..n];
    assert t.issuers[..p + 1][..n + 1] == t.issuers[..n + 1] && t.counters[..p + 1][..n + 1] == t.counters[..n + 1];
  }

  /** A group whose permutations were all explored does not also run out from
      the same issuer and counter. */
  lemma GroupSucceededNotFailed(prims: Primitives, index: Index, canonical: Issuer, b: nat, group: seq<string>,
                                issuer: Issuer, before: int,
                                o1: seq<PathOutcome>, m1: seq<int>, p: string, c: Issuer, e: int,
                                o2: seq<PathOutcome>, m2: seq<int>)
    requires GroupChosen(prims, index, canonical, b, group, issuer, before, o1, m1, p, c, e)
    ensures !GroupFails(prims, index, canonical, b, group, issuer, before, o2, m2)
    decreases b, 4, 0
  {
    if GroupFails(prims, index, canonical, b, group, issuer, before, o2, m2) {
      var perms := Permutations.Permutations(group, |group|);
      var n := |o2| - 1;
      LastSucceededNotFailed(prims, index, canonical, b, issuer, perms, o1, m1, o2[..n], m2, o2[n]);
    }
  }

  /** Permutations explored from the same counter, the first run with none
      failing and going further: the next outcome of the second run, against the
      path its outcomes so far chose, does not fail. */
  lemma LastSucceededNotFailed(prims: Primitives, index: Index, canonical: Issuer, b: nat, issuer: Issuer,
                               perms: seq<seq<string>>, o1: seq<PathOutcome>, m1: seq<int>,
                               o2: seq<PathOutcome>, m2: seq<int>, last: PathOutcome)
    requires issuer.Valid()
    requires OutcomesOf(prims, index, canonical, b, issuer, perms, o1, m1) && NoneFailed(o1)
    requires OutcomesOf(prims, index, canonical, b, issuer, perms, o2, m2) && NoneFailed(o2)
    requires m1[0] == m2[0] && |o2| < |o1|
    ensures !(last.Failed? && OutcomeOf(prims, index, canonical, b, issuer, perms[|o2|], RunningChoice(o2), m2[|o2|], last, -1))
    decreases b, 3, |o1| + 1
  {
    var n := |o2|;
    OutcomesPrefixUnique(prims, index, canonical, b, issuer, perms, o1, m1, o2, m2, n);
    assert o2[..n] == o2 && o1[..n] == o2;
    assert m1[n] == m1[..n + 1][n] && m2[n] == m2[..n + 1][n];
    NextSucceededNotFailed(prims, index, canonical, b, issuer, perms, o1, m1, n);
  }

  /** Outcome `n` of permutations explored with none failing: its permutation,
      explored against the path the outcomes before it chose and from the
      counter they left, does not also run out. */
  lemma NextSucceededNotFailed(prims: Primitives, index: Index, canonical: Issuer, b: nat, issuer: Issuer,
                               perms: seq<seq<string>>, o1: seq<PathOutcome>, m1: seq<int>, n: nat)
    requires issuer.Valid()
    requires OutcomesOf(prims, index, canonical, b, issuer, perms, o1, m1) && NoneFailed(o1) && n < |o1|
    ensures !(&& DirectUnpruned(canonical, issuer, perms[n], RunningChoice(o1[..n]), |perms[n]|)
              && FailedInRecursion(prims, index, canonical, b, DirectPath(canonical, issuer, perms[n]),
                                   RunningChoice(o1[..n]), m1[n]))
    decreases b, 3, 0
  {
    assert OutcomeAt(prims, index, canonical, b, issuer, perms, o1, m1, n);
    OutcomeSucceededNotFailed(prims, index, canonical, b, issuer, perms[n], RunningChoice(o1[..n]), m1[n], o1[n], m1[n + 1]);
  }

  /** A permutation explored without running out does not also run out with the
      same chosen path and counter. */
  lemma OutcomeSucceededNotFailed(prims: Primitives, index: Index, canonical: Issuer, b: nat, issuer: Issuer,
                                  perm: seq<string>, chosen: string, before: int, o: PathOutcome, a: int)
    requires issuer.Valid() && !o.Failed?
    requires OutcomeOf(prims, index, canonical, b, issuer, perm, chosen, before, o, a)
    ensures !(&& DirectUnpruned(canonical, issuer, perm, chosen, |perm|)
              && FailedInRecursion(prims, index, canonical, b, DirectPath(canonical, issuer, perm), chosen, before))
    decreases b, 2, 0
  {
    var direct := DirectPath(canonical, issuer, perm);
    if o.Pruned? && PrunedInDirect(canonical, issuer, perm, chosen, o.partial) && a == before {
      DirectPrunedNotUnpruned(canonical, issuer, perm, chosen, o.partial);
    } else {
      var h, iss, c := Explored(prims, index, canonical, b, issuer, perm, chosen, before, o, a);
      RecursionSucceededNotFailed(prims, index, canonical, b, direct, chosen, h, iss, c);
    }
  }

  /** A permutation abandoned in the first loop met the test at some prefix. */
  lemma DirectPrunedNotUnpruned(canonical: Issuer, issuer: Issuer, perm: seq<string>, chosen: string, partial: string)
    requires issuer.Valid() && PrunedInDirect(canonical, issuer, perm, chosen, partial)
    ensures !DirectUnpruned(canonical, issuer, perm, chosen, |perm|)
  {
    var i :| 1 <= i <= |perm| && partial == DirectPath(canonical, issuer, perm[..i]).path && Abandons(partial, chosen);
  }

  /** A second loop that recursed on every node, or was abandoned after some
      recursion, does not also run out from the same counter. */
  lemma RecursionSucceededNotFailed(prims: Primitives, index: Index, canonical: Issuer, b: nat, direct: DirectStep,
                                    chosen: string, h: seq<string>, iss: seq<Issuer>, c: seq<int>)
    requires direct.issuer.Valid() && RecursedWith(prims, index, canonical, b, direct, h, iss, c)
    requires || |h| == |direct.recursion|
             || (1 <= |h| && Abandons(RecursionPath(direct, h, |h|), chosen))
    ensures !FailedInRecursion(prims, index, canonical, b, direct, chosen, c[0])
    decreases b, 1, 1
  {
    if FailedInRecursion(prims, index, canonical, b, direct, chosen, c[0]) {
      var hf, if_, cf :| && |hf| < |direct.recursion|
        && RecursedWith(prims, index, canonical, b, direct, hf, if_, cf)
        && cf[0] == c[0]
        && RecursionUnpruned(direct, hf, chosen, |hf|)
        && NDegreeFails(prims, index, canonical, b, direct.recursion[|hf|], if_[|hf|], cf[|hf|]);
      var p := |hf|;
      if |h| <= p {
        RecursedWithUnique(prims, index, canonical, b, direct, h, iss, c, hf, if_, cf, |h|);
        assert h == h[..|h|];
        AbandonedAt(direct, h, hf, chosen, RecursionPath(direct, h, |h|));
      } else {
        RecursedWithUnique(prims, index, canonical, b, direct, h, iss, c, hf, if_, cf, p);
        assert iss[p] == iss[..p + 1][p] && if_[p] == if_[..p + 1][p];
        assert c[p] == c[..p + 1][p] && cf[p] == cf[..p + 1][p];
        assert RecursedAt(prims, index, canonical, b, direct, h, iss, c, p);
        CallSucceededNotFailed(prims, index, canonical, b, direct.recursion[p], iss[p], c[p], (h[p], iss[p + 1]), c[p + 1]);
      }
    }
  }

  /** A recursive call that returns does not also run out from the same counter. */
  lemma CallSucceededNotFailed(prims: Primitives, index: Index, canonical: Issuer, b: nat, identifier: string,
                               issuer: Issuer, before: int, r: (string, Issuer), a: int)
    requires NDegreeCall(prims, index, canonical, b, identifier, issuer, before, r, a)
    ensures !NDegreeFails(prims, index, canonical, b, identifier, issuer, before)
    decreases b, 1, 0
  {
    var t: NDegreeTrace :| t.budget < b && t.budget == before && NDegreeHashed(prims, index, canonical, identifier, issuer, r, t)
      && CounterAfter(t) == a;
    forall u: NDegreeTrace | u.budget < b && u.budget == before
      ensures !NDegreeFailedIn(prims, index, canonical, identifier, issuer, u)
    {
      SucceededNotFailed(prims, index, canonical, identifier, issuer, r, t, u);
    }
  }

  /** The N-degree hash called with the counter at `before` does not both
      succeed and run out: a trace of a success from that counter excludes every
      trace of a failure from it, including running out at once. */
  lemma NDegreeSucceededNotFailed(prims: Primitives, index: Index, canonical: Issuer, identifier: string,
                                  issuer: Issuer, before: int, r: (string, Issuer), t: NDegreeTrace, u: NDegreeTrace)
    requires NDegreeHashed(prims, index, canonical, identifier, issuer, r, t) && t.budget == before
    ensures !NDegreeFailed(prims, index, canonical, identifier, issuer, before, u)
  {
    if u.budget == before {
      SucceededNotFailed(prims, index, canonical, identifier, issuer, r, t, u);
    }
  }
}
