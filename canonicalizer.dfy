/** RdfCanonicalizer: the RDF Dataset Canonicalization algorithm (RDFC-1.0) over a
    list of graphs. The object holds the canonical issuer, the blank-node-to-quads
    map, the hash-to-blank-nodes map and the N-degree recursion budget, and
    Canonicalize updates them as it goes. */
module Canonicalization {
  import opened Wrappers
  import opened Sequences
  import opened Ordinal
  import opened Hashing
  import opened Rdf
  import opened Issuers
  import opened Multimaps
  import opened Permutations
  import opened FirstDegree
  import opened Related
  import opened Relabelling

  /** The prefix of canonical labels: they read "_:c14n0", "_:c14n1", ... */
  const CanonicalIdentifier := "c14n"

  /** The text a canonical label starts with; the deep pass skips identifiers
      that start with it. */
  const CanonicalPrefix := "_:" + CanonicalIdentifier

  /** How many N-degree hashes one canonicaliser may compute. */
  const RecursionLimit := 1000

  /** `text` begins with `prefix`, character by character (String.StartsWith is
      culture-sensitive; the difference is admitted in the README). */
  predicate StartsWith(text: string, prefix: string) {
    |prefix| <= |text| && text[..|prefix|] == prefix
  }

  /** The N-degree hash of one result of the deep pass, its sort key. */
  function ResultHash(result: (string, Issuer)): string {
    result.0
  }

  /** The identifiers of a group that the deep pass hashes, in their order in the
      group: those that do not read like a canonical label. */
  function Hashable(group: seq<string>): (h: seq<string>)
    ensures |h| <= |group|
    ensures forall v :: v in h <==> v in group && !StartsWith(v, CanonicalPrefix)
  {
    if group == [] then []
    else
      var n := |group| - 1;
      assert group == group[..n] + [group[n]];
      Hashable(group[..n]) + (if StartsWith(group[n], CanonicalPrefix) then [] else [group[n]])
  }

  /** The temporary issuer the deep pass hashes `id` with: a fresh issuer with the
      temporary prefix that has labelled `id` and nothing else. */
  function TempIssuer(prims: Primitives, id: string): (t: Issuer)
    ensures t.Valid() && t.prefix == prims.tempPrefix && t.issued == [id]
  {
    NewIssuer(prims.tempPrefix).GenerateBlankNodeIdentifier(id).0
  }

  /** `result` is the N-degree hash of `id` under its temporary issuer, as `trace`
      records it, with an issuer grown from the temporary one. */
  ghost predicate MemberHashed(prims: Primitives, index: Index, canonical: Issuer, id: string,
                               result: (string, Issuer), trace: NDegreeTrace)
  {
    && GrownFrom(result.1, TempIssuer(prims, id), index)
    && NDegreeHashed(prims, index, canonical, id, TempIssuer(prims, id), result, trace)
  }

  /** Result `j` (with trace `j`) is MemberHashed for identifier `j`, for all of `ids`. */
  ghost predicate MembersHashed(prims: Primitives, index: Index, canonical: Issuer, ids: seq<string>,
                                results: seq<(string, Issuer)>, traces: seq<NDegreeTrace>)
  {
    && |results| == |ids| && |traces| == |ids|
    && forall j {:trigger MemberHashed(prims, index, canonical, ids[j], results[j], traces[j])} ::
         0 <= j < |ids| ==> MemberHashed(prims, index, canonical, ids[j], results[j], traces[j])
  }

  /** One more identifier of a group: one that reads like a canonical label is not
      hashable, any other one is. */
  lemma HashableStep(group: seq<string>, k: nat)
    requires k < |group|
    ensures StartsWith(group[k], CanonicalPrefix) ==> Hashable(group[..k + 1]) == Hashable(group[..k])
    ensures !StartsWith(group[k], CanonicalPrefix) ==> Hashable(group[..k + 1]) == Hashable(group[..k]) + [group[k]]
  {
    assert group[..k + 1][..k] == group[..k];
  }

  /** Hashing one more identifier extends the results and traces by its own. */
  lemma MembersHashedAppend(prims: Primitives, index: Index, canonical: Issuer, ids: seq<string>, id: string,
                            results: seq<(string, Issuer)>, traces: seq<NDegreeTrace>,
                            result: (string, Issuer), trace: NDegreeTrace)
    requires MembersHashed(prims, index, canonical, ids, results, traces)
    requires MemberHashed(prims, index, canonical, id, result, trace)
    ensures MembersHashed(prims, index, canonical, ids + [id], results + [result], traces + [trace])
  {
    var ids', results', traces' := ids + [id], results + [result], traces + [trace];
    forall j | 0 <= j < |ids'|
      ensures MemberHashed(prims, index, canonical, ids'[j], results'[j], traces'[j])
    {
      if j < |ids| {
        assert ids'[j] == ids[j] && results'[j] == results[j] && traces'[j] == traces[j];
        assert MemberHashed(prims, index, canonical, ids[j], results[j], traces[j]);
      } else {
        assert ids'[j] == id && results'[j] == result && traces'[j] == trace;
      }
    }
  }

  /** Every identifier the results' issuers mapped is a blank node of the index,
      and every hashable one of `ids` is among them. */
  ghost predicate MembersCovered(index: Index, ids: seq<string>, results: seq<(string, Issuer)>) {
    && (forall x :: x in MappedIdentifiersOf(results) ==> x in index.entries)
    && (forall v :: v in ids && !StartsWith(v, CanonicalPrefix) ==> v in MappedIdentifiersOf(results))
  }

  /** One turn of the loop over a group's identifiers that skips an identifier
      reading like a canonical label. */
  lemma MembersSkipStep(prims: Primitives, index: Index, canonical: Issuer, group: seq<string>, k: nat,
                        results: seq<(string, Issuer)>, traces: seq<NDegreeTrace>)
    requires k < |group| && StartsWith(group[k], CanonicalPrefix)
    requires MembersCovered(index, group[..k], results)
    requires MembersHashed(prims, index, canonical, Hashable(group[..k]), results, traces)
    ensures MembersCovered(index, group[..k + 1], results)
    ensures MembersHashed(prims, index, canonical, Hashable(group[..k + 1]), results, traces)
  {
    HashableStep(group, k);
    assert group[..k + 1] == group[..k] + [group[k]];
  }

  /** One turn of the loop over a group's identifiers that hashes an identifier:
      its result and trace are appended. */
  lemma MembersHashedStep(prims: Primitives, index: Index, canonical: Issuer, group: seq<string>, k: nat,
                          results: seq<(string, Issuer)>, traces: seq<NDegreeTrace>,
                          result: (string, Issuer), trace: NDegreeTrace)
    requires k < |group| && !StartsWith(group[k], CanonicalPrefix) && group[k] in index.entries
    requires MembersCovered(index, group[..k], results)
    requires MembersHashed(prims, index, canonical, Hashable(group[..k]), results, traces)
    requires MemberHashed(prims, index, canonical, group[k], result, trace)
    ensures MembersCovered(index, group[..k + 1], results + [result])
    ensures MembersHashed(prims, index, canonical, Hashable(group[..k + 1]), results + [result], traces + [trace])
  {
    HashableStep(group, k);
    MembersHashedAppend(prims, index, canonical, Hashable(group[..k]), group[k], results, traces, result, trace);
    MemberLabelledFirst(prims, index, canonical, group[k], result, trace);
    assert group[k] == result.1.issued[0];
    MembersCoveredStep(index, group, k, results, result);
  }

  lemma MembersCoveredStep(index: Index, group: seq<string>, k: nat, results: seq<(string, Issuer)>, result: (string, Issuer))
    requires k < |group| && group[k] in result.1.issued
    requires forall x :: x in result.1.issued ==> x in index.entries
    requires MembersCovered(index, group[..k], results)
    ensures MembersCovered(index, group[..k + 1], results + [result])
  {
    MappedIdentifiersAppend(results, result);
    assert group[..k + 1] == group[..k] + [group[k]];
  }

  /** The issuer of a member's result labelled the member first, with the
      temporary prefix, and labelled nothing but blank nodes of the index. */
  lemma MemberLabelledFirst(prims: Primitives, index: Index, canonical: Issuer, id: string,
                            result: (string, Issuer), trace: NDegreeTrace)
    requires MemberHashed(prims, index, canonical, id, result, trace)
    ensures result.1.prefix == prims.tempPrefix && result.1.issued != [] && result.1.issued[0] == id
    ensures forall x :: x in result.1.issued ==> x == id || x in index.entries
  {
    assert result.1.issued[..1] == [id];
  }

  /** The identifiers the deep pass labels, group after group: within a group, the
      identifiers each result's issuer mapped, results in order of their hash. */
  function DeepIssued(groupResults: seq<seq<(string, Issuer)>>): seq<string> {
    if groupResults == [] then []
    else
      var n := |groupResults| - 1;
      DeepIssued(groupResults[..n]) + MappedIdentifiersOf(SortBy(groupResults[n], ResultHash))
  }

  /** The group of `m` at `key` was hashed, as MembersHashed says, under `canonical`. */
  ghost predicate GroupHashed(prims: Primitives, index: Index, m: Multimap<string, string>, key: string, canonical: Issuer,
                              results: seq<(string, Issuer)>, traces: seq<NDegreeTrace>)
  {
    key in m.entries && MembersHashed(prims, index, canonical, Hashable(m.entries[key]), results, traces)
  }

  /** The groups of `m` listed in `keys` were hashed in that order: group `i` under
      the canonical issuer the groups before it left, starting from `c0`. */
  ghost predicate DeepLabelled(prims: Primitives, index: Index, m: Multimap<string, string>, keys: seq<string>, c0: Issuer,
                               groupResults: seq<seq<(string, Issuer)>>, groupTraces: seq<seq<NDegreeTrace>>)
  {
    && c0.Valid() && |groupResults| == |keys| && |groupTraces| == |keys|
    && forall i {:trigger GroupHashed(prims, index, m, keys[i], GenerateAll(c0, DeepIssued(groupResults[..i])), groupResults[i], groupTraces[i])} ::
         0 <= i < |keys| ==>
         GroupHashed(prims, index, m, keys[i], GenerateAll(c0, DeepIssued(groupResults[..i])), groupResults[i], groupTraces[i])
  }

  /** One turn of the deep pass: group `keys[i]`, hashed under the canonical issuer
      the groups before it left, extends the groups hashed by one. */
  lemma DeepLabelledStep(prims: Primitives, index: Index, m: Multimap<string, string>, keys: seq<string>, i: nat, c0: Issuer,
                         groupResults: seq<seq<(string, Issuer)>>, groupTraces: seq<seq<NDegreeTrace>>,
                         results: seq<(string, Issuer)>, traces: seq<NDegreeTrace>)
    requires i < |keys| && keys[i] in m.entries
    requires DeepLabelled(prims, index, m, keys[..i], c0, groupResults, groupTraces)
    requires MembersHashed(prims, index, GenerateAll(c0, DeepIssued(groupResults)), Hashable(m.entries[keys[i]]), results, traces)
    ensures DeepLabelled(prims, index, m, keys[..i + 1], c0, groupResults + [results], groupTraces + [traces])
  {
    var keys', groupResults', groupTraces' := keys[..i + 1], groupResults + [results], groupTraces + [traces];
    forall j | 0 <= j < |keys'|
      ensures GroupHashed(prims, index, m, keys'[j], GenerateAll(c0, DeepIssued(groupResults'[..j])), groupResults'[j], groupTraces'[j])
    {
      assert groupResults'[..j] == groupResults[..j];
      if j < i {
        assert keys'[j] == keys[..i][j] && groupResults'[j] == groupResults[j] && groupTraces'[j] == groupTraces[j];
        assert GroupHashed(prims, index, m, keys[..i][j], GenerateAll(c0, DeepIssued(groupResults[..j])), groupResults[j], groupTraces[j]);
      } else {
        assert groupResults[..j] == groupResults;
      }
    }
  }

  /** Labelling the deep pass's identifiers group after group is labelling those of
      the groups before the last, then those of the last. */
  lemma DeepIssuedStep(c0: Issuer, groupResults: seq<seq<(string, Issuer)>>, results: seq<(string, Issuer)>)
    requires c0.Valid()
    ensures GenerateAll(c0, DeepIssued(groupResults + [results]))
         == GenerateAll(GenerateAll(c0, DeepIssued(groupResults)), MappedIdentifiersOf(SortBy(results, ResultHash)))
  {
    ConcatLast(groupResults, [results]);
    GenerateAllConcat(c0, DeepIssued(groupResults), MappedIdentifiersOf(SortBy(results, ResultHash)));
  }

  /** The identifiers the results' issuers mapped, result after result. */
  function MappedIdentifiersOf(results: seq<(string, Issuer)>): seq<string> {
    if results == [] then []
    else MappedIdentifiersOf(results[..|results| - 1]) + results[|results| - 1].1.GetMappedIdentifiers()
  }

  /** An identifier is among the results' mapped identifiers exactly when one of
      the results' issuers mapped it. */
  lemma {:induction false} MappedIdentifiersMembers(results: seq<(string, Issuer)>, x: string)
    ensures x in MappedIdentifiersOf(results) <==> exists i :: 0 <= i < |results| && x in results[i].1.issued
  {
    if results != [] {
      var n := |results| - 1;
      MappedIdentifiersMembers(results[..n], x);
      if x in results[n].1.issued {
        assert x in MappedIdentifiersOf(results);
      }
      if exists i :: 0 <= i < n && x in results[i].1.issued {
        var i :| 0 <= i < n && x in results[i].1.issued;
        assert results[..n][i] == results[i];
      }
      if x in MappedIdentifiersOf(results[..n]) {
        var i :| 0 <= i < n && x in results[..n][i].1.issued;
        assert results[i] == results[..n][i];
      }
    }
  }

  /** Reordering the results (sorting them by hash) reorders the identifiers but
      keeps which identifiers there are. */
  lemma MappedIdentifiersReordered(a: seq<(string, Issuer)>, b: seq<(string, Issuer)>)
    requires multiset(a) == multiset(b)
    ensures forall x :: x in MappedIdentifiersOf(a) <==> x in MappedIdentifiersOf(b)
  {
    forall x ensures x in MappedIdentifiersOf(a) ==> x in MappedIdentifiersOf(b) {
      MappedIdentifiersReorderedOne(a, b, x);
    }
    forall x ensures x in MappedIdentifiersOf(b) ==> x in MappedIdentifiersOf(a) {
      MappedIdentifiersReorderedOne(b, a, x);
    }
  }

  lemma MappedIdentifiersReorderedOne(a: seq<(string, Issuer)>, b: seq<(string, Issuer)>, x: string)
    requires multiset(a) == multiset(b)
    ensures x in MappedIdentifiersOf(a) ==> x in MappedIdentifiersOf(b)
  {
    MappedIdentifiersMembers(a, x);
    MappedIdentifiersMembers(b, x);
    if x in MappedIdentifiersOf(a) {
      var i :| 0 <= i < |a| && x in a[i].1.issued;
      assert a[i] in multiset(b);
      var j :| 0 <= j < |b| && b[j] == a[i];
    }
  }

  /** Appending one result appends its issuer's identifiers. */
  lemma MappedIdentifiersAppend(results: seq<(string, Issuer)>, result: (string, Issuer))
    ensures MappedIdentifiersOf(results + [result]) == MappedIdentifiersOf(results) + result.1.issued
  {
    assert (results + [result])[..|results|] == results;
  }

  /** One simple pass, seen from the loop around it: the identifiers it labels
      were waiting, they stop waiting and get canonical labels, and when it labels
      none nothing changes. */
  lemma SimplePassStep(prims: Primitives, index: Index, ids: seq<string>, c: Issuer)
    requires NoDuplicates(ids) && (forall x :: x in ids ==> x in index.entries) && c.Valid()
    ensures NoDuplicates(RemoveAll(ids, SimpleIds(FirstDegreeMap(prims, index, ids))))
    ensures forall x :: x in RemoveAll(ids, SimpleIds(FirstDegreeMap(prims, index, ids))) <==>
      x in ids && x !in SimpleIds(FirstDegreeMap(prims, index, ids))
    ensures forall x :: x in GenerateAll(c, SimpleIds(FirstDegreeMap(prims, index, ids))).issued <==>
      x in c.issued || x in SimpleIds(FirstDegreeMap(prims, index, ids))
    ensures forall x :: x in SimpleIds(FirstDegreeMap(prims, index, ids)) ==> x in ids
    ensures SimpleIds(FirstDegreeMap(prims, index, ids)) != [] ==>
      |RemoveAll(ids, SimpleIds(FirstDegreeMap(prims, index, ids)))| < |ids|
  {
    var m := FirstDegreeMap(prims, index, ids);
    var s := SimpleIds(m);
    RemoveAllMembers(ids, s);
    forall x | x in s ensures x in ids {
      SimpleIdsOnly(prims, index, ids, x);
    }
    if s != [] {
      assert s[0] in s;
      RemoveAllShorter(ids, s, s[0]);
    }
  }

  /** The identifiers the simple passes label, in the order they label them,
      starting from the waiting `ids`: those the first pass labels, then those of
      the passes over what it leaves waiting; none once a pass labels none. */
  function SimpleIssued(prims: Primitives, index: Index, ids: seq<string>): (r: seq<string>)
    requires NoDuplicates(ids) && forall x :: x in ids ==> x in index.entries
    ensures forall x :: x in r ==> x in ids
    decreases |ids|
  {
    var s := SimpleIds(FirstDegreeMap(prims, index, ids));
    if s == [] then []
    else
      SimplePassStep(prims, index, ids, NewIssuer(CanonicalIdentifier));
      s + SimpleIssued(prims, index, RemoveAll(ids, s))
  }

  /** The identifiers still waiting once a simple pass labels none: each of them
      shares its first-degree hash with another of them. */
  function SimpleRemaining(prims: Primitives, index: Index, ids: seq<string>): (r: seq<string>)
    requires NoDuplicates(ids) && forall x :: x in ids ==> x in index.entries
    ensures NoDuplicates(r) && forall x :: x in r ==> x in ids
    ensures SimpleIds(FirstDegreeMap(prims, index, r)) == []
    decreases |ids|
  {
    var s := SimpleIds(FirstDegreeMap(prims, index, ids));
    if s == [] then ids
    else
      SimplePassStep(prims, index, ids, NewIssuer(CanonicalIdentifier));
      SimpleRemaining(prims, index, RemoveAll(ids, s))
  }

  /** The simple passes split the waiting identifiers: each is labelled by one of
      them or left waiting, and not both. */
  lemma {:induction false} SimplePartition(prims: Primitives, index: Index, ids: seq<string>, x: string)
    requires NoDuplicates(ids) && forall y :: y in ids ==> y in index.entries
    ensures x in ids <==> x in SimpleIssued(prims, index, ids) || x in SimpleRemaining(prims, index, ids)
    ensures !(x in SimpleIssued(prims, index, ids) && x in SimpleRemaining(prims, index, ids))
    decreases |ids|
  {
    var s := SimpleIds(FirstDegreeMap(prims, index, ids));
    if s != [] {
      SimplePassStep(prims, index, ids, NewIssuer(CanonicalIdentifier));
      SimplePartition(prims, index, RemoveAll(ids, s), x);
    }
  }

  /** One simple pass, seen from the passes: labelling what all the passes label
      is labelling what this one labels, then what the later ones label; and the
      later ones leave the same identifiers waiting. */
  lemma SimpleIssuedStep(prims: Primitives, index: Index, ids: seq<string>, c: Issuer)
    requires NoDuplicates(ids) && (forall x :: x in ids ==> x in index.entries) && c.Valid()
    ensures NoDuplicates(RemoveAll(ids, SimpleIds(FirstDegreeMap(prims, index, ids))))
    ensures forall x :: x in RemoveAll(ids, SimpleIds(FirstDegreeMap(prims, index, ids))) ==> x in index.entries
    ensures GenerateAll(c, SimpleIssued(prims, index, ids))
         == GenerateAll(GenerateAll(c, SimpleIds(FirstDegreeMap(prims, index, ids))),
                        SimpleIssued(prims, index, RemoveAll(ids, SimpleIds(FirstDegreeMap(prims, index, ids)))))
    ensures SimpleRemaining(prims, index, ids) == SimpleRemaining(prims, index, RemoveAll(ids, SimpleIds(FirstDegreeMap(prims, index, ids))))
  {
    var s := SimpleIds(FirstDegreeMap(prims, index, ids));
    SimplePassStep(prims, index, ids, c);
    if s == [] {
      assert RemoveAll(ids, s) == ids;
    } else {
      GenerateAllConcat(c, s, SimpleIssued(prims, index, RemoveAll(ids, s)));
    }
  }

  /** `labelled` is the canonical issuer the labelling phases leave: the simple
      passes over all blank nodes of the index label SimpleIssued, in that order;
      then the deep pass, over the first-degree groups of the identifiers they
      leave waiting in ordinal order of hash, labels DeepIssued of its results,
      which were hashed as DeepLabelled says. */
  ghost predicate LabellingOf(prims: Primitives, index: Index, labelled: Issuer,
                              groupResults: seq<seq<(string, Issuer)>>, groupTraces: seq<seq<NDegreeTrace>>)
  {
    && index.Valid()
    && var simple := GenerateAll(NewIssuer(CanonicalIdentifier), SimpleIssued(prims, index, index.keys));
       var m := FirstDegreeMap(prims, index, SimpleRemaining(prims, index, index.keys));
       && DeepLabelled(prims, index, m, SortOrdinal(m.keys), simple, groupResults, groupTraces)
       && labelled == GenerateAll(simple, DeepIssued(groupResults))
  }

  /** The simple passes followed by the deep pass make up the labelling. */
  lemma LabellingFromPasses(prims: Primitives, index: Index, ids: seq<string>, simple: Issuer, labelled: Issuer,
                            groupResults: seq<seq<(string, Issuer)>>, groupTraces: seq<seq<NDegreeTrace>>)
    requires index.Valid() && ids == SimpleRemaining(prims, index, index.keys)
    requires simple == GenerateAll(NewIssuer(CanonicalIdentifier), SimpleIssued(prims, index, index.keys))
    requires DeepLabelled(prims, index, FirstDegreeMap(prims, index, ids), SortOrdinal(FirstDegreeMap(prims, index, ids).keys),
                          simple, groupResults, groupTraces)
    requires labelled == GenerateAll(simple, DeepIssued(groupResults))
    ensures LabellingOf(prims, index, labelled, groupResults, groupTraces)
  {
  }

  // ---------------------------------------------------------------------------
  // The recursion counter across the deep pass

  /** The recursion counter after the N-degree hashes `traces` records, run one
      after the other from the counter at `before`: where the last one left it. */
  function ChainEnd(traces: seq<NDegreeTrace>, before: int): int {
    if traces == [] then before else CounterAfter(traces[|traces| - 1])
  }

  /** The N-degree hashes `traces` records ran one after the other: the first found
      the recursion counter at `before`, and each later one where the previous one
      left it. */
  ghost predicate Chained(traces: seq<NDegreeTrace>, before: int)
    decreases |traces|
  {
    traces != [] ==>
      var n := |traces| - 1;
      Chained(traces[..n], before) && traces[n].budget == ChainEnd(traces[..n], before)
  }

  /** One N-degree hash more, started where the previous ones left the counter. */
  lemma ChainedStep(traces: seq<NDegreeTrace>, before: int, t: NDegreeTrace)
    requires Chained(traces, before) && t.budget == ChainEnd(traces, before)
    ensures Chained(traces + [t], before) && ChainEnd(traces + [t], before) == CounterAfter(t)
  {
    assert (traces + [t])[..|traces|] == traces;
  }

  /** The recursion counter after the deep pass's N-degree hashes, group after
      group, run from the counter at `before`. */
  function DeepEnd(groupTraces: seq<seq<NDegreeTrace>>, before: int): int
    decreases |groupTraces|
  {
    if groupTraces == [] then before
    else
      var n := |groupTraces| - 1;
      ChainEnd(groupTraces[n], DeepEnd(groupTraces[..n], before))
  }

  /** The deep pass's N-degree hashes ran one after the other, group after group,
      from the counter at `before`. */
  ghost predicate DeepChained(groupTraces: seq<seq<NDegreeTrace>>, before: int)
    decreases |groupTraces|
  {
    groupTraces != [] ==>
      var n := |groupTraces| - 1;
      DeepChained(groupTraces[..n], before) && Chained(groupTraces[n], DeepEnd(groupTraces[..n], before))
  }

  /** One group more, its hashes started where the previous groups left the counter. */
  lemma DeepChainedStep(groupTraces: seq<seq<NDegreeTrace>>, before: int, traces: seq<NDegreeTrace>)
    requires DeepChained(groupTraces, before) && Chained(traces, DeepEnd(groupTraces, before))
    ensures DeepChained(groupTraces + [traces], before)
    ensures DeepEnd(groupTraces + [traces], before) == ChainEnd(traces, DeepEnd(groupTraces, before))
  {
    assert (groupTraces + [traces])[..|groupTraces|] == groupTraces;
  }

  /** Hashing the members `ids` in turn, from the counter at `before`, ran out of
      budget: the first |results| were hashed (MemberHashed), one after the other,
      and the N-degree hash of the next one ran out, as `failed` records it. */
  ghost predicate MembersFailed(prims: Primitives, index: Index, canonical: Issuer, ids: seq<string>, before: int,
                                results: seq<(string, Issuer)>, traces: seq<NDegreeTrace>, failed: NDegreeTrace)
  {
    && |results| < |ids|
    && MembersHashed(prims, index, canonical, ids[..|results|], results, traces)
    && Chained(traces, before)
    && NDegreeFailed(prims, index, canonical, ids[|results|], TempIssuer(prims, ids[|results|]), ChainEnd(traces, before), failed)
  }

  /** The hashable members of the first `k` of a group come first among those of
      the whole group. */
  lemma {:induction false} HashablePrefix(group: seq<string>, k: nat)
    requires k <= |group|
    ensures |Hashable(group[..k])| <= |Hashable(group)| && Hashable(group)[..|Hashable(group[..k])|] == Hashable(group[..k])
    decreases |group| - k
  {
    if k == |group| {
      assert group[..k] == group;
    } else {
      HashablePrefix(group, k + 1);
      HashableStep(group, k);
      var h, h', g := Hashable(group[..k]), Hashable(group[..k + 1]), Hashable(group);
      assert |h| <= |h'| && h'[..|h|] == h;
      PrefixOfPrefix(h, h', g);
    }
  }

  /** A hashable member `k` of a group comes, among the group's hashable members,
      right after the hashable members before it. */
  lemma HashableNext(group: seq<string>, k: nat)
    requires k < |group| && !StartsWith(group[k], CanonicalPrefix)
    ensures var h := Hashable(group[..k]);
      |h| < |Hashable(group)| && Hashable(group)[..|h|] == h && Hashable(group)[|h|] == group[k]
  {
    var h, h', g := Hashable(group[..k]), Hashable(group[..k + 1]), Hashable(group);
    HashablePrefix(group, k + 1);
    HashableStep(group, k);
    assert h' == h + [group[k]];
    PrefixOfPrefix(h, h', g);
    assert g[|h|] == g[..|h'|][|h|];
  }

  /** A prefix of a prefix is a prefix. */
  lemma PrefixOfPrefix<T>(a: seq<T>, b: seq<T>, c: seq<T>)
    requires |a| <= |b| <= |c| && b[..|a|] == a && c[..|b|] == b
    ensures c[..|a|] == a
  {
    assert c[..|b|][..|a|] == c[..|a|];
  }

  /** The loop over a group's members stopped at member `k`, whose N-degree hash
      ran out of budget after the members before it were hashed. */
  lemma MembersFailedStep(prims: Primitives, index: Index, canonical: Issuer, group: seq<string>, k: nat, before: int,
                          results: seq<(string, Issuer)>, traces: seq<NDegreeTrace>, failed: NDegreeTrace)
    requires k < |group| && !StartsWith(group[k], CanonicalPrefix)
    requires MembersHashed(prims, index, canonical, Hashable(group[..k]), results, traces) && Chained(traces, before)
    requires NDegreeFailed(prims, index, canonical, group[k], TempIssuer(prims, group[k]), ChainEnd(traces, before), failed)
    ensures MembersFailed(prims, index, canonical, Hashable(group), before, results, traces, failed)
  {
    HashableNext(group, k);
  }

  /** The deep pass over the groups of `m` listed in `keys` ran out of budget in
      its last group: the groups before it were hashed as DeepLabelled says, one
      after the other from the counter at `before`, and hashing the members of the
      last one ran out as MembersFailed says, under the canonical issuer they left. */
  ghost predicate DeepFailed(prims: Primitives, index: Index, m: Multimap<string, string>, keys: seq<string>, c0: Issuer,
                             before: int, groupResults: seq<seq<(string, Issuer)>>, groupTraces: seq<seq<NDegreeTrace>>,
                             failed: NDegreeTrace)
  {
    && 1 <= |groupResults| <= |keys| && |groupTraces| == |groupResults|
    && var n := |groupResults| - 1;
       && DeepLabelled(prims, index, m, keys[..n], c0, groupResults[..n], groupTraces[..n])
       && DeepChained(groupTraces[..n], before)
       && keys[n] in m.entries
       && MembersFailed(prims, index, GenerateAll(c0, DeepIssued(groupResults[..n])), Hashable(m.entries[keys[n]]),
                        DeepEnd(groupTraces[..n], before), groupResults[n], groupTraces[n], failed)
  }

  /** The deep pass stopped in group `keys[i]`, whose members ran out of budget
      after the groups before it were hashed. */
  lemma DeepFailedStep(prims: Primitives, index: Index, m: Multimap<string, string>, keys: seq<string>, i: nat, c0: Issuer,
                       before: int, groupResults: seq<seq<(string, Issuer)>>, groupTraces: seq<seq<NDegreeTrace>>,
                       results: seq<(string, Issuer)>, traces: seq<NDegreeTrace>, failed: NDegreeTrace)
    requires i < |keys| && keys[i] in m.entries
    requires DeepLabelled(prims, index, m, keys[..i], c0, groupResults, groupTraces) && DeepChained(groupTraces, before)
    requires MembersFailed(prims, index, GenerateAll(c0, DeepIssued(groupResults)), Hashable(m.entries[keys[i]]),
                           DeepEnd(groupTraces, before), results, traces, failed)
    ensures DeepFailed(prims, index, m, keys, c0, before, groupResults + [results], groupTraces + [traces], failed)
  {
    assert (groupResults + [results])[..i] == groupResults && (groupTraces + [traces])[..i] == groupTraces;
  }

  /** The state of the deep pass after `i` groups: they were hashed as
      DeepLabelled says, one after the other on the recursion counter from
      `before` to `limit`, and `canonical` has labelled what they issue. */
  ghost predicate DeepSoFar(prims: Primitives, index: Index, m: Multimap<string, string>, keys: seq<string>, i: nat,
                            c0: Issuer, before: int, groupResults: seq<seq<(string, Issuer)>>,
                            groupTraces: seq<seq<NDegreeTrace>>, canonical: Issuer, limit: int)
  {
    && i <= |keys|
    && DeepLabelled(prims, index, m, keys[..i], c0, groupResults, groupTraces)
    && DeepChained(groupTraces, before) && limit == DeepEnd(groupTraces, before)
    && (before >= 0 ==> limit >= 0) && (before < 0 ==> limit == before)
    && canonical == GenerateAll(c0, DeepIssued(groupResults))
  }

  /** One group of the deep pass hashed: its results and traces are appended, and
      the canonical issuer labels what its results issue. */
  lemma DeepSoFarStep(prims: Primitives, index: Index, m: Multimap<string, string>, keys: seq<string>, i: nat,
                      c0: Issuer, before: int, groupResults: seq<seq<(string, Issuer)>>,
                      groupTraces: seq<seq<NDegreeTrace>>, canonical: Issuer, limit: int,
                      results: seq<(string, Issuer)>, traces: seq<NDegreeTrace>, after: int)
    requires i < |keys| && keys[i] in m.entries
    requires DeepSoFar(prims, index, m, keys, i, c0, before, groupResults, groupTraces, canonical, limit)
    requires MembersHashed(prims, index, canonical, Hashable(m.entries[keys[i]]), results, traces)
    requires Chained(traces, limit) && after == ChainEnd(traces, limit)
    requires (limit >= 0 ==> after >= 0) && (limit < 0 ==> after == limit)
    ensures DeepSoFar(prims, index, m, keys, i + 1, c0, before, groupResults + [results], groupTraces + [traces],
                      GenerateAll(canonical, MappedIdentifiersOf(SortBy(results, ResultHash))), after)
  {
    DeepLabelledStep(prims, index, m, keys, i, c0, groupResults, groupTraces, results, traces);
    DeepIssuedStep(c0, groupResults, results);
    DeepChainedStep(groupTraces, before, traces);
  }

  /** Every group of the deep pass hashed: the pass labelled the groups as
      DeepLabelled says, its hashes chained on the counter from `before`. */
  lemma DeepSoFarDone(prims: Primitives, index: Index, m: Multimap<string, string>, keys: seq<string>,
                      c0: Issuer, before: int, groupResults: seq<seq<(string, Issuer)>>,
                      groupTraces: seq<seq<NDegreeTrace>>, canonical: Issuer, limit: int)
    requires DeepSoFar(prims, index, m, keys, |keys|, c0, before, groupResults, groupTraces, canonical, limit)
    ensures DeepLabelled(prims, index, m, keys, c0, groupResults, groupTraces)
    ensures DeepChained(groupTraces, before) && limit == DeepEnd(groupTraces, before)
    ensures before >= 0 ==> limit >= 0
    ensures keys == [] ==> limit == before
    ensures canonical == GenerateAll(c0, DeepIssued(groupResults))
  {
    assert keys[..|keys|] == keys;
  }

  /** A group of the deep pass ran out: the pass ran out as DeepFailed says, the
      counter is left as if the pass had started out of budget, and the canonical
      issuer holds the labels of the groups before. */
  lemma DeepSoFarFailed(prims: Primitives, index: Index, m: Multimap<string, string>, keys: seq<string>, i: nat,
                        c0: Issuer, before: int, groupResults: seq<seq<(string, Issuer)>>,
                        groupTraces: seq<seq<NDegreeTrace>>, canonical: Issuer, limit: int,
                        results: seq<(string, Issuer)>, traces: seq<NDegreeTrace>, failed: NDegreeTrace)
    requires i < |keys| && keys[i] in m.entries
    requires DeepSoFar(prims, index, m, keys, i, c0, before, groupResults, groupTraces, canonical, limit)
    requires MembersFailed(prims, index, canonical, Hashable(m.entries[keys[i]]), limit, results, traces, failed)
    ensures DeepFailed(prims, index, m, keys, c0, before, groupResults + [results], groupTraces + [traces], failed)
    ensures Exhausted(limit) == Exhausted(before)
    ensures canonical == GenerateAll(c0, DeepIssued((groupResults + [results])[..|groupResults|]))
  {
    DeepFailedStep(prims, index, m, keys, i, c0, before, groupResults, groupTraces, results, traces, failed);
    assert (groupResults + [results])[..|groupResults|] == groupResults;
  }

  /** How the labelling phases ran out of budget, started with the counter at
      `before`: the simple passes never do, so the deep pass over the groups they
      leave did, as DeepFailed says. */
  ghost predicate LabellingFailed(prims: Primitives, index: Index, before: int, groupResults: seq<seq<(string, Issuer)>>,
                                  groupTraces: seq<seq<NDegreeTrace>>, failed: NDegreeTrace)
  {
    && index.Valid()
    && var simple := GenerateAll(NewIssuer(CanonicalIdentifier), SimpleIssued(prims, index, index.keys));
       var m := FirstDegreeMap(prims, index, SimpleRemaining(prims, index, index.keys));
       DeepFailed(prims, index, m, SortOrdinal(m.keys), simple, before, groupResults, groupTraces, failed)
  }

  /** The simple passes followed by a deep pass that ran out make up a labelling
      that ran out. */
  lemma LabellingFailedFromPasses(prims: Primitives, index: Index, ids: seq<string>, simple: Issuer, before: int,
                                  groupResults: seq<seq<(string, Issuer)>>, groupTraces: seq<seq<NDegreeTrace>>,
                                  failed: NDegreeTrace)
    requires index.Valid() && ids == SimpleRemaining(prims, index, index.keys)
    requires simple == GenerateAll(NewIssuer(CanonicalIdentifier), SimpleIssued(prims, index, index.keys))
    requires DeepFailed(prims, index, FirstDegreeMap(prims, index, ids), SortOrdinal(FirstDegreeMap(prims, index, ids).keys),
                        simple, before, groupResults, groupTraces, failed)
    ensures LabellingFailed(prims, index, before, groupResults, groupTraces, failed)
  {
  }

  /** One step of the simple-pass loop, unfolded: issuing, removing and taking
      out the next identifier. */
  lemma IssueSimpleStep(c0: Issuer, m0: Multimap<string, string>, ids: seq<string>, entries: seq<string>, i: nat)
    requires c0.Valid() && i < |entries|
    ensures GenerateAll(c0, entries[..i + 1]) == GenerateAll(c0, entries[..i]).GenerateBlankNodeIdentifier(entries[i]).0
    ensures RemoveKeys(m0, entries[..i + 1]) == RemoveKeys(m0, entries[..i]).Remove(entries[i])
    ensures RemoveAll(ids, entries[..i + 1]) == RemoveFirst(RemoveAll(ids, entries[..i]), entries[i])
  {
    assert entries[..i + 1][..i] == entries[..i];
  }

  /** The members of the first `i` groups listed in `keys` are labelled in
      `issued`, except those whose identifier reads like a canonical label. */
  ghost predicate GroupsCovered(m: Multimap<string, string>, keys: seq<string>, i: nat, issued: seq<string>)
    requires i <= |keys| && forall k :: k in keys ==> k in m.entries
  {
    forall j, v :: 0 <= j < i && v in m.entries[keys[j]] && !StartsWith(v, CanonicalPrefix) ==> v in issued
  }

  /** One turn of the deep pass keeps the earlier groups labelled and labels the
      members of group `i`; after the last turn every group is. */
  lemma GroupsCoveredStep(m: Multimap<string, string>, keys: seq<string>, i: nat, before: Issuer, after: Issuer)
    requires i < |keys| && forall k :: k in keys ==> k in m.entries
    requires GroupsCovered(m, keys, i, before.issued) && Extends(after, before)
    requires forall v :: v in m.entries[keys[i]] && !StartsWith(v, CanonicalPrefix) ==> v in after.issued
    ensures GroupsCovered(m, keys, i + 1, after.issued)
  {
    ExtendsIssued(after, before);
  }

  lemma GroupsCoveredAll(m: Multimap<string, string>, keys: seq<string>, issued: seq<string>)
    requires forall k :: k in keys <==> k in m.entries
    requires GroupsCovered(m, keys, |keys|, issued)
    ensures forall h, v :: h in m.entries && v in m.entries[h] && !StartsWith(v, CanonicalPrefix) ==> v in issued
  {
    forall h, v | h in m.entries && v in m.entries[h] && !StartsWith(v, CanonicalPrefix)
      ensures v in issued
    {
      var j :| 0 <= j < |keys| && keys[j] == h;
    }
  }

  /** After the deep pass every blank node of the index is labelled, except those
      whose identifier reads like a canonical label: each was either labelled by a
      simple pass or left waiting in the group of its first-degree hash. */
  lemma DeepPassCovers(prims: Primitives, index: Index, ids: seq<string>, simple: Issuer, final: Issuer)
    requires NoDuplicates(ids) && forall y :: y in ids ==> y in index.entries
    requires forall x :: x in index.entries ==> x in ids || x in simple.issued
    requires forall x :: x in simple.issued ==> x in final.issued
    requires forall h, v :: (h in FirstDegreeMap(prims, index, ids).entries && v in FirstDegreeMap(prims, index, ids).entries[h]
        && !StartsWith(v, CanonicalPrefix)) ==> v in final.issued
    ensures forall x :: x in index.entries && !StartsWith(x, CanonicalPrefix) ==> x in final.issued
  {
    FirstDegreeMapCovers(prims, index, ids);
    forall x | x in index.entries && !StartsWith(x, CanonicalPrefix) ensures x in final.issued {
      if x in ids {
        var h := HashFirstDegreeQuads(prims, index, x);
        assert h in FirstDegreeMap(prims, index, ids).entries;
      }
    }
  }

  /** With no blank node waiting, the hash-to-blank-nodes map has no group. */
  lemma NothingWaitingNoGroups(prims: Primitives, index: Index)
    ensures FirstDegreeMap(prims, index, []).keys == []
  {
    assert FirstDegreePairs(prims, index, []) == [];
  }

  /** The recursion counter after a run that ran out of budget, started with the
      counter at `start`: the call that found it at zero or below (the first,
      when `start` already was) decremented it once more, and nothing ran after. */
  function Exhausted(start: int): int {
    if start < 0 then start - 1 else -1
  }

  class Canonicalizer {
    const prims: Primitives
    var canonicalIssuer: Issuer
    const blankNodeToQuadsMap: MultiValueDictionary<string, Quad>
    const hashToBlankNodesMap: MultiValueDictionary<string, string>
    var nquadsRecursionLimit: int

    ghost predicate Valid()
      reads this, blankNodeToQuadsMap, hashToBlankNodesMap
    {
      && blankNodeToQuadsMap.Valid()
      && hashToBlankNodesMap.Valid()
      && blankNodeToQuadsMap as object != hashToBlankNodesMap as object
      && canonicalIssuer.Valid()
      && canonicalIssuer.prefix == CanonicalIdentifier
    }

    /** The state of a canonicaliser that has not been used yet. */
    ghost predicate Unused()
      reads this, blankNodeToQuadsMap, hashToBlankNodesMap
    {
      && canonicalIssuer == NewIssuer(CanonicalIdentifier)
      && blankNodeToQuadsMap.Model() == EmptyMultimap()
      && hashToBlankNodesMap.Model() == EmptyMultimap()
      && nquadsRecursionLimit == RecursionLimit
    }

    /** Between simple passes: `ids` are the blank nodes still waiting, without
        repetition, and every blank node of the index is waiting or labelled;
        every label went to a blank node of the index. */
    ghost predicate Waiting(ids: seq<string>)
      reads this, blankNodeToQuadsMap, hashToBlankNodesMap
    {
      && Valid()
      && NoDuplicates(ids) && (forall x :: x in ids ==> x in IndexModel().entries)
      && (forall x :: x in IndexModel().entries ==> x in ids || x in canonicalIssuer.issued)
      && GrownFrom(canonicalIssuer, NewIssuer(CanonicalIdentifier), IndexModel())
    }

    /** What remains of the recursion budget, as a measure. */
    function Budget(): nat
      reads this
    {
      if nquadsRecursionLimit > 0 then nquadsRecursionLimit else 0
    }

    function IndexModel(): Index
      reads blankNodeToQuadsMap
    {
      blankNodeToQuadsMap.Model()
    }

    constructor (prims: Primitives)
      ensures Valid() && Unused() && this.prims == prims
      ensures fresh(blankNodeToQuadsMap) && fresh(hashToBlankNodesMap)
    {
      this.prims := prims;
      canonicalIssuer := NewIssuer(CanonicalIdentifier);
      blankNodeToQuadsMap := new MultiValueDictionary<string, Quad>();
      hashToBlankNodesMap := new MultiValueDictionary<string, string>();
      nquadsRecursionLimit := RecursionLimit;
    }

    /** Filling the blank-node-to-quads map: one Add per blank-node occurrence. */
    method IndexDataset(dataset: Dataset)
      requires Valid() && blankNodeToQuadsMap.Model() == EmptyMultimap()
      modifies blankNodeToQuadsMap
      ensures Valid() && blankNodeToQuadsMap.Model() == FromPairs(Occurrences(dataset))
    {
      var occurrences := Occurrences(dataset);
      for i := 0 to |occurrences|
        invariant Valid()
        invariant blankNodeToQuadsMap.Model() == FromPairs(occurrences[..i])
      {
        FromPairsStep(occurrences, i);
        blankNodeToQuadsMap.Add(occurrences[i].0, occurrences[i].1);
      }
      assert occurrences[..|occurrences|] == occurrences;
    }

    /** The first half of a simple pass: clear the hash-to-blank-nodes map and
        group the waiting identifiers by first-degree hash. */
    method GroupByFirstDegreeHash(ids: seq<string>)
      requires Valid() && forall x :: x in ids ==> x in IndexModel().entries
      modifies hashToBlankNodesMap
      ensures Valid() && hashToBlankNodesMap.Model() == FirstDegreeMap(prims, IndexModel(), ids)
    {
      hashToBlankNodesMap.Clear();
      for i := 0 to |ids|
        invariant Valid()
        invariant hashToBlankNodesMap.Model() == FirstDegreeMap(prims, IndexModel(), ids[..i])
      {
        FirstDegreeMapStep(prims, IndexModel(), ids, i);
        var hash := HashFirstDegreeQuads(prims, blankNodeToQuadsMap.Model(), ids[i]);
        hashToBlankNodesMap.Add(hash, ids[i]);
      }
      assert ids[..|ids|] == ids;
    }

    /** The second half of a simple pass: in ordinal order of the hash, each
        single-member group's identifier gets a canonical label and stops waiting;
        Remove is called with the identifier, which is not a key of the map. */
    method IssueSimple(ids: seq<string>) returns (remaining: seq<string>, simple: bool)
      requires Valid()
      modifies this`canonicalIssuer, hashToBlankNodesMap
      ensures Valid()
      ensures canonicalIssuer == GenerateAll(old(canonicalIssuer), SimpleIds(old(hashToBlankNodesMap.Model())))
      ensures hashToBlankNodesMap.Model() == RemoveKeys(old(hashToBlankNodesMap.Model()), SimpleIds(old(hashToBlankNodesMap.Model())))
      ensures remaining == RemoveAll(ids, SimpleIds(old(hashToBlankNodesMap.Model())))
      ensures simple <==> SimpleIds(old(hashToBlankNodesMap.Model())) != []
    {
      var entries := SimpleIds(hashToBlankNodesMap.Model());
      ghost var c0 := canonicalIssuer;
      ghost var m0 := hashToBlankNodesMap.Model();
      remaining := ids;
      simple := false;
      for i := 0 to |entries|
        invariant Valid()
        invariant canonicalIssuer == GenerateAll(c0, entries[..i])
        invariant hashToBlankNodesMap.Model() == RemoveKeys(m0, entries[..i])
        invariant remaining == RemoveAll(ids, entries[..i])
        invariant simple <==> i > 0
      {
        IssueSimpleStep(c0, m0, ids, entries, i);
        var id := entries[i];
        canonicalIssuer := canonicalIssuer.GenerateBlankNodeIdentifier(id).0;
        hashToBlankNodesMap.Remove(id);
        remaining := RemoveFirst(remaining, id);
        simple := true;
      }
      assert entries[..|entries|] == entries;
    }

    /** ProcessRelatedComponent: add (hash, identifier) for a blank component other
        than the node itself to the related map. */
    method ProcessRelatedComponent(node: Option<Node>, position: string, identifier: string, q: Quad,
                                   issuer: Issuer, related: MultiValueDictionary<string, string>,
                                   ghost pairs: seq<(string, string)>)
      requires Valid() && related.Valid() && related.Model() == FromPairs(pairs)
      requires related != hashToBlankNodesMap && related as object != blankNodeToQuadsMap
      requires node.Some? && node.value.Blank? ==> node.value.id in IndexModel().entries
      modifies related
      ensures related.Valid()
      ensures related.Model() == FromPairs(pairs + ComponentPairs(prims, IndexModel(), canonicalIssuer, issuer, node, position, identifier, q))
    {
      if node.None? || !node.value.Blank? || node.value.id == identifier {
        assert pairs + [] == pairs;
        return;
      }
      var hash := HashRelatedBlankNode(prims, blankNodeToQuadsMap.Model(), canonicalIssuer, issuer, node.value.id, q, position);
      related.Add(hash, node.value.id);
      assert (pairs + [(hash, node.value.id)])[..|pairs|] == pairs;
    }

    /** One quad of the related-hash loop: its subject, object and graph name, in
        that order, each through ProcessRelatedComponent. */
    method ProcessRelatedQuad(q: Quad, identifier: string, issuer: Issuer,
                              related: MultiValueDictionary<string, string>, ghost pairs: seq<(string, string)>)
      requires Valid() && related.Valid() && related.Model() == FromPairs(pairs)
      requires related != hashToBlankNodesMap && related as object != blankNodeToQuadsMap
      requires QuadIndexed(IndexModel(), q)
      modifies related
      ensures related.Valid()
      ensures related.Model() == FromPairs(pairs + QuadPairs(prims, IndexModel(), canonicalIssuer, issuer, identifier, q))
    {
      ghost var index := IndexModel();
      QuadIndexedComponents(index, q);
      ProcessRelatedComponent(Some(q.subj), "s", identifier, q, issuer, related, pairs);
      ghost var a := ComponentPairs(prims, index, canonicalIssuer, issuer, Some(q.subj), "s", identifier, q);
      ProcessRelatedComponent(Some(q.obj), "o", identifier, q, issuer, related, pairs + a);
      ghost var b := ComponentPairs(prims, index, canonicalIssuer, issuer, Some(q.obj), "o", identifier, q);
      ProcessRelatedComponent(q.graph, "g", identifier, q, issuer, related, pairs + a + b);
      ghost var c := ComponentPairs(prims, index, canonicalIssuer, issuer, q.graph, "g", identifier, q);
      assert QuadPairs(prims, index, canonicalIssuer, issuer, identifier, q) == a + b + c;
      AppendAssociative(pairs + a, b, c);
      AppendAssociative(pairs, a, b + c);
      AppendAssociative(a, b, c);
    }

    /** The related-hash map of HashNDegreeQuads: for every quad mentioning
        `identifier`, its subject, object and graph in that order. */
    method CollectRelated(identifier: string, issuer: Issuer) returns (related: MultiValueDictionary<string, string>)
      requires Valid() && QuadsIndexed(IndexModel(), identifier) && issuer.Valid()
      ensures fresh(related) && related.Valid()
      ensures related.Model() == RelatedMap(prims, IndexModel(), canonicalIssuer, issuer, identifier)
    {
      ghost var index := IndexModel();
      related := new MultiValueDictionary<string, string>();
      var quads := blankNodeToQuadsMap.Get(identifier);
      for i := 0 to |quads|
        invariant related.Valid() && fresh(related)
        invariant Valid() && IndexModel() == index
        invariant related.Model() == FromPairs(RelatedPairs(prims, index, canonicalIssuer, issuer, identifier, quads[..i]))
      {
        RelatedPairsStep(prims, index, canonicalIssuer, issuer, identifier, quads, i);
        ProcessRelatedQuad(quads[i], identifier, issuer, related,
          RelatedPairs(prims, index, canonicalIssuer, issuer, identifier, quads[..i]));
      }
      assert quads[..|quads|] == quads;
    }

    /** HashNDegreeQuads. Every call spends one unit of the recursion budget, and
        fails once the budget was already spent. The result is the hash of the
        related hashes in ordinal order, each followed by the path chosen for its
        group, together with the issuer of the last chosen path. */
    method HashNDegreeQuads(identifier: string, issuer: Issuer) returns (r: Result<(string, Issuer)>, ghost trace: NDegreeTrace)
      requires Valid() && IndexClosed(IndexModel()) && identifier in IndexModel().entries && issuer.Valid()
      modifies this`nquadsRecursionLimit
      decreases Budget(), 0
      ensures nquadsRecursionLimit < old(nquadsRecursionLimit)
      ensures old(nquadsRecursionLimit) <= 0 ==> r == Failure(RecursionLimitReached)
      ensures r.Success? <==> nquadsRecursionLimit >= 0
      ensures old(nquadsRecursionLimit) > 0 && RelatedMap(prims, IndexModel(), canonicalIssuer, issuer, identifier).keys == [] ==>
        r.Success? && nquadsRecursionLimit == old(nquadsRecursionLimit) - 1
      ensures r.Success? ==> GrownFrom(r.value.1, issuer, IndexModel())
      ensures r.Success? ==>
        && trace.budget == old(nquadsRecursionLimit)
        && NDegreeHashed(prims, IndexModel(), canonicalIssuer, identifier, issuer, r.value, trace)
        && nquadsRecursionLimit == CounterAfter(trace)
      ensures r.Failure? ==>
        && nquadsRecursionLimit == Exhausted(old(nquadsRecursionLimit))
        && NDegreeFailed(prims, IndexModel(), canonicalIssuer, identifier, issuer, old(nquadsRecursionLimit), trace)
    {
      var limit := nquadsRecursionLimit;
      nquadsRecursionLimit := nquadsRecursionLimit - 1;
      if limit <= 0 {
        return Failure(RecursionLimitReached), NDegreeTrace(0, [], [], [], [], [], []);
      }
      r, trace := HashRelated(identifier, issuer, limit);
    }

    /** The body of HashNDegreeQuads once the budget is spent: collect the related
        map, then hash its groups in ordinal order of the related hash. The
        budget left before the call was `bound`; every recursive call made from
        here has less. */
    method HashRelated(identifier: string, issuer: Issuer, ghost bound: nat) returns (r: Result<(string, Issuer)>, ghost trace: NDegreeTrace)
      requires Valid() && IndexClosed(IndexModel()) && identifier in IndexModel().entries && issuer.Valid()
      requires bound >= 1 && nquadsRecursionLimit == bound - 1
      modifies this`nquadsRecursionLimit
      decreases Budget(), 6
      ensures nquadsRecursionLimit <= old(nquadsRecursionLimit)
      ensures r.Success? <==> nquadsRecursionLimit >= 0
      ensures RelatedMap(prims, IndexModel(), canonicalIssuer, issuer, identifier).keys == [] ==>
        r.Success? && nquadsRecursionLimit == old(nquadsRecursionLimit)
      ensures r.Success? ==> GrownFrom(r.value.1, issuer, IndexModel())
      ensures r.Success? ==>
        && trace.budget == bound
        && NDegreeHashed(prims, IndexModel(), canonicalIssuer, identifier, issuer, r.value, trace)
        && nquadsRecursionLimit == CounterAfter(trace)
      ensures r.Failure? ==>
        && nquadsRecursionLimit == -1 && trace.budget == bound
        && NDegreeFailedIn(prims, IndexModel(), canonicalIssuer, identifier, issuer, trace)
    {
      ghost var index := IndexModel();
      var related := CollectRelated(identifier, issuer);
      RelatedMapIndexed(prims, index, canonicalIssuer, issuer, identifier);
      var sortedKeys := SortOrdinal(related.keys);
      r, trace := HashGroups(related, sortedKeys, issuer, bound);
    }

    /** The loop over the related hashes of HashNDegreeQuads, in the given order:
        each hash is followed by the path chosen for its group, and the issuer of
        each chosen path is carried to the next group. */
    method HashGroups(related: MultiValueDictionary<string, string>, sortedKeys: seq<string>, issuer: Issuer, ghost bound: nat)
        returns (r: Result<(string, Issuer)>, ghost trace: NDegreeTrace)
      requires Valid() && IndexClosed(IndexModel()) && issuer.Valid() && related.Valid()
      requires bound >= 1 && nquadsRecursionLimit == bound - 1
      requires forall key :: key in sortedKeys ==> key in related.Model().entries
      requires ValuesIndexed(related.Model(), IndexModel())
      modifies this`nquadsRecursionLimit
      decreases Budget(), 5
      ensures nquadsRecursionLimit <= old(nquadsRecursionLimit)
      ensures r.Success? <==> nquadsRecursionLimit >= 0
      ensures sortedKeys == [] ==> r.Success? && nquadsRecursionLimit == old(nquadsRecursionLimit)
      ensures r.Success? ==> GrownFrom(r.value.1, issuer, IndexModel())
      ensures r.Success? ==>
        && trace.budget == bound && trace.keys == sortedKeys
        && GroupsChosen(prims, IndexModel(), canonicalIssuer, related.Model(), issuer, trace)
        && r.value.0 == MultiHash(prims.digest, Interleave(sortedKeys, trace.paths))
        && r.value.1 == trace.issuers[|sortedKeys|]
        && nquadsRecursionLimit == CounterAfter(trace)
      ensures r.Failure? ==>
        && nquadsRecursionLimit == -1 && trace.budget == bound
        && 1 <= |trace.keys| <= |sortedKeys| && trace.keys == sortedKeys[..|trace.keys|]
        && GroupsFailed(prims, IndexModel(), canonicalIssuer, related.Model(), issuer, trace)
    {
      ghost var index := IndexModel();
      ghost var m := related.Model();
      ghost var canonical := canonicalIssuer;
      var dataToHash: seq<string> := [];
      var current := issuer;
      trace := NDegreeTrace(bound, [], [], [], [issuer], [], [bound - 1]);
      GrownFromReflexive(issuer, index);
      assert sortedKeys[..0] == [];
      for k := 0 to |sortedKeys|
        invariant nquadsRecursionLimit >= 0 && nquadsRecursionLimit == CounterAfter(trace)
        invariant nquadsRecursionLimit <= old(nquadsRecursionLimit) && trace.budget == bound
        invariant GroupsSoFar(prims, index, canonical, m, issuer, sortedKeys, k, trace, dataToHash, current)
        invariant GrownFrom(current, issuer, index)
      {
        var key := sortedKeys[k];
        assert key in sortedKeys;
        var group := related.Get(key);
        var choice, outcomes, marks := ChoosePath(group, current, bound);
        if choice.Failure? {
          trace := GroupsFailedStep(prims, index, canonical, m, issuer, sortedKeys, k, trace, dataToHash, current, outcomes, marks);
          return Failure(choice.error), trace;
        }
        trace := GroupsChosenStep(prims, index, canonical, m, issuer, sortedKeys, k, trace, dataToHash, current, outcomes, marks,
                                  choice.value.0, choice.value.1, nquadsRecursionLimit);
        dataToHash := dataToHash + [key, choice.value.0];
        GrownFromTransitive(choice.value.1, current, issuer, index);
        current := choice.value.1;
      }
      assert sortedKeys[..|sortedKeys|] == sortedKeys;
      if sortedKeys == [] {
        assert trace.keys == [] && |trace.counters| == 1;
      }
      r := Success((MultiHash(prims.digest, dataToHash), current));
    }

    /** The loop over the permutations of one group: every permutation is explored
        and the least path is kept, together with its issuer. `marks` records the
        recursion counter before each permutation and after the last. */
    method ChoosePath(group: seq<string>, issuer: Issuer, ghost bound: nat)
        returns (r: Result<(string, Issuer)>, ghost outcomes: seq<PathOutcome>, ghost marks: seq<int>)
      requires Valid() && IndexClosed(IndexModel()) && issuer.Valid() && 0 <= nquadsRecursionLimit < bound
      requires |group| >= 1 && forall x :: x in group ==> x in IndexModel().entries
      modifies this`nquadsRecursionLimit
      decreases Budget(), 4
      ensures nquadsRecursionLimit <= old(nquadsRecursionLimit)
      ensures r.Success? <==> nquadsRecursionLimit >= 0
      ensures r.Success? ==> GrownFrom(r.value.1, issuer, IndexModel())
      ensures r.Success? ==> GroupChosen(prims, IndexModel(), canonicalIssuer, bound, group, issuer, old(nquadsRecursionLimit),
                                         outcomes, marks, r.value.0, r.value.1, nquadsRecursionLimit)
      ensures r.Failure? ==>
        && nquadsRecursionLimit == -1
        && GroupFails(prims, IndexModel(), canonicalIssuer, bound, group, issuer, old(nquadsRecursionLimit), outcomes, marks)
    {
      ghost var index := IndexModel();
      var list := new string[|group|](i requires 0 <= i < |group| => group[i]);
      assert list[..] == group;
      var perms := Permute(list, list.Length);
      PermutationsLength(group, |group|);
      var chosenPath := "";
      var chosenIssuer: Option<Issuer> := None;
      ghost var c := 0;
      outcomes, marks := [], [nquadsRecursionLimit];
      for i := 0 to |perms|
        invariant |outcomes| == i && |marks| == i + 1 && marks[0] == old(nquadsRecursionLimit)
        invariant nquadsRecursionLimit >= 0 && nquadsRecursionLimit == marks[i]
        invariant nquadsRecursionLimit <= old(nquadsRecursionLimit)
        invariant NoneFailed(outcomes)
        invariant chosenPath == RunningChoice(outcomes)
        invariant i == 0 <==> chosenIssuer.None?
        invariant chosenIssuer.None? ==> chosenPath == ""
        invariant chosenIssuer.Some? ==>
          && chosenPath != ""
          && GrownFrom(chosenIssuer.value, issuer, index)
          && ChosenAt(outcomes, c, chosenPath, chosenIssuer.value)
        invariant OutcomesOf(prims, index, canonicalIssuer, bound, issuer, perms, outcomes, marks)
      {
        PermutationMembers(group, perms[i]);
        var outcome := PermutationPath(perms[i], issuer, chosenPath, bound);
        if outcome.Failed? {
          assert (outcomes + [outcome])[..i] == outcomes;
          assert OutcomeOf(prims, index, canonicalIssuer, bound, issuer, perms[i], RunningChoice(outcomes),
                           marks[i], outcome, -1);
          return Failure(outcome.error), outcomes + [outcome], marks;
        }
        ghost var previous := outcomes;
        OutcomesOfStep(prims, index, canonicalIssuer, bound, issuer, perms, previous, marks, outcome, nquadsRecursionLimit);
        NoneFailedStep(previous, outcome);
        outcomes, marks := outcomes + [outcome], marks + [nquadsRecursionLimit];
        ghost var kept := chosenIssuer;
        chosenPath, chosenIssuer, c := KeepLeast(previous, c, chosenPath, chosenIssuer, outcome);
        assert chosenIssuer == kept || chosenIssuer == Some(outcome.issuer);
      }
      r := Success((chosenPath, chosenIssuer.value));
    }

    /** The choice after one more permutation: a completed path ordinally below
        the chosen one, or the first completed path, becomes the choice with its
        issuer; a pruned path, or a completed one not below, leaves the choice. */
    static method KeepLeast(ghost outcomes: seq<PathOutcome>, ghost c: int, chosenPath: string,
                            chosenIssuer: Option<Issuer>, outcome: PathOutcome)
        returns (path: string, chosen: Option<Issuer>, ghost c': int)
      requires !outcome.Failed?
      requires chosenIssuer.None? ==> outcomes == [] && chosenPath == "" && outcome.Complete?
      requires chosenIssuer.Some? ==> chosenPath != "" && ChosenAt(outcomes, c, chosenPath, chosenIssuer.value)
      requires chosenPath == RunningChoice(outcomes)
      requires outcome.Pruned? ==> Greater(outcome.partial, chosenPath)
      requires outcome.Complete? ==> outcome.path != ""
      ensures chosen.Some? && path != "" && ChosenAt(outcomes + [outcome], c', path, chosen.value)
      ensures path == RunningChoice(outcomes + [outcome])
      ensures chosen == chosenIssuer || (outcome.Complete? && chosen == Some(outcome.issuer))
    {
      path, chosen, c' := chosenPath, chosenIssuer, c;
      if outcome.Complete? {
        var less := StringLessThan(outcome.path, chosenPath);
        if chosenPath != "" && !less {
          ChoiceKeep(outcomes, c, chosenPath, chosenIssuer.value, outcome);
        } else {
          if chosenIssuer.Some? {
            ChoiceReplace(outcomes, c, chosenPath, chosenIssuer.value, outcome);
          } else {
            ChoiceFirst(outcome);
          }
          path, chosen, c' := outcome.path, Some(outcome.issuer), |outcomes|;
        }
      } else {
        ChoiceKeep(outcomes, c, chosenPath, chosenIssuer.value, outcome);
      }
    }

    /** StringGreaterThan: ordinal comparison says `a` sorts after `b`. */
    static method StringGreaterThan(a: string, b: string) returns (r: bool)
      ensures r <==> Greater(a, b)
    {
      r := Compare(a, b) > 0;
    }

    /** StringLessThan: ordinal comparison says `a` sorts before `b`. */
    static method StringLessThan(a: string, b: string) returns (r: bool)
      ensures r <==> Less(a, b)
    {
      r := Compare(a, b) < 0;
    }

    /** The first loop over a permutation: label the related nodes in order, giving
        up as soon as the path is at least as long as the chosen path and
        ordinally greater. */
    method DirectLoop(perm: seq<string>, issuer: Issuer, chosenPath: string) returns (pruned: bool, step: DirectStep)
      requires Valid() && issuer.Valid()
      ensures pruned ==> chosenPath != "" && Utf16Length(step.path) >= Utf16Length(chosenPath) && Greater(step.path, chosenPath)
      ensures pruned ==> PrunedInDirect(canonicalIssuer, issuer, perm, chosenPath, step.path)
      ensures !pruned ==> step == DirectPath(canonicalIssuer, issuer, perm)
      ensures !pruned ==> DirectUnpruned(canonicalIssuer, issuer, perm, chosenPath, |perm|)
    {
      var path := "";
      var issuerCopy := issuer;
      var recursionList: seq<string> := [];
      for i := 0 to |perm|
        invariant DirectStep(path, issuerCopy, recursionList) == DirectPath(canonicalIssuer, issuer, perm[..i])
        invariant DirectUnpruned(canonicalIssuer, issuer, perm, chosenPath, i)
      {
        DirectPathStep(canonicalIssuer, issuer, perm, i);
        var related := perm[i];
        var canonicalId := canonicalIssuer.GetMappedIdentifier(related);
        if canonicalId.Some? {
          path := path + canonicalId.value;
        } else {
          if issuerCopy.GetMappedIdentifier(related).None? {
            recursionList := recursionList + [related];
          }
          var (next, text) := issuerCopy.GenerateBlankNodeIdentifier(related);
          issuerCopy := next;
          path := path + text;
        }
        var abandon := false;
        if chosenPath != "" && Utf16Length(path) >= Utf16Length(chosenPath) {
          abandon := StringGreaterThan(path, chosenPath);
        }
        assert path == DirectPath(canonicalIssuer, issuer, perm[..i + 1]).path;
        if abandon {
          return true, DirectStep(path, issuerCopy, recursionList);
        }
        DirectUnprunedStep(canonicalIssuer, issuer, perm, chosenPath, i);
      }
      assert perm[..|perm|] == perm;
      return false, DirectStep(path, issuerCopy, recursionList);
    }

    /** One permutation: the first loop labels the related nodes, the second recurses
        on those labelled anew, and the path is abandoned as soon as it is at least
        as long as the chosen path and ordinally greater. The completed path is the
        first loop's path followed by, for each node recursed on, its label and the
        hash the recursion returned. */
    method PermutationPath(perm: seq<string>, issuer: Issuer, chosenPath: string, ghost bound: nat) returns (outcome: PathOutcome)
      requires Valid() && IndexClosed(IndexModel()) && issuer.Valid() && 0 <= nquadsRecursionLimit < bound
      requires forall x :: x in perm ==> x in IndexModel().entries
      modifies this`nquadsRecursionLimit
      decreases Budget(), 3
      ensures nquadsRecursionLimit <= old(nquadsRecursionLimit)
      ensures outcome.Failed? <==> nquadsRecursionLimit < 0
      ensures outcome.Failed? ==> nquadsRecursionLimit == -1
      ensures outcome.Pruned? ==> chosenPath != "" && Utf16Length(outcome.partial) >= Utf16Length(chosenPath) && Greater(outcome.partial, chosenPath)
      ensures outcome.Complete? ==> |outcome.path| >= |perm| && GrownFrom(outcome.issuer, issuer, IndexModel())
      ensures OutcomeOf(prims, IndexModel(), canonicalIssuer, bound, issuer, perm, chosenPath,
                        old(nquadsRecursionLimit), outcome, nquadsRecursionLimit)
    {
      var pruned, direct := DirectLoop(perm, issuer, chosenPath);
      if pruned {
        return Pruned(direct.path);
      }
      ghost var index := IndexModel();
      ghost var hashes, issuers, counters;
      outcome, hashes, issuers, counters := RecursionLoop(direct, chosenPath, bound);
      if outcome.Pruned? {
        RecursedUpToPruned(prims, index, canonicalIssuer, bound, direct, hashes, issuers, counters, chosenPath, outcome.partial);
      } else if outcome.Complete? {
        RecursedUpToComplete(prims, index, canonicalIssuer, bound, direct, hashes, issuers, counters, chosenPath, outcome.path);
        GrownFromTransitive(outcome.issuer, direct.issuer, issuer, index);
      } else {
        RecursedUpToFailed(prims, index, canonicalIssuer, bound, direct, hashes, issuers, counters, chosenPath);
      }
    }

    /** The second loop over a permutation: for each node the first loop labelled
        anew, in order, append its label and the hash HashNDegreeQuads gives it
        under the issuer copy, which the recursion's issuer then replaces. The
        completed path is the first loop's path followed by the recursion text of
        the hashes returned. `counters` records the recursion counter before each
        recursive call and after the last. */
    method RecursionLoop(direct: DirectStep, chosenPath: string, ghost bound: nat)
        returns (outcome: PathOutcome, ghost hashes: seq<string>, ghost issuers: seq<Issuer>, ghost counters: seq<int>)
      requires Valid() && IndexClosed(IndexModel()) && direct.issuer.Valid() && 0 <= nquadsRecursionLimit < bound
      requires forall x :: x in direct.recursion ==> x in IndexModel().entries && x in direct.issuer.issued
      modifies this`nquadsRecursionLimit
      decreases Budget(), 2
      ensures nquadsRecursionLimit <= old(nquadsRecursionLimit)
      ensures outcome.Pruned? ==> chosenPath != "" && Utf16Length(outcome.partial) >= Utf16Length(chosenPath) && Greater(outcome.partial, chosenPath)
      ensures RecursedWith(prims, IndexModel(), canonicalIssuer, bound, direct, hashes, issuers, counters)
      ensures counters[0] == old(nquadsRecursionLimit)
      ensures outcome.Failed? ==>
        && nquadsRecursionLimit == -1 && |hashes| < |direct.recursion|
        && NDegreeFails(prims, IndexModel(), canonicalIssuer, bound, direct.recursion[|hashes|], issuers[|hashes|], counters[|hashes|])
      ensures !outcome.Failed? ==> nquadsRecursionLimit >= 0 && nquadsRecursionLimit == counters[|hashes|]
      ensures !outcome.Pruned? ==> RecursionUnpruned(direct, hashes, chosenPath, |hashes|)
      ensures outcome.Pruned? ==>
        && 1 <= |hashes| && RecursedUpTo(direct, hashes, outcome.partial)
        && RecursionUnpruned(direct, hashes, chosenPath, |hashes| - 1)
      ensures outcome.Complete? ==>
        && |hashes| == |direct.recursion| && RecursedUpTo(direct, hashes, outcome.path)
        && outcome.issuer == issuers[|hashes|]
        && GrownFrom(outcome.issuer, direct.issuer, IndexModel())
    {
      ghost var index := IndexModel();
      var path := direct.path;
      var issuerCopy := direct.issuer;
      var recursionList := direct.recursion;
      GrownFromReflexive(issuerCopy, index);
      hashes, issuers, counters := [], [issuerCopy], [nquadsRecursionLimit];
      for k := 0 to |recursionList|
        invariant |hashes| == k && |counters| == k + 1 && RecursedUpTo(direct, hashes, path)
        invariant RecursionUnpruned(direct, hashes, chosenPath, k)
        invariant nquadsRecursionLimit >= 0 && nquadsRecursionLimit == counters[k] && counters[0] == old(nquadsRecursionLimit)
        invariant nquadsRecursionLimit <= old(nquadsRecursionLimit)
        invariant RecursedWith(prims, index, canonicalIssuer, bound, direct, hashes, issuers, counters) && issuerCopy == issuers[k]
        invariant GrownFrom(issuerCopy, direct.issuer, index)
      {
        var related := recursionList[k];
        assert related in recursionList;
        var result := RecursionHash(related, issuerCopy, bound);
        if result.Failure? {
          return Failed(result.error), hashes, issuers, counters;
        }
        var text := issuerCopy.GenerateBlankNodeIdentifier(related).1;
        RecursionTurn(direct, issuerCopy, result.value.1, index, hashes, result.value.0, path, chosenPath);
        RecursedWithStep(prims, index, canonicalIssuer, bound, direct, hashes, issuers, counters,
                         result.value.0, result.value.1, nquadsRecursionLimit);
        path := path + (text + "<" + result.value.0 + ">");
        hashes, issuers, counters := hashes + [result.value.0], issuers + [result.value.1], counters + [nquadsRecursionLimit];
        issuerCopy := result.value.1;
        var abandon := false;
        if chosenPath != "" && Utf16Length(path) >= Utf16Length(chosenPath) {
          abandon := StringGreaterThan(path, chosenPath);
        }
        if abandon {
          return Pruned(path), hashes, issuers, counters;
        }
        RecursionUnprunedNext(direct, hashes, chosenPath);
      }
      outcome := Complete(path, issuerCopy);
    }

    /** The recursive call of the second loop: HashNDegreeQuads on a node recursed
        on, under the issuer copy. Its result is that node's N-degree hash, made
        with less than `bound` of the budget left, and its issuer grew from the
        copy; or it ran out of budget. */
    method RecursionHash(related: string, issuer: Issuer, ghost bound: nat) returns (r: Result<(string, Issuer)>)
      requires Valid() && IndexClosed(IndexModel()) && related in IndexModel().entries && issuer.Valid()
      requires nquadsRecursionLimit < bound
      modifies this`nquadsRecursionLimit
      decreases Budget(), 1
      ensures Valid() && IndexClosed(IndexModel())
      ensures nquadsRecursionLimit < old(nquadsRecursionLimit)
      ensures r.Success? <==> nquadsRecursionLimit >= 0
      ensures r.Success? ==> GrownFrom(r.value.1, issuer, IndexModel())
      ensures r.Success? ==> NDegreeCall(prims, IndexModel(), canonicalIssuer, bound, related, issuer,
                                         old(nquadsRecursionLimit), r.value, nquadsRecursionLimit)
      ensures r.Failure? ==>
        && nquadsRecursionLimit == Exhausted(old(nquadsRecursionLimit))
        && NDegreeFails(prims, IndexModel(), canonicalIssuer, bound, related, issuer, old(nquadsRecursionLimit))
    {
      ghost var before := nquadsRecursionLimit;
      var result, trace := HashNDegreeQuads(related, issuer);
      if result.Failure? && before > 0 {
        assert NDegreeFailedIn(prims, IndexModel(), canonicalIssuer, related, issuer, trace);
      }
      r := result;
    }

    /** The N-degree hash of one member of a hash group, under a fresh temporary
        issuer that has labelled the member itself. */
    method HashMember(id: string) returns (r: Result<(string, Issuer)>, ghost trace: NDegreeTrace)
      requires Valid() && IndexClosed(IndexModel()) && id in IndexModel().entries
      modifies this`nquadsRecursionLimit
      ensures nquadsRecursionLimit < old(nquadsRecursionLimit)
      ensures old(nquadsRecursionLimit) <= 0 ==> r == Failure(RecursionLimitReached)
      ensures r.Success? <==> nquadsRecursionLimit >= 0
      ensures r.Success? ==>
        && MemberHashed(prims, IndexModel(), canonicalIssuer, id, r.value, trace)
        && trace.budget == old(nquadsRecursionLimit) && nquadsRecursionLimit == CounterAfter(trace)
      ensures r.Failure? ==>
        && nquadsRecursionLimit == Exhausted(old(nquadsRecursionLimit))
        && NDegreeFailed(prims, IndexModel(), canonicalIssuer, id, TempIssuer(prims, id), old(nquadsRecursionLimit), trace)
    {
      var tempIssuer := TempIssuer(prims, id);
      r, trace := HashNDegreeQuads(id, tempIssuer);
    }

    /** The identifiers of one hash group of the deep pass, each hashed with a
        fresh temporary issuer that first labels the identifier itself. An
        identifier that reads like a canonical label ("_:c14n...") is skipped:
        result `i` belongs to the `i`th identifier that is not skipped. The
        hashes run one after the other on the recursion counter; on failure,
        `partial` holds the results before the member whose hash ran out, and
        `failed` that member's trace. */
    method HashGroupMembers(group: seq<string>)
        returns (r: Result<seq<(string, Issuer)>>, ghost traces: seq<NDegreeTrace>,
                 ghost partial: seq<(string, Issuer)>, ghost failed: NDegreeTrace)
      requires Valid() && IndexClosed(IndexModel())
      requires forall v :: v in group ==> v in IndexModel().entries
      modifies this`nquadsRecursionLimit
      ensures nquadsRecursionLimit <= old(nquadsRecursionLimit)
      ensures r.Failure? ==> nquadsRecursionLimit < 0
      ensures r.Success? && old(nquadsRecursionLimit) >= 0 ==> nquadsRecursionLimit >= 0
      ensures r.Success? && old(nquadsRecursionLimit) < 0 ==> nquadsRecursionLimit == old(nquadsRecursionLimit)
      ensures r.Success? ==> forall x :: x in MappedIdentifiersOf(r.value) ==> x in IndexModel().entries
      ensures r.Success? ==> forall v :: v in group && !StartsWith(v, CanonicalPrefix) ==> v in MappedIdentifiersOf(r.value)
      ensures r.Success? ==> MembersHashed(prims, IndexModel(), canonicalIssuer, Hashable(group), r.value, traces)
      ensures r.Success? ==>
        Chained(traces, old(nquadsRecursionLimit)) && nquadsRecursionLimit == ChainEnd(traces, old(nquadsRecursionLimit))
      ensures r.Failure? ==>
        && nquadsRecursionLimit == Exhausted(old(nquadsRecursionLimit))
        && MembersFailed(prims, IndexModel(), canonicalIssuer, Hashable(group), old(nquadsRecursionLimit), partial, traces, failed)
    {
      ghost var index := IndexModel();
      ghost var before := nquadsRecursionLimit;
      var results: seq<(string, Issuer)> := [];
      traces := [];
      for k := 0 to |group|
        invariant before >= 0 ==> nquadsRecursionLimit >= 0
        invariant before < 0 ==> nquadsRecursionLimit == before
        invariant nquadsRecursionLimit <= before && IndexModel() == index
        invariant Chained(traces, before) && nquadsRecursionLimit == ChainEnd(traces, before)
        invariant MembersCovered(index, group[..k], results)
        invariant MembersHashed(prims, index, canonicalIssuer, Hashable(group[..k]), results, traces)
      {
        var id := group[k];
        if StartsWith(id, CanonicalPrefix) {
          MembersSkipStep(prims, index, canonicalIssuer, group, k, results, traces);
          continue;
        }
        var result, trace := HashMember(id);
        if result.Failure? {
          MembersFailedStep(prims, index, canonicalIssuer, group, k, before, results, traces, trace);
          return Failure(result.error), traces, results, trace;
        }
        MembersHashedStep(prims, IndexModel(), canonicalIssuer, group, k, results, traces, result.value, trace);
        ChainedStep(traces, before, trace);
        results := results + [result.value];
        traces := traces + [trace];
      }
      assert group[..|group|] == group;
      r, partial, failed := Success(results), results, NDegreeTrace(0, [], [], [], [], [], []);
    }

    /** GenerateBlankNodeIdentifier on the canonical issuer for each identifier in turn. */
    method IssueAll(ids: seq<string>)
      requires Valid()
      modifies this`canonicalIssuer
      ensures Valid() && canonicalIssuer == GenerateAll(old(canonicalIssuer), ids)
    {
      ghost var c0 := canonicalIssuer;
      for i := 0 to |ids|
        invariant Valid() && canonicalIssuer == GenerateAll(c0, ids[..i])
      {
        assert ids[..i + 1][..i] == ids[..i];
        canonicalIssuer := canonicalIssuer.GenerateBlankNodeIdentifier(ids[i]).0;
      }
      assert ids[..|ids|] == ids;
    }

    /** One group of the deep pass: the results in order of their N-degree hash,
        and the identifiers each result's issuer mapped, in the order it mapped
        them, get canonical labels. On failure the canonical issuer is untouched,
        and `results` holds the members hashed before the one that ran out. */
    method IssueGroup(group: seq<string>)
        returns (r: Result<()>, ghost results: seq<(string, Issuer)>, ghost traces: seq<NDegreeTrace>,
                 ghost failed: NDegreeTrace)
      requires Valid() && IndexClosed(IndexModel())
      requires forall v :: v in group ==> v in IndexModel().entries
      modifies this`canonicalIssuer, this`nquadsRecursionLimit
      ensures Valid()
      ensures r.Failure? ==> nquadsRecursionLimit < 0
      ensures r.Success? && old(nquadsRecursionLimit) >= 0 ==> nquadsRecursionLimit >= 0
      ensures r.Success? && old(nquadsRecursionLimit) < 0 ==> nquadsRecursionLimit == old(nquadsRecursionLimit)
      ensures r.Success? ==> GrownFrom(canonicalIssuer, old(canonicalIssuer), IndexModel())
      ensures r.Success? ==> forall v :: v in group && !StartsWith(v, CanonicalPrefix) ==> v in canonicalIssuer.issued
      ensures r.Success? ==> MembersHashed(prims, IndexModel(), old(canonicalIssuer), Hashable(group), results, traces)
      ensures r.Success? ==> canonicalIssuer == GenerateAll(old(canonicalIssuer), MappedIdentifiersOf(SortBy(results, ResultHash)))
      ensures r.Success? ==>
        Chained(traces, old(nquadsRecursionLimit)) && nquadsRecursionLimit == ChainEnd(traces, old(nquadsRecursionLimit))
      ensures r.Failure? ==>
        && canonicalIssuer == old(canonicalIssuer)
        && nquadsRecursionLimit == Exhausted(old(nquadsRecursionLimit))
        && MembersFailed(prims, IndexModel(), old(canonicalIssuer), Hashable(group), old(nquadsRecursionLimit), results, traces, failed)
    {
      var hashed;
      hashed, traces, results, failed := HashGroupMembers(group);
      if hashed.Failure? {
        return Failure(hashed.error), results, traces, failed;
      }
      results := hashed.value;
      var sorted := SortBy(hashed.value, ResultHash);
      MappedIdentifiersReordered(hashed.value, sorted);
      IssueAll(MappedIdentifiersOf(sorted));
      r := Success(());
    }

    /** One turn of the deep pass: group `keys[i]` of the hash-to-blank-nodes map
        gets its labels, as IssueGroup says, continuing the state DeepSoFar
        describes; or it runs out, and then the deep pass has run out as
        DeepFailed says. */
    method DeepGroup(ghost index: Index, ghost m: Multimap<string, string>, keys: seq<string>, i: nat, ghost c0: Issuer,
                     ghost before: int, ghost groupResults: seq<seq<(string, Issuer)>>, ghost groupTraces: seq<seq<NDegreeTrace>>)
        returns (r: Result<()>, ghost results: seq<(string, Issuer)>, ghost traces: seq<NDegreeTrace>, ghost failed: NDegreeTrace)
      requires Valid() && IndexClosed(IndexModel()) && index == IndexModel()
      requires m == hashToBlankNodesMap.Model() && ValuesIndexed(m, index)
      requires keys == SortOrdinal(m.keys) && i < |keys|
      requires DeepSoFar(prims, index, m, keys, i, c0, before, groupResults, groupTraces, canonicalIssuer, nquadsRecursionLimit)
      requires GroupsCovered(m, keys, i, canonicalIssuer.issued) && GrownFrom(canonicalIssuer, c0, index)
      modifies this`canonicalIssuer, this`nquadsRecursionLimit
      ensures Valid() && IndexModel() == index && hashToBlankNodesMap.Model() == m
      ensures r.Success? ==>
        && DeepSoFar(prims, index, m, keys, i + 1, c0, before, groupResults + [results], groupTraces + [traces],
                     canonicalIssuer, nquadsRecursionLimit)
        && GrownFrom(canonicalIssuer, c0, index)
        && GroupsCovered(m, keys, i + 1, canonicalIssuer.issued)
      ensures r.Failure? ==>
        && nquadsRecursionLimit == Exhausted(before) && nquadsRecursionLimit < 0
        && DeepFailed(prims, index, m, keys, c0, before, groupResults + [results], groupTraces + [traces], failed)
        && canonicalIssuer == GenerateAll(c0, DeepIssued((groupResults + [results])[..|groupResults|]))
    {
      ghost var c1, l1 := canonicalIssuer, nquadsRecursionLimit;
      var group := hashToBlankNodesMap.Get(keys[i]);
      r, results, traces, failed := IssueGroup(group);
      if r.Failure? {
        DeepSoFarFailed(prims, index, m, keys, i, c0, before, groupResults, groupTraces, c1, l1, results, traces, failed);
        return;
      }
      DeepSoFarStep(prims, index, m, keys, i, c0, before, groupResults, groupTraces, c1, l1, results, traces,
                    nquadsRecursionLimit);
      GroupsCoveredStep(m, keys, i, c1, canonicalIssuer);
      GrownFromTransitive(canonicalIssuer, c1, c0, index);
    }

    /** The deep pass: the groups left in the hash-to-blank-nodes map, in ordinal
        order of their hash; within a group the results in order of their N-degree
        hash, and the identifiers each result's issuer mapped, in the order it
        mapped them, get canonical labels. The groups' hashes run one after the
        other on the recursion counter; on failure the last group of the results
        is the one that ran out, and the groups before it keep their labels. */
    method DeepPass()
        returns (r: Result<()>, ghost groupResults: seq<seq<(string, Issuer)>>, ghost groupTraces: seq<seq<NDegreeTrace>>,
                 ghost failed: NDegreeTrace)
      requires Valid() && IndexClosed(IndexModel())
      requires ValuesIndexed(hashToBlankNodesMap.Model(), IndexModel())
      modifies this`canonicalIssuer, this`nquadsRecursionLimit
      ensures Valid()
      ensures r.Failure? ==> nquadsRecursionLimit < 0
      ensures r.Success? && old(nquadsRecursionLimit) >= 0 ==> nquadsRecursionLimit >= 0
      ensures hashToBlankNodesMap.Model().keys == [] ==> r.Success? && nquadsRecursionLimit == old(nquadsRecursionLimit)
      ensures r.Success? ==> GrownFrom(canonicalIssuer, old(canonicalIssuer), IndexModel())
      ensures r.Success? ==> forall h, v ::
        h in hashToBlankNodesMap.Model().entries && v in hashToBlankNodesMap.Model().entries[h] && !StartsWith(v, CanonicalPrefix) ==>
        v in canonicalIssuer.issued
      ensures r.Success? ==>
        && DeepLabelled(prims, IndexModel(), hashToBlankNodesMap.Model(), SortOrdinal(hashToBlankNodesMap.Model().keys),
                        old(canonicalIssuer), groupResults, groupTraces)
        && canonicalIssuer == GenerateAll(old(canonicalIssuer), DeepIssued(groupResults))
      ensures r.Success? ==>
        && DeepChained(groupTraces, old(nquadsRecursionLimit))
        && nquadsRecursionLimit == DeepEnd(groupTraces, old(nquadsRecursionLimit))
      ensures r.Failure? ==>
        && nquadsRecursionLimit == Exhausted(old(nquadsRecursionLimit))
        && DeepFailed(prims, IndexModel(), hashToBlankNodesMap.Model(), SortOrdinal(hashToBlankNodesMap.Model().keys),
                      old(canonicalIssuer), old(nquadsRecursionLimit), groupResults, groupTraces, failed)
        && canonicalIssuer == GenerateAll(old(canonicalIssuer), DeepIssued(groupResults[..|groupResults| - 1]))
    {
      ghost var index := IndexModel();
      ghost var m := hashToBlankNodesMap.Model();
      var keys := SortOrdinal(hashToBlankNodesMap.keys);
      r, groupResults, groupTraces, failed := DeepGroups(index, m, keys);
      if r.Success? {
        DeepSoFarDone(prims, index, m, keys, old(canonicalIssuer), old(nquadsRecursionLimit), groupResults, groupTraces,
                      canonicalIssuer, nquadsRecursionLimit);
        GroupsCoveredAll(m, keys, canonicalIssuer.issued);
      }
    }

    /** The loop of the deep pass over the groups, in the order of `keys`: each
        group is hashed from the canonical issuer and the counter the groups
        before it left; the loop stops at the first group that runs out. */
    method DeepGroups(ghost index: Index, ghost m: Multimap<string, string>, keys: seq<string>)
        returns (r: Result<()>, ghost groupResults: seq<seq<(string, Issuer)>>, ghost groupTraces: seq<seq<NDegreeTrace>>,
                 ghost failed: NDegreeTrace)
      requires Valid() && IndexClosed(IndexModel()) && index == IndexModel()
      requires m == hashToBlankNodesMap.Model() && ValuesIndexed(m, index) && keys == SortOrdinal(m.keys)
      modifies this`canonicalIssuer, this`nquadsRecursionLimit
      ensures Valid()
      ensures r.Success? ==>
        && DeepSoFar(prims, index, m, keys, |keys|, old(canonicalIssuer), old(nquadsRecursionLimit), groupResults,
                     groupTraces, canonicalIssuer, nquadsRecursionLimit)
        && GroupsCovered(m, keys, |keys|, canonicalIssuer.issued)
        && GrownFrom(canonicalIssuer, old(canonicalIssuer), index)
      ensures r.Failure? ==>
        && nquadsRecursionLimit == Exhausted(old(nquadsRecursionLimit)) && nquadsRecursionLimit < 0
        && DeepFailed(prims, index, m, keys, old(canonicalIssuer), old(nquadsRecursionLimit), groupResults, groupTraces, failed)
        && canonicalIssuer == GenerateAll(old(canonicalIssuer), DeepIssued(groupResults[..|groupResults| - 1]))
    {
      ghost var c0 := canonicalIssuer;
      ghost var before := nquadsRecursionLimit;
      GrownFromReflexive(c0, index);
      groupResults, groupTraces := [], [];
      assert keys[..0] == [];
      for i := 0 to |keys|
        invariant Valid() && GrownFrom(canonicalIssuer, c0, index)
        invariant IndexModel() == index && hashToBlankNodesMap.Model() == m
        invariant GroupsCovered(m, keys, i, canonicalIssuer.issued)
        invariant DeepSoFar(prims, index, m, keys, i, c0, before, groupResults, groupTraces, canonicalIssuer, nquadsRecursionLimit)
      {
        var issued, results, traces, lastFailed := DeepGroup(index, m, keys, i, c0, before, groupResults, groupTraces);
        if issued.Failure? {
          return Failure(issued.error), groupResults + [results], groupTraces + [traces], lastFailed;
        }
        groupResults, groupTraces := groupResults + [results], groupTraces + [traces];
      }
      r, failed := Success(()), NDegreeTrace(0, [], [], [], [], [], []);
    }

    /** The expression that relabels one node of the output: a blank node gets its
        canonical label without the leading "_:", any other node stays. */
    method RelabelOutputNode(n: Node) returns (m: Node)
      requires Valid()
      modifies this`canonicalIssuer
      ensures Valid() && (canonicalIssuer, m) == RelabelNode(old(canonicalIssuer), n)
    {
      m := n;
      if n.Blank? {
        var (next, text) := canonicalIssuer.GenerateBlankNodeIdentifier(n.id);
        canonicalIssuer := next;
        m := Blank(StripPrefix(text));
      }
    }

    /** The output loop: each graph's name, then each triple's subject, predicate
        and object. */
    method WriteOutput(dataset: Dataset) returns (output: Dataset)
      requires Valid()
      modifies this`canonicalIssuer
      ensures Valid() && (canonicalIssuer, output) == RelabelDataset(old(canonicalIssuer), dataset)
    {
      ghost var c0 := canonicalIssuer;
      output := [];
      for i := 0 to |dataset|
        invariant Valid() && (canonicalIssuer, output) == RelabelDataset(c0, dataset[..i])
      {
        assert dataset[..i + 1][..i] == dataset[..i];
        var graph := dataset[i];
        ghost var g0 := canonicalIssuer;
        var graphName := graph.name;
        if graph.name.Some? {
          var name := RelabelOutputNode(graph.name.value);
          graphName := Some(name);
        }
        ghost var c1 := canonicalIssuer;
        var triples: seq<Triple> := [];
        for j := 0 to |graph.triples|
          invariant Valid() && (canonicalIssuer, triples) == RelabelTriples(c1, graph.triples[..j])
        {
          assert graph.triples[..j + 1][..j] == graph.triples[..j];
          var t := graph.triples[j];
          var subj := RelabelOutputNode(t.subj);
          var pred := RelabelOutputNode(t.pred);
          var obj := RelabelOutputNode(t.obj);
          triples := triples + [Triple(subj, pred, obj)];
        }
        assert graph.triples[..|graph.triples|] == graph.triples;
        assert (canonicalIssuer, Graph(graphName, triples)) == RelabelGraph(g0, graph);
        output := output + [Graph(graphName, triples)];
      }
      assert dataset[..|dataset|] == dataset;
    }

    /** One simple pass over the waiting identifiers `ids`: group them by
        first-degree hash, label the members of single-member groups in ordinal
        order of the hash, and stop them waiting. */
    method SimplePass(ids: seq<string>) returns (remaining: seq<string>, issued: bool)
      requires Waiting(ids)
      modifies this`canonicalIssuer, hashToBlankNodesMap
      ensures Waiting(remaining)
      ensures canonicalIssuer == GenerateAll(old(canonicalIssuer), SimpleIds(FirstDegreeMap(prims, IndexModel(), ids)))
      ensures remaining == RemoveAll(ids, SimpleIds(FirstDegreeMap(prims, IndexModel(), ids)))
      ensures issued <==> SimpleIds(FirstDegreeMap(prims, IndexModel(), ids)) != []
      ensures !issued ==> remaining == ids && hashToBlankNodesMap.Model() == FirstDegreeMap(prims, IndexModel(), ids)
      ensures issued ==> |remaining| < |ids|
    {
      ghost var index := IndexModel();
      ghost var c1 := canonicalIssuer;
      GroupByFirstDegreeHash(ids);
      remaining, issued := IssueSimple(ids);
      SimplePassStep(prims, index, ids, c1);
      GrownFromTransitive(canonicalIssuer, c1, NewIssuer(CanonicalIdentifier), index);
    }

    /** The simple passes: hash the waiting identifiers, label those whose hash
        no other waiting identifier shares, and repeat while a pass labels any.
        What is left waiting shares its first-degree hash with another waiting
        identifier, and is grouped by hash in the hash-to-blank-nodes map. */
    method SimplePasses(waiting: seq<string>) returns (ids: seq<string>)
      requires Waiting(waiting)
      modifies this`canonicalIssuer, hashToBlankNodesMap
      ensures Waiting(ids)
      ensures hashToBlankNodesMap.Model() == FirstDegreeMap(prims, IndexModel(), ids)
      ensures forall x :: x in ids ==> !HashIsUnique(prims, IndexModel(), ids, x)
      ensures canonicalIssuer == GenerateAll(old(canonicalIssuer), SimpleIssued(prims, IndexModel(), waiting))
      ensures ids == SimpleRemaining(prims, IndexModel(), waiting)
    {
      ghost var index := IndexModel();
      ghost var c0 := canonicalIssuer;
      ids := waiting;
      var simple := true;
      while simple
        invariant Waiting(ids) && IndexModel() == index
        invariant !simple ==> hashToBlankNodesMap.Model() == FirstDegreeMap(prims, index, ids)
        invariant !simple ==> SimpleIds(FirstDegreeMap(prims, index, ids)) == []
        invariant GenerateAll(canonicalIssuer, SimpleIssued(prims, index, ids)) == GenerateAll(c0, SimpleIssued(prims, index, waiting))
        invariant SimpleRemaining(prims, index, ids) == SimpleRemaining(prims, index, waiting)
        decreases |ids| + (if simple then 1 else 0)
      {
        SimpleIssuedStep(prims, index, ids, canonicalIssuer);
        ids, simple := SimplePass(ids);
      }
      forall x | x in ids ensures !HashIsUnique(prims, index, ids, x) {
        SimpleIdsUnique(prims, index, ids, x);
      }
    }

    /** The labelling phases of Canonicalize: the simple passes over all blank
        nodes of the index, then the deep pass over the groups they leave. Every
        label goes to a blank node of the index, and every blank node of the index
        whose identifier does not read like a canonical label gets one. */
    method LabelBlankNodes() returns (r: Result<()>, ghost groupResults: seq<seq<(string, Issuer)>>,
                                      ghost groupTraces: seq<seq<NDegreeTrace>>, ghost failed: NDegreeTrace)
      requires Valid() && IndexClosed(IndexModel()) && canonicalIssuer == NewIssuer(CanonicalIdentifier)
      modifies this`canonicalIssuer, this`nquadsRecursionLimit, hashToBlankNodesMap
      ensures Valid()
      ensures r.Failure? ==> nquadsRecursionLimit < 0
      ensures r.Success? && old(nquadsRecursionLimit) >= 0 ==> nquadsRecursionLimit >= 0
      ensures IndexModel().Valid() && SimpleRemaining(prims, IndexModel(), IndexModel().keys) == [] ==>
        r.Success? && nquadsRecursionLimit == old(nquadsRecursionLimit)
      ensures r.Success? ==>
        && DeepChained(groupTraces, old(nquadsRecursionLimit))
        && nquadsRecursionLimit == DeepEnd(groupTraces, old(nquadsRecursionLimit))
      ensures r.Failure? ==>
        && nquadsRecursionLimit == Exhausted(old(nquadsRecursionLimit))
        && LabellingFailed(prims, IndexModel(), old(nquadsRecursionLimit), groupResults, groupTraces, failed)
      ensures r.Success? ==> GrownFrom(canonicalIssuer, NewIssuer(CanonicalIdentifier), IndexModel())
      ensures r.Success? ==> forall x :: x in IndexModel().entries && !StartsWith(x, CanonicalPrefix) ==> x in canonicalIssuer.issued
      ensures r.Success? ==> LabellingOf(prims, IndexModel(), canonicalIssuer, groupResults, groupTraces)
    {
      ghost var index := IndexModel();
      GrownFromReflexive(canonicalIssuer, index);
      var waiting := blankNodeToQuadsMap.keys;
      assert waiting == index.keys && index.Valid();
      var ids := SimplePasses(waiting);
      assert IndexModel() == index;
      ghost var simple, before := canonicalIssuer, nquadsRecursionLimit;
      assert before == old(nquadsRecursionLimit);
      if ids == [] {
        NothingWaitingNoGroups(prims, index);
      }
      r, groupResults, groupTraces, failed := GroupPass(ids);
      assert IndexModel() == index;
      if r.Success? {
        LabellingFromPasses(prims, index, ids, simple, canonicalIssuer, groupResults, groupTraces);
      } else {
        LabellingFailedFromPasses(prims, index, ids, simple, before, groupResults, groupTraces, failed);
      }
    }

    /** The deep pass run on what the simple passes left waiting (`ids`, grouped by
        first-degree hash): afterwards the blank nodes labelled are still those of
        the index, and every waiting one is labelled unless its identifier reads
        like a canonical label. */
    method GroupPass(ghost ids: seq<string>) returns (r: Result<()>, ghost groupResults: seq<seq<(string, Issuer)>>,
                                                      ghost groupTraces: seq<seq<NDegreeTrace>>, ghost failed: NDegreeTrace)
      requires IndexClosed(IndexModel()) && Waiting(ids)
      requires hashToBlankNodesMap.Model() == FirstDegreeMap(prims, IndexModel(), ids)
      modifies this`canonicalIssuer, this`nquadsRecursionLimit
      ensures Valid() && IndexModel() == old(IndexModel())
      ensures r.Failure? ==> nquadsRecursionLimit < 0
      ensures r.Success? && old(nquadsRecursionLimit) >= 0 ==> nquadsRecursionLimit >= 0
      ensures hashToBlankNodesMap.Model().keys == [] ==> r.Success? && nquadsRecursionLimit == old(nquadsRecursionLimit)
      ensures r.Success? ==>
        && DeepChained(groupTraces, old(nquadsRecursionLimit))
        && nquadsRecursionLimit == DeepEnd(groupTraces, old(nquadsRecursionLimit))
      ensures r.Failure? ==>
        && nquadsRecursionLimit == Exhausted(old(nquadsRecursionLimit))
        && DeepFailed(prims, IndexModel(), FirstDegreeMap(prims, IndexModel(), ids),
                      SortOrdinal(FirstDegreeMap(prims, IndexModel(), ids).keys),
                      old(canonicalIssuer), old(nquadsRecursionLimit), groupResults, groupTraces, failed)
      ensures r.Success? ==> GrownFrom(canonicalIssuer, NewIssuer(CanonicalIdentifier), IndexModel())
      ensures r.Success? ==> forall x :: x in IndexModel().entries && !StartsWith(x, CanonicalPrefix) ==> x in canonicalIssuer.issued
      ensures r.Success? ==>
        && DeepLabelled(prims, IndexModel(), FirstDegreeMap(prims, IndexModel(), ids), SortOrdinal(FirstDegreeMap(prims, IndexModel(), ids).keys),
                        old(canonicalIssuer), groupResults, groupTraces)
        && canonicalIssuer == GenerateAll(old(canonicalIssuer), DeepIssued(groupResults))
    {
      ghost var index := IndexModel();
      FirstDegreeMapCovers(prims, index, ids);
      ghost var c2 := canonicalIssuer;
      r, groupResults, groupTraces, failed := DeepPass();
      assert IndexModel() == index && hashToBlankNodesMap.Model() == FirstDegreeMap(prims, index, ids);
      if r.Failure? {
        return;
      }
      ExtendsIssued(canonicalIssuer, c2);
      GrownFromTransitive(canonicalIssuer, c2, NewIssuer(CanonicalIdentifier), index);
      DeepPassCovers(prims, index, ids, c2, canonicalIssuer);
    }

    /** Canonicalize: index the blank nodes, label them, and write the dataset out
        with every blank node renamed to its canonical label. `labelled` is the
        canonical issuer as the output loop finds it. */
    method Canonicalize(dataset: Dataset) returns (r: Result<Dataset>, ghost labelled: Issuer,
                                                   ghost groupResults: seq<seq<(string, Issuer)>>,
                                                   ghost groupTraces: seq<seq<NDegreeTrace>>, ghost failed: NDegreeTrace)
      requires Valid() && Unused()
      modifies this, blankNodeToQuadsMap, hashToBlankNodesMap
      ensures Valid()
      ensures IndexModel() == FromPairs(Occurrences(dataset))
      ensures r.Failure? ==> nquadsRecursionLimit < 0
      ensures r.Success? <==> nquadsRecursionLimit >= 0
      ensures IndexModel().Valid() && SimpleRemaining(prims, IndexModel(), IndexModel().keys) == [] ==>
        r.Success? && nquadsRecursionLimit == RecursionLimit
      ensures r.Success? ==>
        DeepChained(groupTraces, RecursionLimit) && nquadsRecursionLimit == DeepEnd(groupTraces, RecursionLimit)
      ensures r.Failure? ==>
        && nquadsRecursionLimit == -1
        && LabellingFailed(prims, IndexModel(), RecursionLimit, groupResults, groupTraces, failed)
      ensures r.Success? ==> labelled.Valid() && (canonicalIssuer, r.value) == RelabelDataset(labelled, dataset)
      ensures r.Success? ==> r.value == CanonicalDataset(canonicalIssuer, dataset) && DatasetMapped(canonicalIssuer, dataset)
      ensures r.Success? ==> GrownFrom(labelled, NewIssuer(CanonicalIdentifier), IndexModel())
      ensures r.Success? ==> forall x :: x in IndexModel().entries && !StartsWith(x, CanonicalPrefix) ==> x in labelled.issued
      ensures r.Success? ==> LabellingOf(prims, IndexModel(), labelled, groupResults, groupTraces)
    {
      IndexDataset(dataset);
      IndexOfDataset(dataset);
      var labelling;
      labelling, groupResults, groupTraces, failed := LabelBlankNodes();
      if labelling.Failure? {
        return Failure(labelling.error), canonicalIssuer, groupResults, groupTraces, failed;
      }
      labelled := canonicalIssuer;
      var output := WriteOutput(dataset);
      RelabelIsRenaming(labelled, dataset);
      r := Success(output);
    }
  }
}
