/** The N-degree hash: hashing a related blank node, collecting a blank node's
    related nodes, the part of a permutation's path that needs no recursion, and
    the specification of the whole recursive hash (NDegreeHashed), permutation
    search and pruning included. */
module Related {
  import opened Wrappers
  import opened Sequences
  import opened Ordinal
  import opened Hashing
  import opened Rdf
  import opened Issuers
  import opened Multimaps
  import opened FirstDegree
  import Permutations

  /** A related blank node is known by its canonical label if it has one, else by
      the label the path's issuer gave it, else by its first-degree hash. */
  function RelatedIdentifier(prims: Primitives, index: Index, canonical: Issuer, issuer: Issuer, related: string): (s: string)
    requires canonical.GetMappedIdentifier(related).None? && issuer.GetMappedIdentifier(related).None? ==> related in index.entries
    ensures canonical.GetMappedIdentifier(related).Some? ==> s == canonical.GetMappedIdentifier(related).value
    ensures canonical.GetMappedIdentifier(related).None? && issuer.GetMappedIdentifier(related).Some? ==>
      s == issuer.GetMappedIdentifier(related).value
    ensures canonical.GetMappedIdentifier(related).None? && issuer.GetMappedIdentifier(related).None? ==>
      s == HashFirstDegreeQuads(prims, index, related)
  {
    match canonical.GetMappedIdentifier(related)
    case Some(c) => c
    case None =>
      match issuer.GetMappedIdentifier(related)
      case Some(t) => t
      case None => HashFirstDegreeQuads(prims, index, related)
  }

  /** The text hashed for a related blank node: the position, then for a subject or
      object the predicate in angle brackets, then the related node's identifier. */
  function RelatedInput(prims: Primitives, q: Quad, position: string, identifier: string): string {
    position + (if position != "g" then "<" + prims.nodeText(q.pred) + ">" else "") + identifier
  }

  /** HashRelatedBlankNode. */
  function HashRelatedBlankNode(prims: Primitives, index: Index, canonical: Issuer, issuer: Issuer,
                                related: string, q: Quad, position: string): (h: string)
    requires canonical.GetMappedIdentifier(related).None? && issuer.GetMappedIdentifier(related).None? ==> related in index.entries
    ensures IsLowerHex(h)
  {
    MultiHash(prims.digest, [RelatedInput(prims, q, position, RelatedIdentifier(prims, index, canonical, issuer, related))])
  }

  /** Once a related blank node has a canonical label, its hash no longer depends on
      the path being explored: any two path issuers give the same hash. */
  lemma HashRelatedCanonicalFixed(prims: Primitives, index: Index, canonical: Issuer, issuer1: Issuer, issuer2: Issuer,
                                  related: string, q: Quad, position: string)
    requires canonical.GetMappedIdentifier(related).Some?
    ensures HashRelatedBlankNode(prims, index, canonical, issuer1, related, q, position)
         == HashRelatedBlankNode(prims, index, canonical, issuer2, related, q, position)
  {
  }

  /** A graph-name relation ignores the predicate, a subject or object relation
      does not: the predicate of the quad is only hashed for "s" and "o". */
  lemma RelatedInputGraphIgnoresPredicate(prims: Primitives, q1: Quad, q2: Quad, identifier: string)
    ensures RelatedInput(prims, q1, "g", identifier) == RelatedInput(prims, q2, "g", identifier)
    ensures RelatedInput(prims, q1, "s", identifier) == "s<" + prims.nodeText(q1.pred) + ">" + identifier
    ensures RelatedInput(prims, q1, "o", identifier) == "o<" + prims.nodeText(q1.pred) + ">" + identifier
  {
  }

  /** The blank nodes a quad's components mention must be indexed. */
  ghost predicate QuadIndexed(index: Index, q: Quad) {
    forall y :: y in QuadBlankIds(q) ==> y in index.entries
  }

  lemma QuadIndexedComponents(index: Index, q: Quad)
    requires QuadIndexed(index, q)
    ensures q.subj.Blank? ==> q.subj.id in index.entries
    ensures q.pred.Blank? ==> q.pred.id in index.entries
    ensures q.obj.Blank? ==> q.obj.id in index.entries
    ensures q.graph.Some? && q.graph.value.Blank? ==> q.graph.value.id in index.entries
  {
    assert QuadNodes(q)[0] == q.subj && QuadNodes(q)[1] == q.pred && QuadNodes(q)[2] == q.obj;
    assert q.graph.Some? ==> QuadNodes(q)[3] == q.graph.value;
  }

  /** ProcessRelatedComponent: the pair (hash, identifier) it adds for one
      component, or nothing when the component is not a blank node or is the node
      whose related nodes are being collected. */
  function ComponentPairs(prims: Primitives, index: Index, canonical: Issuer, issuer: Issuer,
                          node: Option<Node>, position: string, identifier: string, q: Quad): (r: seq<(string, string)>)
    requires node.Some? && node.value.Blank? ==> node.value.id in index.entries
    ensures |r| <= 1
    ensures r != [] <==> node.Some? && node.value.Blank? && node.value.id != identifier
    ensures r != [] ==> r[0].1 == node.value.id
  {
    if node.Some? && node.value.Blank? && node.value.id != identifier then
      [(HashRelatedBlankNode(prims, index, canonical, issuer, node.value.id, q, position), node.value.id)]
    else []
  }

  /** The pairs one quad contributes: its subject, object and graph name in that
      order; the predicate is never related. */
  function QuadPairs(prims: Primitives, index: Index, canonical: Issuer, issuer: Issuer,
                     identifier: string, q: Quad): seq<(string, string)>
    requires QuadIndexed(index, q)
  {
    QuadIndexedComponents(index, q);
    ComponentPairs(prims, index, canonical, issuer, Some(q.subj), "s", identifier, q)
    + ComponentPairs(prims, index, canonical, issuer, Some(q.obj), "o", identifier, q)
    + ComponentPairs(prims, index, canonical, issuer, q.graph, "g", identifier, q)
  }

  /** `identifier` is indexed and so is every blank node of every quad listed under it. */
  ghost predicate QuadsIndexed(index: Index, identifier: string) {
    identifier in index.entries && forall q :: q in index.entries[identifier] ==> QuadIndexed(index, q)
  }

  /** The pairs of all the quads, in order. */
  function RelatedPairs(prims: Primitives, index: Index, canonical: Issuer, issuer: Issuer,
                        identifier: string, quads: seq<Quad>): seq<(string, string)>
    requires forall q :: q in quads ==> QuadIndexed(index, q)
  {
    if quads == [] then []
    else
      RelatedPairs(prims, index, canonical, issuer, identifier, quads[..|quads| - 1])
      + QuadPairs(prims, index, canonical, issuer, identifier, quads[|quads| - 1])
  }

  /** One turn of the loop over the quads: the subject, object and graph pairs of
      quad `i` follow those of the quads before it. */
  lemma RelatedPairsStep(prims: Primitives, index: Index, canonical: Issuer, issuer: Issuer,
                         identifier: string, quads: seq<Quad>, i: nat)
    requires i < |quads| && forall q :: q in quads ==> QuadIndexed(index, q)
    ensures forall q :: q in quads[..i] ==> QuadIndexed(index, q)
    ensures forall q :: q in quads[..i + 1] ==> QuadIndexed(index, q)
    ensures QuadIndexed(index, quads[i])
    ensures RelatedPairs(prims, index, canonical, issuer, identifier, quads[..i + 1])
         == RelatedPairs(prims, index, canonical, issuer, identifier, quads[..i])
            + QuadPairs(prims, index, canonical, issuer, identifier, quads[i])
  {
    assert quads[i] in quads;
    assert quads[..i + 1][..i] == quads[..i];
    assert quads[..i + 1][i] == quads[i];
  }

  /** `v` is the subject, object or graph name of `q`, as a blank node. */
  predicate RelatedIn(q: Quad, v: string) {
    q.subj == Blank(v) || q.obj == Blank(v) || q.graph == Some(Blank(v))
  }

  lemma QuadPairsMembers(prims: Primitives, index: Index, canonical: Issuer, issuer: Issuer,
                         identifier: string, q: Quad, v: string)
    requires QuadIndexed(index, q)
    ensures (exists h :: (h, v) in QuadPairs(prims, index, canonical, issuer, identifier, q))
      <==> v != identifier && RelatedIn(q, v)
  {
    QuadIndexedComponents(index, q);
    var a := ComponentPairs(prims, index, canonical, issuer, Some(q.subj), "s", identifier, q);
    var b := ComponentPairs(prims, index, canonical, issuer, Some(q.obj), "o", identifier, q);
    var c := ComponentPairs(prims, index, canonical, issuer, q.graph, "g", identifier, q);
    assert QuadPairs(prims, index, canonical, issuer, identifier, q) == a + b + c;
    if v != identifier && RelatedIn(q, v) {
      if q.subj == Blank(v) {
        assert (a[0].0, v) in a + b + c;
      } else if q.obj == Blank(v) {
        assert (b[0].0, v) in a + b + c;
      } else {
        assert (c[0].0, v) in a + b + c;
      }
    }
  }

  /** The related blank nodes are exactly the other blank nodes that share a quad
      with the node as subject, object or graph name. */
  lemma {:induction false} RelatedPairsMembers(prims: Primitives, index: Index, canonical: Issuer, issuer: Issuer,
                                               identifier: string, quads: seq<Quad>, v: string)
    requires forall q :: q in quads ==> QuadIndexed(index, q)
    ensures (exists h :: (h, v) in RelatedPairs(prims, index, canonical, issuer, identifier, quads))
      <==> v != identifier && exists q :: q in quads && RelatedIn(q, v)
  {
    if quads != [] {
      var init := quads[..|quads| - 1];
      var last := quads[|quads| - 1];
      RelatedPairsMembers(prims, index, canonical, issuer, identifier, init, v);
      QuadPairsMembers(prims, index, canonical, issuer, identifier, last, v);
      var earlier := RelatedPairs(prims, index, canonical, issuer, identifier, init);
      var here := QuadPairs(prims, index, canonical, issuer, identifier, last);
      assert RelatedPairs(prims, index, canonical, issuer, identifier, quads) == earlier + here;
      LastSplit(quads);
      if h :| (h, v) in earlier + here {
        if (h, v) in earlier {
          assert v != identifier && exists q :: q in init && RelatedIn(q, v);
        } else {
          assert (h, v) in here;
        }
      }
      if q :| q in quads && RelatedIn(q, v) && v != identifier {
        if q == last {
          var h :| (h, v) in here;
          assert (h, v) in earlier + here;
        } else {
          assert q in init;
          var h :| (h, v) in earlier;
          assert (h, v) in earlier + here;
        }
      }
    }
  }

  /** The related map of a blank node, as HashNDegreeQuads fills it. */
  function RelatedMap(prims: Primitives, index: Index, canonical: Issuer, issuer: Issuer, identifier: string): (m: Multimap<string, string>)
    requires QuadsIndexed(index, identifier)
    ensures m.Valid()
  {
    FromPairs(RelatedPairs(prims, index, canonical, issuer, identifier, index.entries[identifier]))
  }

  // ---------------------------------------------------------------------------
  // Paths

  /** The state after the first loop over a permutation: the path so far, the
      issuer copy, and the related nodes newly labelled, to be recursed on. */
  datatype DirectStep = DirectStep(path: string, issuer: Issuer, recursion: seq<string>)

  /** The first loop over a permutation: each related node adds its canonical label
      if it has one, else the label the issuer copy gives it, issuing (and queueing
      for recursion) a label for a node the copy has not labelled yet. */
  function DirectPath(canonical: Issuer, issuer: Issuer, perm: seq<string>): (r: DirectStep)
    requires issuer.Valid()
    ensures r.issuer.Valid() && Extends(r.issuer, issuer)
    ensures r.issuer.issued == issuer.issued + r.recursion
    ensures |r.path| >= |perm|
    ensures forall x :: x in r.recursion ==> x in perm && canonical.GetMappedIdentifier(x).None?
    ensures forall x :: x in perm ==> canonical.GetMappedIdentifier(x).Some? || x in r.issuer.issued
  {
    if perm == [] then DirectStep("", issuer, [])
    else
      var prev := DirectPath(canonical, issuer, perm[..|perm| - 1]);
      var related := perm[|perm| - 1];
      assert forall x :: x in perm <==> x in perm[..|perm| - 1] || x == related;
      match canonical.GetMappedIdentifier(related)
      case Some(c) =>
        DirectStep(prev.path + c, prev.issuer, prev.recursion)
      case None =>
        var (next, text) := prev.issuer.GenerateBlankNodeIdentifier(related);
        if related in prev.issuer.issued then
          DirectStep(prev.path + text, next, prev.recursion)
        else
          ExtendsTransitive(next, prev.issuer, issuer);
          AppendAssociative(issuer.issued, prev.recursion, [related]);
          assert forall x :: x in prev.recursion + [related] <==> x in prev.recursion || x == related;
          DirectStep(prev.path + text, next, prev.recursion + [related])
  }

  /** One turn of the first loop: the related node's canonical label if it has
      one, otherwise its label from the issuer, recorded for recursion when new. */
  lemma DirectPathStep(canonical: Issuer, issuer: Issuer, perm: seq<string>, i: nat)
    requires issuer.Valid() && i < |perm|
    ensures DirectPath(canonical, issuer, perm[..i + 1])
         == var prev := DirectPath(canonical, issuer, perm[..i]);
            if canonical.GetMappedIdentifier(perm[i]).Some? then
              DirectStep(prev.path + canonical.GetMappedIdentifier(perm[i]).value, prev.issuer, prev.recursion)
            else
              DirectStep(prev.path + prev.issuer.GenerateBlankNodeIdentifier(perm[i]).1,
                         prev.issuer.GenerateBlankNodeIdentifier(perm[i]).0,
                         prev.recursion + (if perm[i] in prev.issuer.issued then [] else [perm[i]]))
  {
    assert perm[..i + 1][..i] == perm[..i];
    var prev := DirectPath(canonical, issuer, perm[..i]);
    assert prev.recursion + [] == prev.recursion;
  }

  /** Every value listed in `m` is a blank node of the index. */
  ghost predicate ValuesIndexed(m: Multimap<string, string>, index: Index) {
    forall k, v :: k in m.entries && v in m.entries[k] ==> v in index.entries
  }

  /** Every value in the related map is an indexed blank node. */
  lemma RelatedMapIndexed(prims: Primitives, index: Index, canonical: Issuer, issuer: Issuer, identifier: string)
    requires QuadsIndexed(index, identifier)
    ensures ValuesIndexed(RelatedMap(prims, index, canonical, issuer, identifier), index)
  {
    var quads := index.entries[identifier];
    var pairs := RelatedPairs(prims, index, canonical, issuer, identifier, quads);
    forall k, v | k in FromPairs(pairs).entries && v in FromPairs(pairs).entries[k] ensures v in index.entries {
      FromPairsGroups(pairs, k);
      ValuesForMembers(pairs, k);
      RelatedValueIndexed(prims, index, canonical, issuer, identifier, k, v);
    }
  }

  lemma RelatedValueIndexed(prims: Primitives, index: Index, canonical: Issuer, issuer: Issuer, identifier: string,
                            k: string, v: string)
    requires QuadsIndexed(index, identifier)
    requires (k, v) in RelatedPairs(prims, index, canonical, issuer, identifier, index.entries[identifier])
    ensures v in index.entries
  {
    var quads := index.entries[identifier];
    RelatedPairsMembers(prims, index, canonical, issuer, identifier, quads, v);
    var q :| q in quads && RelatedIn(q, v);
    RelatedInBlankIds(q, v);
  }

  /** A related component is one of the quad's blank nodes. */
  lemma RelatedInBlankIds(q: Quad, v: string)
    requires RelatedIn(q, v)
    ensures v in QuadBlankIds(q)
  {
    assert QuadNodes(q)[0] == q.subj && QuadNodes(q)[2] == q.obj;
    assert q.graph.Some? ==> QuadNodes(q)[3] == q.graph.value;
  }

  /** `later` came from `earlier` by issuing labels to indexed blank nodes only. */
  ghost predicate GrownFrom(later: Issuer, earlier: Issuer, index: Index) {
    later.Valid() && Extends(later, earlier)
    && forall x :: x in later.issued ==> x in earlier.issued || x in index.entries
  }

  lemma GrownFromReflexive(issuer: Issuer, index: Index)
    requires issuer.Valid()
    ensures GrownFrom(issuer, issuer, index)
  {
    assert issuer.issued[..|issuer.issued|] == issuer.issued;
  }

  lemma GrownFromTransitive(a: Issuer, b: Issuer, c: Issuer, index: Index)
    requires GrownFrom(a, b, index) && GrownFrom(b, c, index)
    ensures GrownFrom(a, c, index)
  {
    ExtendsTransitive(a, b, c);
  }

  /** The text the second loop over a permutation appends: for each node recursed
      on, its label and, in angle brackets, the hash the recursion returned. */
  function RecursionText(issuer: Issuer, recursion: seq<string>, hashes: seq<string>): string
    requires |recursion| == |hashes| && issuer.Valid()
  {
    if recursion == [] then ""
    else
      var n := |recursion| - 1;
      RecursionText(issuer, recursion[..n], hashes[..n])
      + (issuer.GenerateBlankNodeIdentifier(recursion[n]).1 + "<" + hashes[n] + ">")
  }

  /** The data HashNDegreeQuads hashes: each related hash followed by the path
      chosen for its group. */
  function Interleave(keys: seq<string>, paths: seq<string>): (data: seq<string>)
    requires |keys| == |paths|
    ensures |data| == 2 * |keys|
    ensures forall i :: 0 <= i < |keys| ==> data[2 * i] == keys[i] && data[2 * i + 1] == paths[i]
  {
    if keys == [] then []
    else Interleave(keys[..|keys| - 1], paths[..|paths| - 1]) + [keys[|keys| - 1], paths[|paths| - 1]]
  }

  lemma InterleaveStep(keys: seq<string>, paths: seq<string>, k: nat, p: string)
    requires k < |keys| && |paths| == k
    ensures Interleave(keys[..k + 1], paths + [p]) == Interleave(keys[..k], paths) + [keys[k], p]
  {
    assert keys[..k + 1][..k] == keys[..k];
    assert (paths + [p])[..k] == paths;
  }

  /** How exploring one permutation ended: a recursion gave up, the path was
      abandoned as already greater than the chosen one, or it was completed. */
  datatype PathOutcome =
    | Failed(error: Error)
    | Pruned(partial: string)
    | Complete(path: string, issuer: Issuer)

  /** Outcome `c` completed with `path` and `issuer`, it is ordinally below every
      earlier completed path and at most every completed path, and every abandoned
      path was already greater than it. */
  ghost predicate ChosenAt(outcomes: seq<PathOutcome>, c: int, path: string, issuer: Issuer) {
    && 0 <= c < |outcomes| && outcomes[c] == Complete(path, issuer)
    && (forall j :: 0 <= j < c && outcomes[j].Complete? ==> Less(path, outcomes[j].path))
    && (forall j :: 0 <= j < |outcomes| && outcomes[j].Complete? ==> AtMost(path, outcomes[j].path))
    && (forall j :: 0 <= j < |outcomes| && outcomes[j].Pruned? ==> Greater(outcomes[j].partial, path))
  }

  /** No exploration gave up. */
  predicate NoneFailed(outcomes: seq<PathOutcome>) {
    forall j :: 0 <= j < |outcomes| ==> !outcomes[j].Failed?
  }

  lemma NoneFailedStep(outcomes: seq<PathOutcome>, o: PathOutcome)
    requires NoneFailed(outcomes) && !o.Failed?
    ensures NoneFailed(outcomes + [o])
  {
    var next := outcomes + [o];
    assert forall j :: 0 <= j < |outcomes| ==> next[j] == outcomes[j];
  }

  /** `path` (with `issuer`) is the one chosen among the outcomes: the ordinally
      least completed path, the first one in case of a tie; every abandoned
      path was already greater than it; and nothing failed. */
  ghost predicate IsChoice(outcomes: seq<PathOutcome>, path: string, issuer: Issuer) {
    && (exists c :: ChosenAt(outcomes, c, path, issuer))
    && NoneFailed(outcomes)
  }

  /** The first permutation explored is chosen once it completes. */
  lemma ChoiceFirst(o: PathOutcome)
    requires o.Complete?
    ensures ChosenAt([o], 0, o.path, o.issuer)
  {
    assert AtMost(o.path, o.path) by { CompareAntisymmetric(o.path, o.path); }
  }

  /** A later outcome that is not ordinally below the choice leaves the choice as it is. */
  lemma ChoiceKeep(outcomes: seq<PathOutcome>, c: int, path: string, issuer: Issuer, o: PathOutcome)
    requires ChosenAt(outcomes, c, path, issuer)
    requires o.Pruned? ==> Greater(o.partial, path)
    requires o.Complete? ==> !Less(o.path, path)
    ensures ChosenAt(outcomes + [o], c, path, issuer)
  {
    var next := outcomes + [o];
    assert forall j :: 0 <= j < |outcomes| ==> next[j] == outcomes[j];
  }

  /** A later completed path ordinally below the choice becomes the choice. */
  lemma ChoiceReplace(outcomes: seq<PathOutcome>, c: int, path: string, issuer: Issuer, o: PathOutcome)
    requires ChosenAt(outcomes, c, path, issuer)
    requires o.Complete? && Less(o.path, path)
    ensures ChosenAt(outcomes + [o], |outcomes|, o.path, o.issuer)
  {
    var next := outcomes + [o];
    assert forall j :: 0 <= j < |outcomes| ==> next[j] == outcomes[j];
    forall j | 0 <= j < |outcomes| && outcomes[j].Complete?
      ensures Less(o.path, outcomes[j].path) && AtMost(o.path, outcomes[j].path)
    {
      LessAtMost(o.path, path, outcomes[j].path);
      CompareAntisymmetric(o.path, outcomes[j].path);
    }
    forall j | 0 <= j < |outcomes| && outcomes[j].Pruned? ensures Greater(outcomes[j].partial, o.path) {
      GreaterLowered(outcomes[j].partial, path, o.path);
    }
    assert AtMost(o.path, o.path) by { CompareAntisymmetric(o.path, o.path); }
  }

  /** The test on which a permutation is abandoned, after every related node of
      either loop: a path has been chosen, the path so far is at least as long
      (in UTF-16 code units) and it sorts ordinally after the chosen one. */
  predicate Abandons(path: string, chosen: string) {
    chosen != "" && Utf16Length(path) >= Utf16Length(chosen) && Greater(path, chosen)
  }

  /** The chosen path as the loop over the permutations holds it after the given
      outcomes: empty at first; a completed path replaces it when it is empty or
      ordinally greater. */
  function RunningChoice(outcomes: seq<PathOutcome>): (chosen: string)
    ensures chosen == "" || exists j :: 0 <= j < |outcomes| && outcomes[j].Complete? && outcomes[j].path == chosen
  {
    if outcomes == [] then ""
    else
      var n := |outcomes| - 1;
      var prev := RunningChoice(outcomes[..n]);
      var o := outcomes[n];
      if o.Complete? && (prev == "" || Less(o.path, prev)) then o.path
      else
        assert forall j :: 0 <= j < n ==> outcomes[..n][j] == outcomes[j];
        prev
  }

  /** Once a path is chosen (the completed paths are never empty), the running
      choice is the chosen one of ChosenAt. */
  lemma {:induction false} RunningChoiceChosen(outcomes: seq<PathOutcome>, c: int, path: string, issuer: Issuer)
    requires ChosenAt(outcomes, c, path, issuer) && NoneFailed(outcomes)
    requires forall j :: 0 <= j < |outcomes| && outcomes[j].Complete? ==> outcomes[j].path != ""
    ensures RunningChoice(outcomes) == path
  {
    var n := |outcomes| - 1;
    var prefix := outcomes[..n];
    var o := outcomes[n];
    assert forall j :: 0 <= j < n ==> prefix[j] == outcomes[j];
    if c == n {
      if RunningChoice(prefix) != "" {
        var j :| 0 <= j < n && prefix[j].Complete? && prefix[j].path == RunningChoice(prefix);
        assert Less(path, outcomes[j].path);
      }
    } else {
      assert ChosenAt(prefix, c, path, issuer);
      RunningChoiceChosen(prefix, c, path, issuer);
      if o.Complete? {
        assert AtMost(path, o.path);
        CompareAntisymmetric(path, o.path);
      }
    }
  }

  /** No prefix of the first `n` related nodes of the permutation met the test
      against `chosen`: the first loop did not abandon it there. */
  predicate DirectUnpruned(canonical: Issuer, issuer: Issuer, perm: seq<string>, chosen: string, n: nat)
    requires issuer.Valid() && n <= |perm|
  {
    forall i :: 1 <= i <= n ==> !Abandons(DirectPath(canonical, issuer, perm[..i]).path, chosen)
  }

  /** One related node more that does not meet the test extends DirectUnpruned. */
  lemma DirectUnprunedStep(canonical: Issuer, issuer: Issuer, perm: seq<string>, chosen: string, i: nat)
    requires issuer.Valid() && i < |perm| && DirectUnpruned(canonical, issuer, perm, chosen, i)
    requires !Abandons(DirectPath(canonical, issuer, perm[..i + 1]).path, chosen)
    ensures DirectUnpruned(canonical, issuer, perm, chosen, i + 1)
  {
  }

  /** The permutation was abandoned during the first loop, at the first prefix
      of its related nodes whose path met the test against `chosen`: `partial`
      is that path. */
  ghost predicate PrunedInDirect(canonical: Issuer, issuer: Issuer, perm: seq<string>, chosen: string, partial: string)
    requires issuer.Valid()
  {
    exists i :: 1 <= i <= |perm| && partial == DirectPath(canonical, issuer, perm[..i]).path
      && Abandons(partial, chosen) && DirectUnpruned(canonical, issuer, perm, chosen, i - 1)
  }

  /** The path after the first loop and the first `k` recursions of the second. */
  function RecursionPath(direct: DirectStep, hashes: seq<string>, k: nat): string
    requires direct.issuer.Valid() && k <= |hashes| <= |direct.recursion|
  {
    direct.path + RecursionText(direct.issuer, direct.recursion[..k], hashes[..k])
  }

  /** No path after the first `n` recursions met the test against `chosen`: the
      second loop did not abandon the permutation there. */
  predicate RecursionUnpruned(direct: DirectStep, hashes: seq<string>, chosen: string, n: nat)
    requires direct.issuer.Valid() && n <= |hashes| <= |direct.recursion|
  {
    forall k :: 1 <= k <= n ==> !Abandons(RecursionPath(direct, hashes, k), chosen)
  }

  /** RecursionUnpruned, path by path. */


  // ---------------------------------------------------------------------------
  // The N-degree hash, as a specification
  //
  // The predicates below are mutually recursive: a completed path holds the
  // N-degree hashes of the nodes recursed on, and those are N-degree hashes in
  // the same sense. Every call spends one unit of the recursion budget, so each
  // recursive call is made with less of it left; `bound` and `budget` measure
  // that, and make the recursion well founded.
  //
  // The recursion counter is threaded through all of them: every call records
  // the counter it found (`before`) and the one it left (`after`), and a call
  // that finds it at zero or below runs out of budget, which the failure
  // predicates further down describe.

  /** What one N-degree hash went through: the budget left when it was called,
      the related hashes in the order they were hashed, the path chosen for each
      group, the outcomes of each group's permutations, the issuer before each
      group and after the last, the recursion counter before each permutation
      of each group and after its last one, and the counter before each group
      and after the last. */
  datatype NDegreeTrace = NDegreeTrace(budget: nat, keys: seq<string>, paths: seq<string>,
                                       outcomes: seq<seq<PathOutcome>>, issuers: seq<Issuer>,
                                       marks: seq<seq<int>>, counters: seq<int>)

  /** The recursion counter a trace ends at: the last one it records (after the
      last group of a completed N-degree hash), or the budget if it records none. */
  function CounterAfter(t: NDegreeTrace): int {
    if t.counters == [] then t.budget else t.counters[|t.counters| - 1]
  }

  /** `result` is the N-degree hash of `identifier` under `issuer` (with the hash
      it returns and the issuer it leaves), computed by a call that found the
      recursion counter at `before`, below `bound`, and left it at `after`. */
  ghost predicate NDegreeCall(prims: Primitives, index: Index, canonical: Issuer, bound: nat,
                              identifier: string, issuer: Issuer, before: int, result: (string, Issuer), after: int)
    decreases bound, 0, 0
  {
    exists t: NDegreeTrace {:trigger NDegreeHashed(prims, index, canonical, identifier, issuer, result, t)} ::
      && t.budget < bound && t.budget == before
      && NDegreeHashed(prims, index, canonical, identifier, issuer, result, t)
      && CounterAfter(t) == after
  }

  /** The second loop over a permutation, for its first |hashes| nodes:
      `issuers[0]` is the first loop's issuer copy, and node k of the recursion
      list has the N-degree hash `hashes[k]` under `issuers[k]`, computed by a
      call that left `issuers[k + 1]` and took the counter from `counters[k]`
      to `counters[k + 1]`. */
  ghost predicate RecursedWith(prims: Primitives, index: Index, canonical: Issuer, bound: nat,
                               direct: DirectStep, hashes: seq<string>, issuers: seq<Issuer>, counters: seq<int>)
    decreases bound, 1, 0
  {
    && |hashes| <= |direct.recursion| && |issuers| == |hashes| + 1 && |counters| == |hashes| + 1
    && issuers[0] == direct.issuer
    && forall k {:trigger RecursedAt(prims, index, canonical, bound, direct, hashes, issuers, counters, k)} ::
         0 <= k < |hashes| ==> RecursedAt(prims, index, canonical, bound, direct, hashes, issuers, counters, k)
  }

  /** Node `k` of the recursion list has the N-degree hash `hashes[k]` under
      `issuers[k]`, computed by a call that left `issuers[k + 1]` and took the
      counter from `counters[k]` to `counters[k + 1]`. */
  ghost predicate RecursedAt(prims: Primitives, index: Index, canonical: Issuer, bound: nat, direct: DirectStep,
                             hashes: seq<string>, issuers: seq<Issuer>, counters: seq<int>, k: nat)
    decreases bound, 0, 1
  {
    && k < |hashes| && k < |direct.recursion| && k + 1 < |issuers| && k + 1 < |counters|
    && NDegreeCall(prims, index, canonical, bound, direct.recursion[k], issuers[k], counters[k],
                   (hashes[k], issuers[k + 1]), counters[k + 1])
  }

  /** The permutation was abandoned during the second loop, after recursing on its
      first |hashes| nodes, which got those N-degree hashes: the path met the test
      against `chosen` there and after no earlier recursion; the counter went
      from `before` to `after`. */
  ghost predicate PrunedInRecursion(prims: Primitives, index: Index, canonical: Issuer, bound: nat,
                                    direct: DirectStep, chosen: string, before: int, partial: string, after: int)
    requires direct.issuer.Valid()
    decreases bound, 2, 0
  {
    exists hashes, issuers, counters {:trigger RecursedWith(prims, index, canonical, bound, direct, hashes, issuers, counters)} ::
      && 1 <= |hashes| <= |direct.recursion|
      && RecursedWith(prims, index, canonical, bound, direct, hashes, issuers, counters)
      && counters[0] == before && counters[|hashes|] == after
      && partial == direct.path + RecursionText(direct.issuer, direct.recursion[..|hashes|], hashes)
      && Abandons(partial, chosen) && RecursionUnpruned(direct, hashes, chosen, |hashes| - 1)
  }

  /** The permutation was completed: every node of the recursion list got its
      N-degree hash, no path along the way met the test against `chosen`, the
      path is the first loop's path followed by their recursion text, `result` is
      the issuer the last recursion left, and the counter went from `before` to
      `after`. */
  ghost predicate CompletedWith(prims: Primitives, index: Index, canonical: Issuer, bound: nat,
                                direct: DirectStep, chosen: string, before: int, path: string, result: Issuer, after: int)
    requires direct.issuer.Valid()
    decreases bound, 2, 0
  {
    exists hashes, issuers, counters {:trigger RecursedWith(prims, index, canonical, bound, direct, hashes, issuers, counters)} ::
      && |hashes| == |direct.recursion|
      && RecursedWith(prims, index, canonical, bound, direct, hashes, issuers, counters)
      && counters[0] == before && counters[|hashes|] == after
      && path == direct.path + RecursionText(direct.issuer, direct.recursion, hashes)
      && result == issuers[|hashes|]
      && RecursionUnpruned(direct, hashes, chosen, |hashes|)
  }

  /** The permutation ran out of budget during the second loop: the first
      |hashes| nodes recursed on got their N-degree hashes, the counter going
      from `before` through `counters`, no path after them met the test against
      `chosen`, and the call on the next node ran out. */
  ghost predicate FailedInRecursion(prims: Primitives, index: Index, canonical: Issuer, bound: nat,
                                    direct: DirectStep, chosen: string, before: int)
    requires direct.issuer.Valid()
    decreases bound, 2, 0
  {
    exists hashes, issuers, counters {:trigger RecursedWith(prims, index, canonical, bound, direct, hashes, issuers, counters)} ::
      && |hashes| < |direct.recursion|
      && RecursedWith(prims, index, canonical, bound, direct, hashes, issuers, counters)
      && counters[0] == before
      && RecursionUnpruned(direct, hashes, chosen, |hashes|)
      && NDegreeFails(prims, index, canonical, bound, direct.recursion[|hashes|], issuers[|hashes|], counters[|hashes|])
  }

  /** `outcome` is how exploring permutation `perm` under `issuer` ends, with
      `chosen` the path chosen so far and the counter going from `before` to
      `after`: abandoned at the first prefix of the first loop that meets the
      test (which spends nothing); otherwise failed, the budget running out in
      the second loop, or abandoned at the first recursion after which the path
      meets the test; or else completed with the first loop's path followed by
      the recursion text, and the issuer of the last recursion, grown from the
      first loop's one. */
  ghost predicate OutcomeOf(prims: Primitives, index: Index, canonical: Issuer, bound: nat,
                            issuer: Issuer, perm: seq<string>, chosen: string, before: int, outcome: PathOutcome, after: int)
    requires issuer.Valid()
    decreases bound, 3, 0
  {
    var direct := DirectPath(canonical, issuer, perm);
    match outcome
    case Failed(_) =>
      && DirectUnpruned(canonical, issuer, perm, chosen, |perm|)
      && FailedInRecursion(prims, index, canonical, bound, direct, chosen, before)
    case Pruned(partial) =>
      || (PrunedInDirect(canonical, issuer, perm, chosen, partial) && after == before)
      || (&& DirectUnpruned(canonical, issuer, perm, chosen, |perm|)
          && PrunedInRecursion(prims, index, canonical, bound, direct, chosen, before, partial, after))
    case Complete(path, result) =>
      && DirectUnpruned(canonical, issuer, perm, chosen, |perm|)
      && CompletedWith(prims, index, canonical, bound, direct, chosen, before, path, result, after)
      && GrownFrom(result, direct.issuer, index)
      && GrownFrom(result, issuer, index)
  }

  /** Outcome `j` is the outcome of permutation `j`, explored with the path the
      outcomes before it chose, the counter going from `marks[j]` to
      `marks[j + 1]`. */
  ghost predicate OutcomeAt(prims: Primitives, index: Index, canonical: Issuer, bound: nat, issuer: Issuer,
                            perms: seq<seq<string>>, outcomes: seq<PathOutcome>, marks: seq<int>, j: nat)
    requires issuer.Valid()
    decreases bound, 3, 1
  {
    && j < |outcomes| && j < |perms| && j + 1 < |marks|
    && OutcomeOf(prims, index, canonical, bound, issuer, perms[j], RunningChoice(outcomes[..j]),
                 marks[j], outcomes[j], marks[j + 1])
  }

  /** Outcome `j` is the outcome of permutation `j`, for every outcome so far,
      and `marks` holds the counter before each and after the last. */
  ghost predicate OutcomesOf(prims: Primitives, index: Index, canonical: Issuer, bound: nat,
                             issuer: Issuer, perms: seq<seq<string>>, outcomes: seq<PathOutcome>, marks: seq<int>)
    requires issuer.Valid()
    decreases bound, 4, 0
  {
    && |outcomes| <= |perms| && |marks| == |outcomes| + 1
    && forall j {:trigger OutcomeAt(prims, index, canonical, bound, issuer, perms, outcomes, marks, j)} ::
         0 <= j < |outcomes| ==> OutcomeAt(prims, index, canonical, bound, issuer, perms, outcomes, marks, j)
  }

  /** The path (with its issuer) chosen for one group: every permutation of the
      group was explored from `issuer`, outcome by outcome, the counter going
      from `before` to `after`, and the choice is the least completed path among
      them. */
  ghost predicate GroupChosen(prims: Primitives, index: Index, canonical: Issuer, bound: nat, group: seq<string>,
                              issuer: Issuer, before: int, outcomes: seq<PathOutcome>, marks: seq<int>,
                              path: string, chosen: Issuer, after: int)
    decreases bound, 5, 0
  {
    && issuer.Valid() && |group| >= 1
    && |outcomes| == |Permutations.Permutations(group, |group|)|
    && OutcomesOf(prims, index, canonical, bound, issuer, Permutations.Permutations(group, |group|), outcomes, marks)
    && marks[0] == before && marks[|outcomes|] == after
    && IsChoice(outcomes, path, chosen)
  }

  /** The trace of the first `n` groups. */
  function TracePrefix(t: NDegreeTrace, n: nat): (u: NDegreeTrace)
    requires n <= |t.keys| && n <= |t.paths| && n <= |t.outcomes| && n <= |t.marks|
    requires n < |t.issuers| && n < |t.counters|
    ensures u.budget == t.budget
    ensures |u.keys| == n && |u.paths| == n && |u.outcomes| == n && |u.marks| == n
    ensures |u.issuers| == n + 1 && |u.counters| == n + 1
  {
    NDegreeTrace(t.budget, t.keys[..n], t.paths[..n], t.outcomes[..n], t.issuers[..n + 1], t.marks[..n], t.counters[..n + 1])
  }

  /** The groups of `m` listed in `t.keys` were chosen in that order, each from the
      issuer and with the counter the previous group's choice left, starting from
      `issuer` and from one below the budget (the call's own decrement): the last
      group was chosen from `t.issuers[n]`, giving `t.issuers[n + 1]`, after the
      groups before it. */
  ghost predicate GroupsChosen(prims: Primitives, index: Index, canonical: Issuer, m: Multimap<string, string>,
                               issuer: Issuer, t: NDegreeTrace)
    decreases t.budget, 6, |t.keys|
  {
    && |t.paths| == |t.keys| && |t.outcomes| == |t.keys| && |t.issuers| == |t.keys| + 1
    && |t.marks| == |t.keys| && |t.counters| == |t.keys| + 1
    && if t.keys == [] then t.issuers[0] == issuer && t.counters[0] == t.budget - 1
       else
         var n := |t.keys| - 1;
         && GroupsChosen(prims, index, canonical, m, issuer, TracePrefix(t, n))
         && t.keys[n] in m.entries
         && GroupChosen(prims, index, canonical, t.budget, m.entries[t.keys[n]], t.issuers[n], t.counters[n],
                        t.outcomes[n], t.marks[n], t.paths[n], t.issuers[n + 1], t.counters[n + 1])
  }

  /** `result` is the N-degree hash of `identifier` under `issuer`, as `t` records
      it: the call found budget left, the related hashes are those of the related
      map in ordinal order, each group's path was chosen as GroupsChosen says, the
      hash is that of the related hashes each followed by its group's path, and
      the issuer is the one the last choice left. */
  ghost predicate NDegreeHashed(prims: Primitives, index: Index, canonical: Issuer, identifier: string, issuer: Issuer,
                                result: (string, Issuer), t: NDegreeTrace)
    decreases t.budget, 7, 0
  {
    && QuadsIndexed(index, identifier) && issuer.Valid() && t.budget >= 1
    && t.keys == SortOrdinal(RelatedMap(prims, index, canonical, issuer, identifier).keys)
    && GroupsChosen(prims, index, canonical, RelatedMap(prims, index, canonical, issuer, identifier), issuer, t)
    && result.0 == MultiHash(prims.digest, Interleave(t.keys, t.paths))
    && result.1 == t.issuers[|t.keys|]
  }

  // ---------------------------------------------------------------------------
  // Running out of budget, as a specification

  /** The N-degree hash of `identifier` under `issuer`, called with the counter at
      `before`, below `bound`, runs out of budget: at once, when the counter is
      not above zero, or inside one of its groups, as some trace records. */
  ghost predicate NDegreeFails(prims: Primitives, index: Index, canonical: Issuer, bound: nat,
                               identifier: string, issuer: Issuer, before: int)
    decreases bound, 0, 0
  {
    || before <= 0
    || exists t: NDegreeTrace {:trigger NDegreeFailedIn(prims, index, canonical, identifier, issuer, t)} ::
         t.budget < bound && t.budget == before && NDegreeFailedIn(prims, index, canonical, identifier, issuer, t)
  }

  /** The N-degree hash of `identifier` under `issuer`, called with budget
      `t.budget` left, ran out inside its last listed group: the groups before it
      were chosen as GroupsChosen says, in ordinal order of their hashes. */
  ghost predicate NDegreeFailedIn(prims: Primitives, index: Index, canonical: Issuer, identifier: string, issuer: Issuer,
                                  t: NDegreeTrace)
    decreases t.budget, 7, 1
  {
    && QuadsIndexed(index, identifier) && issuer.Valid() && t.budget >= 1
    && var keys := SortOrdinal(RelatedMap(prims, index, canonical, issuer, identifier).keys);
       && 1 <= |t.keys| <= |keys| && t.keys == keys[..|t.keys|]
       && GroupsFailed(prims, index, canonical, RelatedMap(prims, index, canonical, issuer, identifier), issuer, t)
  }

  /** The groups of `m` listed in `t.keys` but the last were chosen as
      GroupsChosen says, and the last one ran out of budget from the issuer and
      the counter they left. */
  ghost predicate GroupsFailed(prims: Primitives, index: Index, canonical: Issuer, m: Multimap<string, string>,
                               issuer: Issuer, t: NDegreeTrace)
    decreases t.budget, 6, |t.keys|
  {
    && |t.keys| >= 1
    && var n := |t.keys| - 1;
       && |t.paths| == n && |t.outcomes| == n + 1 && |t.marks| == n + 1
       && |t.issuers| == n + 1 && |t.counters| == n + 1
       && GroupsChosen(prims, index, canonical, m, issuer, TracePrefix(t, n))
       && t.keys[n] in m.entries
       && GroupFails(prims, index, canonical, t.budget, m.entries[t.keys[n]], t.issuers[n], t.counters[n],
                     t.outcomes[n], t.marks[n])
  }

  /** Exploring the permutations of `group` from `issuer` ran out of budget at the
      last of `outcomes`: the ones before it ended without failing, the counter
      going from `before` through `marks`, and the last one, explored with the
      path they chose, failed in its second loop. */
  ghost predicate GroupFails(prims: Primitives, index: Index, canonical: Issuer, bound: nat, group: seq<string>,
                             issuer: Issuer, before: int, outcomes: seq<PathOutcome>, marks: seq<int>)
    decreases bound, 5, 0
  {
    && issuer.Valid() && |group| >= 1
    && var perms := Permutations.Permutations(group, |group|);
       && 1 <= |outcomes| <= |perms| && |marks| == |outcomes| && marks[0] == before
       && var n := |outcomes| - 1;
          && OutcomesOf(prims, index, canonical, bound, issuer, perms, outcomes[..n], marks)
          && NoneFailed(outcomes[..n])
          && outcomes[n].Failed?
          && OutcomeOf(prims, index, canonical, bound, issuer, perms[n], RunningChoice(outcomes[..n]),
                       marks[n], outcomes[n], -1)
  }

  /** How a top-level N-degree hash, called with the counter at `before`, ran out
      of budget: at once, or as `t` records it. */
  ghost predicate NDegreeFailed(prims: Primitives, index: Index, canonical: Issuer, identifier: string, issuer: Issuer,
                                before: int, t: NDegreeTrace)
  {
    || before <= 0
    || (t.budget == before && NDegreeFailedIn(prims, index, canonical, identifier, issuer, t))
  }

  lemma OutcomesOfStep(prims: Primitives, index: Index, canonical: Issuer, bound: nat, issuer: Issuer,
                       perms: seq<seq<string>>, outcomes: seq<PathOutcome>, marks: seq<int>, o: PathOutcome, after: int)
    requires issuer.Valid() && |outcomes| < |perms|
    requires OutcomesOf(prims, index, canonical, bound, issuer, perms, outcomes, marks)
    requires OutcomeOf(prims, index, canonical, bound, issuer, perms[|outcomes|], RunningChoice(outcomes),
                       marks[|outcomes|], o, after)
    ensures OutcomesOf(prims, index, canonical, bound, issuer, perms, outcomes + [o], marks + [after])
  {
    var next, nextMarks := outcomes + [o], marks + [after];
    forall j | 0 <= j < |next| ensures OutcomeAt(prims, index, canonical, bound, issuer, perms, next, nextMarks, j) {
      assert next[..j] == if j < |outcomes| then outcomes[..j] else outcomes;
      if j < |outcomes| {
        assert OutcomeAt(prims, index, canonical, bound, issuer, perms, outcomes, marks, j);
      }
      assert next[j] == (if j < |outcomes| then outcomes[j] else o);
      assert nextMarks[j] == marks[j] && nextMarks[j + 1] == (if j < |outcomes| then marks[j + 1] else after);
    }
  }

  /** The loop over the related hashes after its first `k` groups: the trace
      records them, chosen from `issuer` as GroupsChosen says, `data` holds each
      key followed by its chosen path, and `current` is the issuer the last
      choice left. */
  ghost predicate GroupsSoFar(prims: Primitives, index: Index, canonical: Issuer, m: Multimap<string, string>, issuer: Issuer,
                              sortedKeys: seq<string>, k: nat, t: NDegreeTrace, data: seq<string>, current: Issuer)
  {
    && k <= |sortedKeys| && t.keys == sortedKeys[..k] && |t.paths| == k
    && GroupsChosen(prims, index, canonical, m, issuer, t)
    && data == Interleave(sortedKeys[..k], t.paths)
    && current == t.issuers[k]
  }

  /** One turn of the loop over the related hashes: the group of `sortedKeys[k]`
      chosen from the issuer and the counter the previous groups left extends the
      trace by one group, and the data to hash by the hash and the chosen path. */
  lemma GroupsChosenStep(prims: Primitives, index: Index, canonical: Issuer, m: Multimap<string, string>, issuer: Issuer,
                         sortedKeys: seq<string>, k: nat, t: NDegreeTrace, data: seq<string>, current: Issuer,
                         outcomes: seq<PathOutcome>, marks: seq<int>, path: string, chosen: Issuer, after: int)
      returns (u: NDegreeTrace)
    requires k < |sortedKeys| && GroupsSoFar(prims, index, canonical, m, issuer, sortedKeys, k, t, data, current)
    requires sortedKeys[k] in m.entries
    requires GroupChosen(prims, index, canonical, t.budget, m.entries[sortedKeys[k]], current, CounterAfter(t),
                         outcomes, marks, path, chosen, after)
    ensures u == NDegreeTrace(t.budget, t.keys + [sortedKeys[k]], t.paths + [path], t.outcomes + [outcomes],
                              t.issuers + [chosen], t.marks + [marks], t.counters + [after])
    ensures GroupsSoFar(prims, index, canonical, m, issuer, sortedKeys, k + 1, u, data + [sortedKeys[k], path], chosen)
    ensures u.budget == t.budget && CounterAfter(u) == after
  {
    u := NDegreeTrace(t.budget, t.keys + [sortedKeys[k]], t.paths + [path], t.outcomes + [outcomes],
                      t.issuers + [chosen], t.marks + [marks], t.counters + [after]);
    assert sortedKeys[..k + 1] == sortedKeys[..k] + [sortedKeys[k]];
    InterleaveStep(sortedKeys, t.paths, k, path);
    GroupsChosenAppend(prims, index, canonical, m, issuer, t, sortedKeys[k], outcomes, marks, path, chosen, after);
  }

  /** The loop over the related hashes, stopped by group `sortedKeys[k]` running out
      of budget from the issuer and the counter the previous groups left: the trace
      of the groups so far, with that group's outcomes, is one of a call that ran out. */
  lemma GroupsFailedStep(prims: Primitives, index: Index, canonical: Issuer, m: Multimap<string, string>, issuer: Issuer,
                         sortedKeys: seq<string>, k: nat, t: NDegreeTrace, data: seq<string>, current: Issuer,
                         outcomes: seq<PathOutcome>, marks: seq<int>) returns (u: NDegreeTrace)
    requires k < |sortedKeys| && GroupsSoFar(prims, index, canonical, m, issuer, sortedKeys, k, t, data, current)
    requires sortedKeys[k] in m.entries
    requires GroupFails(prims, index, canonical, t.budget, m.entries[sortedKeys[k]], current, CounterAfter(t),
                        outcomes, marks)
    ensures u == NDegreeTrace(t.budget, t.keys + [sortedKeys[k]], t.paths, t.outcomes + [outcomes],
                              t.issuers, t.marks + [marks], t.counters)
    ensures u.budget == t.budget && 1 <= |u.keys| <= |sortedKeys| && u.keys == sortedKeys[..|u.keys|]
    ensures GroupsFailed(prims, index, canonical, m, issuer, u)
  {
    u := NDegreeTrace(t.budget, t.keys + [sortedKeys[k]], t.paths, t.outcomes + [outcomes],
                      t.issuers, t.marks + [marks], t.counters);
    assert sortedKeys[..k + 1] == sortedKeys[..k] + [sortedKeys[k]];
    GroupsFailedAppend(prims, index, canonical, m, issuer, t, sortedKeys[k], outcomes, marks);
  }

  /** GroupsChosen extended by one group, chosen from the issuer and the counter
      the groups before left. */
  lemma GroupsChosenAppend(prims: Primitives, index: Index, canonical: Issuer, m: Multimap<string, string>, issuer: Issuer,
                           t: NDegreeTrace, key: string, outcomes: seq<PathOutcome>, marks: seq<int>,
                           path: string, chosen: Issuer, after: int)
    requires GroupsChosen(prims, index, canonical, m, issuer, t) && key in m.entries
    requires GroupChosen(prims, index, canonical, t.budget, m.entries[key], t.issuers[|t.keys|], t.counters[|t.keys|],
                         outcomes, marks, path, chosen, after)
    ensures GroupsChosen(prims, index, canonical, m, issuer,
                         NDegreeTrace(t.budget, t.keys + [key], t.paths + [path], t.outcomes + [outcomes],
                                      t.issuers + [chosen], t.marks + [marks], t.counters + [after]))
  {
    var u := NDegreeTrace(t.budget, t.keys + [key], t.paths + [path], t.outcomes + [outcomes],
                          t.issuers + [chosen], t.marks + [marks], t.counters + [after]);
    assert TracePrefix(u, |t.keys|) == t;
  }

  /** A group that ran out of budget, after the groups the trace records, gives
      a trace of a call that ran out. */
  lemma GroupsFailedAppend(prims: Primitives, index: Index, canonical: Issuer, m: Multimap<string, string>, issuer: Issuer,
                           t: NDegreeTrace, key: string, outcomes: seq<PathOutcome>, marks: seq<int>)
    requires GroupsChosen(prims, index, canonical, m, issuer, t) && key in m.entries
    requires GroupFails(prims, index, canonical, t.budget, m.entries[key], t.issuers[|t.keys|], t.counters[|t.keys|],
                        outcomes, marks)
    ensures GroupsFailed(prims, index, canonical, m, issuer,
                         NDegreeTrace(t.budget, t.keys + [key], t.paths, t.outcomes + [outcomes],
                                      t.issuers, t.marks + [marks], t.counters))
  {
    var u := NDegreeTrace(t.budget, t.keys + [key], t.paths, t.outcomes + [outcomes], t.issuers, t.marks + [marks], t.counters);
    assert TracePrefix(u, |t.keys|) == t;
  }

  /** Each turn of the first loop only appends to the path. */
  lemma DirectPathGrows(canonical: Issuer, issuer: Issuer, perm: seq<string>)
    requires issuer.Valid() && perm != []
    ensures IsPrefix(DirectPath(canonical, issuer, perm[..|perm| - 1]).path, DirectPath(canonical, issuer, perm).path)
  {
    var prev := DirectPath(canonical, issuer, perm[..|perm| - 1]);
    var p := DirectPath(canonical, issuer, perm).path;
    assert p[..|prev.path|] == prev.path;
  }

  /** The path of the first `i` related nodes is a prefix of the path of all of them. */
  lemma {:induction false} DirectPathPrefix(canonical: Issuer, issuer: Issuer, perm: seq<string>, i: nat)
    requires issuer.Valid() && i <= |perm|
    ensures IsPrefix(DirectPath(canonical, issuer, perm[..i]).path, DirectPath(canonical, issuer, perm).path)
  {
    if i == |perm| {
      assert perm[..i] == perm;
    } else {
      var n := |perm| - 1;
      DirectPathPrefix(canonical, issuer, perm[..n], i);
      assert perm[..n][..i] == perm[..i];
      DirectPathGrows(canonical, issuer, perm);
      PrefixTransitive(DirectPath(canonical, issuer, perm[..i]).path, DirectPath(canonical, issuer, perm[..n]).path,
                       DirectPath(canonical, issuer, perm).path);
    }
  }

  /** Each turn of the second loop only appends to the recursion text. */
  lemma RecursionTextGrows(issuer: Issuer, recursion: seq<string>, hashes: seq<string>)
    requires |recursion| == |hashes| && issuer.Valid() && recursion != []
    ensures var n := |recursion| - 1;
      IsPrefix(RecursionText(issuer, recursion[..n], hashes[..n]), RecursionText(issuer, recursion, hashes))
  {
    var n := |recursion| - 1;
    var t := RecursionText(issuer, recursion[..n], hashes[..n]);
    assert RecursionText(issuer, recursion, hashes)[..|t|] == t;
  }

  /** The recursion text of the first `k` nodes is a prefix of that of all of them. */
  lemma {:induction false} RecursionTextPrefix(issuer: Issuer, recursion: seq<string>, hashes: seq<string>, k: nat)
    requires |recursion| == |hashes| && issuer.Valid() && k <= |recursion|
    ensures IsPrefix(RecursionText(issuer, recursion[..k], hashes[..k]), RecursionText(issuer, recursion, hashes))
  {
    if k == |recursion| {
      assert recursion[..k] == recursion && hashes[..k] == hashes;
    } else {
      var n := |recursion| - 1;
      RecursionTextPrefix(issuer, recursion[..n], hashes[..n], k);
      assert recursion[..n][..k] == recursion[..k] && hashes[..n][..k] == hashes[..k];
      RecursionTextGrows(issuer, recursion, hashes);
      PrefixTransitive(RecursionText(issuer, recursion[..k], hashes[..k]), RecursionText(issuer, recursion[..n], hashes[..n]),
                       RecursionText(issuer, recursion, hashes));
    }
  }

  /** Above `c` once, above `c` for good: a string with a prefix greater than `c`
      is greater than `c`. */
  lemma GreaterPrefix(p: string, s: string, c: string)
    requires Greater(p, c) && IsPrefix(p, s)
    ensures Greater(s, c)
  {
    assert s == p + s[|p|..];
    GreaterExtends(p, c, s[|p|..]);
  }

  /** A completed path starts with the first loop's path. */
  lemma CompletedExtendsDirect(prims: Primitives, index: Index, canonical: Issuer, bound: nat, direct: DirectStep,
                                chosen: string, before: int, path: string, result: Issuer, after: int)
    requires direct.issuer.Valid() && CompletedWith(prims, index, canonical, bound, direct, chosen, before, path, result, after)
    ensures IsPrefix(direct.path, path)
  {
    var hashes, issuers, counters :| |hashes| == |direct.recursion|
      && RecursedWith(prims, index, canonical, bound, direct, hashes, issuers, counters)
      && counters[0] == before && counters[|hashes|] == after
      && path == direct.path + RecursionText(direct.issuer, direct.recursion, hashes)
      && result == issuers[|hashes|];
    assert path[..|direct.path|] == direct.path;
  }

  /** Abandoning a permutation during the first loop is sound: whatever hashes its
      recursions would have returned, its completed path would have been greater
      than the chosen one. */
  lemma PrunedInDirectNeverChosen(canonical: Issuer, issuer: Issuer, perm: seq<string>, chosen: string, partial: string,
                                  path: string, hashes: seq<string>)
    requires issuer.Valid() && PrunedInDirect(canonical, issuer, perm, chosen, partial) && Greater(partial, path)
    requires |hashes| == |DirectPath(canonical, issuer, perm).recursion|
    ensures var direct := DirectPath(canonical, issuer, perm);
      Greater(direct.path + RecursionText(direct.issuer, direct.recursion, hashes), path)
  {
    var direct := DirectPath(canonical, issuer, perm);
    var i :| 1 <= i <= |perm| && partial == DirectPath(canonical, issuer, perm[..i]).path;
    DirectPathPrefix(canonical, issuer, perm, i);
    GreaterPrefix(partial, direct.path, path);
    GreaterExtends(direct.path, path, RecursionText(direct.issuer, direct.recursion, hashes));
  }

  /** Abandoning a permutation after `k` recursions is sound: whatever hashes the
      remaining recursions would have returned, its completed path would have been
      greater than the chosen one. */
  lemma PrunedInRecursionNeverChosen(direct: DirectStep, k: nat, hashes: seq<string>, path: string)
    requires direct.issuer.Valid() && 1 <= k <= |direct.recursion| && |hashes| == |direct.recursion|
    requires Greater(direct.path + RecursionText(direct.issuer, direct.recursion[..k], hashes[..k]), path)
    ensures Greater(direct.path + RecursionText(direct.issuer, direct.recursion, hashes), path)
  {
    var t := RecursionText(direct.issuer, direct.recursion, hashes);
    var tk := RecursionText(direct.issuer, direct.recursion[..k], hashes[..k]);
    RecursionTextPrefix(direct.issuer, direct.recursion, hashes, k);
    assert (direct.path + t)[..|direct.path + tk|] == direct.path + tk by {
      assert t[..|tk|] == tk;
    }
    GreaterPrefix(direct.path + tk, direct.path + t, path);
  }

  /** Every abandoned path is greater than the chosen one. */
  lemma PrunedAboveChoice(outcomes: seq<PathOutcome>, path: string, issuer: Issuer, j: nat)
    requires IsChoice(outcomes, path, issuer)
    requires j < |outcomes| && outcomes[j].Pruned?
    ensures Greater(outcomes[j].partial, path)
  {
    var c :| ChosenAt(outcomes, c, path, issuer);
  }

  lemma RecursionTextStep(issuer: Issuer, recursion: seq<string>, hashes: seq<string>, k: nat, h: string)
    requires k < |recursion| && |hashes| == k && issuer.Valid()
    ensures RecursionText(issuer, recursion[..k + 1], hashes + [h])
         == RecursionText(issuer, recursion[..k], hashes) + (issuer.GenerateBlankNodeIdentifier(recursion[k]).1 + "<" + h + ">")
  {
    assert recursion[..k + 1][..k] == recursion[..k];
    assert (hashes + [h])[..k] == hashes;
  }

  /** One turn of the second loop: appending the label `later` gives the node
      recursed on and its hash in angle brackets extends the recursion text by one. */
  lemma RecursionPathStep(issuer: Issuer, later: Issuer, recursion: seq<string>, hashes: seq<string>,
                          k: nat, h: string, prefix: string, path: string)
    requires k < |recursion| && |hashes| == k && issuer.Valid()
    requires later.Valid() && Extends(later, issuer) && recursion[k] in issuer.issued
    requires path == prefix + RecursionText(issuer, recursion[..k], hashes)
    ensures path + (later.GenerateBlankNodeIdentifier(recursion[k]).1 + "<" + h + ">")
         == prefix + RecursionText(issuer, recursion[..k + 1], hashes + [h])
  {
    RecursionTextStep(issuer, recursion, hashes, k, h);
    MappedLabelKept(issuer, later, recursion[k]);
    var t := RecursionText(issuer, recursion[..k], hashes);
    var piece := later.GenerateBlankNodeIdentifier(recursion[k]).1 + "<" + h + ">";
    AppendAssociative(prefix, t, piece);
  }

  /** `path` is the first loop's path followed by the recursion text of the first
      |hashes| nodes recursed on, one hash each. */
  ghost predicate RecursedUpTo(direct: DirectStep, hashes: seq<string>, path: string)
    requires direct.issuer.Valid()
  {
    |hashes| <= |direct.recursion|
    && path == direct.path + RecursionText(direct.issuer, direct.recursion[..|hashes|], hashes)
  }

  /** One whole turn of the second loop: the path grows by the label and hash of
      the next node recursed on, the paths after the earlier recursions stay as
      they were, and the issuer returned by the recursion has still grown from
      the issuer the loop started with. */
  lemma RecursionTurn(direct: DirectStep, copy: Issuer, next: Issuer, index: Index,
                      hashes: seq<string>, h: string, path: string, chosen: string)
    requires direct.issuer.Valid() && |hashes| < |direct.recursion|
    requires forall x :: x in direct.recursion ==> x in direct.issuer.issued
    requires GrownFrom(copy, direct.issuer, index) && GrownFrom(next, copy, index)
    requires RecursedUpTo(direct, hashes, path) && RecursionUnpruned(direct, hashes, chosen, |hashes|)
    ensures var path' := path + (copy.GenerateBlankNodeIdentifier(direct.recursion[|hashes|]).1 + "<" + h + ">");
      && RecursedUpTo(direct, hashes + [h], path')
      && RecursionPath(direct, hashes + [h], |hashes| + 1) == path'
    ensures RecursionUnpruned(direct, hashes + [h], chosen, |hashes|)
    ensures GrownFrom(next, direct.issuer, index)
  {
    var k := |hashes|;
    assert direct.recursion[k] in direct.recursion;
    RecursionPathStep(direct.issuer, copy, direct.recursion, hashes, k, h, direct.path, path);
    RecursedUpToPath(direct, hashes + [h], path + (copy.GenerateBlankNodeIdentifier(direct.recursion[k]).1 + "<" + h + ">"));
    RecursionUnprunedStep(direct, hashes, h, chosen);
    GrownFromTransitive(next, copy, direct.issuer, index);
  }

  /** One recursion more: the next node of the recursion list got hash `h` under
      the issuer and from the counter the previous recursions left, by a call
      that left `next` and the counter at `after`. */
  lemma RecursedWithStep(prims: Primitives, index: Index, canonical: Issuer, bound: nat, direct: DirectStep,
                         hashes: seq<string>, issuers: seq<Issuer>, counters: seq<int>, h: string, next: Issuer, after: int)
    requires RecursedWith(prims, index, canonical, bound, direct, hashes, issuers, counters) && |hashes| < |direct.recursion|
    requires NDegreeCall(prims, index, canonical, bound, direct.recursion[|hashes|], issuers[|hashes|], counters[|hashes|],
                         (h, next), after)
    ensures RecursedWith(prims, index, canonical, bound, direct, hashes + [h], issuers + [next], counters + [after])
  {
    var hs, iss, cs := hashes + [h], issuers + [next], counters + [after];
    forall k | 0 <= k < |hs|
      ensures RecursedAt(prims, index, canonical, bound, direct, hs, iss, cs, k)
    {
      if k < |hashes| {
        assert RecursedAt(prims, index, canonical, bound, direct, hashes, issuers, counters, k);
        assert hs[k] == hashes[k] && iss[k] == issuers[k] && iss[k + 1] == issuers[k + 1];
        assert cs[k] == counters[k] && cs[k + 1] == counters[k + 1];
      }
    }
  }

  /** The path after all the recursions so far is the one the loop holds. */
  lemma RecursedUpToPath(direct: DirectStep, hashes: seq<string>, path: string)
    requires direct.issuer.Valid() && RecursedUpTo(direct, hashes, path)
    ensures RecursionPath(direct, hashes, |hashes|) == path
  {
    assert hashes[..|hashes|] == hashes;
  }

  /** One recursion more keeps the earlier paths, so none of them meets the test
      once they did not. */
  lemma RecursionUnprunedStep(direct: DirectStep, hashes: seq<string>, h: string, chosen: string)
    requires direct.issuer.Valid() && |hashes| < |direct.recursion|
    requires RecursionUnpruned(direct, hashes, chosen, |hashes|)
    ensures RecursionUnpruned(direct, hashes + [h], chosen, |hashes|)
  {
    forall k | 1 <= k <= |hashes|
      ensures RecursionPath(direct, hashes + [h], k) == RecursionPath(direct, hashes, k)
    {
      assert (hashes + [h])[..k] == hashes[..k];
    }
  }

  /** A last path that does not meet the test extends RecursionUnpruned. */
  lemma RecursionUnprunedNext(direct: DirectStep, hashes: seq<string>, chosen: string)
    requires direct.issuer.Valid() && 1 <= |hashes| <= |direct.recursion|
    requires RecursionUnpruned(direct, hashes, chosen, |hashes| - 1)
    requires !Abandons(RecursionPath(direct, hashes, |hashes|), chosen)
    ensures RecursionUnpruned(direct, hashes, chosen, |hashes|)
  {
  }

  /** A path abandoned in the second loop, at the first recursion after which it
      met the test. */
  lemma RecursedUpToPruned(prims: Primitives, index: Index, canonical: Issuer, bound: nat, direct: DirectStep,
                           hashes: seq<string>, issuers: seq<Issuer>, counters: seq<int>, chosen: string, path: string)
    requires direct.issuer.Valid() && RecursedUpTo(direct, hashes, path) && 1 <= |hashes|
    requires RecursedWith(prims, index, canonical, bound, direct, hashes, issuers, counters)
    requires Abandons(path, chosen) && RecursionUnpruned(direct, hashes, chosen, |hashes| - 1)
    ensures PrunedInRecursion(prims, index, canonical, bound, direct, chosen, counters[0], path, counters[|hashes|])
  {
  }

  /** A path with a hash for every node recursed on, none of whose paths met the
      test, is completed, with the issuer and the counter the last recursion left. */
  lemma RecursedUpToComplete(prims: Primitives, index: Index, canonical: Issuer, bound: nat, direct: DirectStep,
                             hashes: seq<string>, issuers: seq<Issuer>, counters: seq<int>, chosen: string, path: string)
    requires direct.issuer.Valid() && RecursedUpTo(direct, hashes, path) && |hashes| == |direct.recursion|
    requires RecursedWith(prims, index, canonical, bound, direct, hashes, issuers, counters)
    requires RecursionUnpruned(direct, hashes, chosen, |hashes|)
    ensures CompletedWith(prims, index, canonical, bound, direct, chosen, counters[0], path, issuers[|hashes|], counters[|hashes|])
  {
    assert direct.recursion[..|hashes|] == direct.recursion;
  }

  /** The next node recursed on ran out of budget: the permutation fails. */
  lemma RecursedUpToFailed(prims: Primitives, index: Index, canonical: Issuer, bound: nat, direct: DirectStep,
                           hashes: seq<string>, issuers: seq<Issuer>, counters: seq<int>, chosen: string)
    requires direct.issuer.Valid()
    requires RecursedWith(prims, index, canonical, bound, direct, hashes, issuers, counters) && |hashes| < |direct.recursion|
    requires RecursionUnpruned(direct, hashes, chosen, |hashes|)
    requires NDegreeFails(prims, index, canonical, bound, direct.recursion[|hashes|], issuers[|hashes|], counters[|hashes|])
    ensures FailedInRecursion(prims, index, canonical, bound, direct, chosen, counters[0])
  {
  }

  /** An issuer grown from another hands out the same label for a node the
      other had already labelled. */
  lemma MappedLabelKept(issuer: Issuer, later: Issuer, x: string)
    requires issuer.Valid() && later.Valid() && Extends(later, issuer) && x in issuer.issued
    ensures later.GenerateBlankNodeIdentifier(x).1 == issuer.GenerateBlankNodeIdentifier(x).1
  {
    ExtendsKeepsMappings(later, issuer, x);
    ExtendsIssued(later, issuer);
  }
}
