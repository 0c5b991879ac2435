/** The blank-node-to-quads index and the first-degree hash of a blank node. */
module FirstDegree {
  import opened Wrappers
  import opened Sequences
  import opened Ordinal
  import opened Hashing
  import opened Rdf
  import opened Multimaps

  /** What the canonicaliser borrows from the rest of the library, passed in as
      functions: the configured digest (over the UTF-8 bytes of a text), the
      N-Quads formatting of a quad, the text of a node (its ToString), and the
      prefix a newly created BlankNodeGenerator issues under. */
  datatype Primitives = Primitives(
    digest: Digest,
    format: Quad -> string,
    nodeText: Node -> string,
    tempPrefix: string)

  /** The blank-node-to-quads map, as a value. */
  type Index = Multimap<string, Quad>

  /** Each of `ids`, in order, paired with `q`. */
  function PairAll(ids: seq<string>, q: Quad): (r: seq<(string, Quad)>)
    ensures |r| == |ids| && forall i :: 0 <= i < |r| ==> r[i] == (ids[i], q)
  {
    if ids == [] then [] else PairAll(ids[..|ids| - 1], q) + [(ids[|ids| - 1], q)]
  }

  /** The (identifier, quad) pairs contributed by one triple: one pair per blank
      node among subject, predicate, object and graph name, in that order, so a
      blank node that occurs twice in a triple is paired with its quad twice. */
  function TripleOccurrences(t: Triple, name: Option<Node>): (r: seq<(string, Quad)>)
    ensures forall p :: p in r <==> p.1 == QuadOf(t, name) && p.0 in QuadBlankIds(p.1)
  {
    var q := QuadOf(t, name);
    var r := PairAll(QuadBlankIds(q), q);
    assert forall p :: p in r ==> p.0 in QuadBlankIds(q) && p.1 == q by {
      forall p | p in r ensures p.0 in QuadBlankIds(q) && p.1 == q {
        var i :| 0 <= i < |r| && r[i] == p;
      }
    }
    assert forall x :: x in QuadBlankIds(q) ==> (x, q) in r by {
      forall x | x in QuadBlankIds(q) ensures (x, q) in r {
        var i :| 0 <= i < |QuadBlankIds(q)| && QuadBlankIds(q)[i] == x;
        assert r[i] == (x, q);
      }
    }
    r
  }

  /** Pair `i` of a triple is the `i`th blank node of its quad, with the quad. */
  lemma TripleOccurrencesInOrder(t: Triple, name: Option<Node>)
    ensures |TripleOccurrences(t, name)| == |QuadBlankIds(QuadOf(t, name))|
    ensures forall i :: 0 <= i < |TripleOccurrences(t, name)| ==>
      TripleOccurrences(t, name)[i] == (QuadBlankIds(QuadOf(t, name))[i], QuadOf(t, name))
  {
  }

  /** A pair occurs in PairAll as often as its identifier occurs in `ids`, if its
      quad is `q`, and never otherwise. */
  lemma {:induction false} PairAllCount(ids: seq<string>, q: Quad, p: (string, Quad))
    ensures multiset(PairAll(ids, q))[p] == if p.1 == q then multiset(ids)[p.0] else 0
  {
    if ids != [] {
      var n := |ids| - 1;
      PairAllCount(ids[..n], q, p);
      assert ids == ids[..n] + [ids[n]];
    }
  }

  function GraphOccurrences(name: Option<Node>, triples: seq<Triple>): seq<(string, Quad)> {
    if triples == [] then []
    else GraphOccurrences(name, triples[..|triples| - 1]) + TripleOccurrences(triples[|triples| - 1], name)
  }

  /** All pairs of the dataset, graph by graph and triple by triple, in the order
      the index is built from them. */
  function Occurrences(dataset: Dataset): seq<(string, Quad)> {
    if dataset == [] then []
    else
      var g := dataset[|dataset| - 1];
      Occurrences(dataset[..|dataset| - 1]) + GraphOccurrences(g.name, g.triples)
  }

  /** `q` is a quad of the dataset that mentions blank node `x`. */
  ghost predicate Mentions(dataset: Dataset, x: string, q: Quad) {
    exists i, j :: 0 <= i < |dataset| && 0 <= j < |dataset[i].triples|
      && q == QuadOf(dataset[i].triples[j], dataset[i].name) && x in QuadBlankIds(q)
  }

  lemma {:induction false} GraphOccurrencesMembers(name: Option<Node>, triples: seq<Triple>, p: (string, Quad))
    ensures p in GraphOccurrences(name, triples) <==>
      (exists j :: 0 <= j < |triples| && p.1 == QuadOf(triples[j], name)) && p.0 in QuadBlankIds(p.1)
  {
    if triples != [] {
      var init := triples[..|triples| - 1];
      GraphOccurrencesMembers(name, init, p);
      if exists j :: 0 <= j < |init| && p.1 == QuadOf(init[j], name) {
        var j :| 0 <= j < |init| && p.1 == QuadOf(init[j], name);
        assert p.1 == QuadOf(triples[j], name);
      }
      if exists j :: 0 <= j < |triples| && p.1 == QuadOf(triples[j], name) {
        var j :| 0 <= j < |triples| && p.1 == QuadOf(triples[j], name);
        if j < |init| {
          assert p.1 == QuadOf(init[j], name);
        }
      }
    }
  }

  /** The pairs are exactly the (blank node, quad) mentions of the dataset. */
  lemma {:induction false} OccurrencesMembers(dataset: Dataset, x: string, q: Quad)
    ensures (x, q) in Occurrences(dataset) <==> Mentions(dataset, x, q)
  {
    if dataset != [] {
      var init := dataset[..|dataset| - 1];
      var g := dataset[|dataset| - 1];
      OccurrencesMembers(init, x, q);
      GraphOccurrencesMembers(g.name, g.triples, (x, q));
      if Mentions(init, x, q) {
        var i, j :| 0 <= i < |init| && 0 <= j < |init[i].triples|
          && q == QuadOf(init[i].triples[j], init[i].name) && x in QuadBlankIds(q);
        assert dataset[i] == init[i];
      }
      if (exists j :: 0 <= j < |g.triples| && q == QuadOf(g.triples[j], g.name)) && x in QuadBlankIds(q) {
        var j :| 0 <= j < |g.triples| && q == QuadOf(g.triples[j], g.name);
        assert dataset[|dataset| - 1] == g;
      }
      if Mentions(dataset, x, q) {
        var i, j :| 0 <= i < |dataset| && 0 <= j < |dataset[i].triples|
          && q == QuadOf(dataset[i].triples[j], dataset[i].name) && x in QuadBlankIds(q);
        if i < |init| {
          assert dataset[i] == init[i];
        }
      }
    }
  }

  /** How many times the graph's triples pair blank node `x` with quad `q`: for each
      triple giving `q`, the number of positions of `x` in it. */
  function GraphMentionCount(name: Option<Node>, triples: seq<Triple>, x: string, q: Quad): nat {
    if triples == [] then 0
    else
      GraphMentionCount(name, triples[..|triples| - 1], x, q)
      + (if QuadOf(triples[|triples| - 1], name) == q then multiset(QuadBlankIds(q))[x] else 0)
  }

  /** How many times the dataset's triples, graph by graph, pair `x` with `q`. */
  function MentionCount(dataset: Dataset, x: string, q: Quad): nat {
    if dataset == [] then 0
    else
      var g := dataset[|dataset| - 1];
      MentionCount(dataset[..|dataset| - 1], x, q) + GraphMentionCount(g.name, g.triples, x, q)
  }

  /** How many triples of the graph give quad `q`. */
  function GraphQuadCount(name: Option<Node>, triples: seq<Triple>, q: Quad): nat {
    if triples == [] then 0
    else GraphQuadCount(name, triples[..|triples| - 1], q) + (if QuadOf(triples[|triples| - 1], name) == q then 1 else 0)
  }

  /** How many triples of the dataset, graph by graph, give quad `q`. */
  function QuadCount(dataset: Dataset, q: Quad): nat {
    if dataset == [] then 0
    else
      var g := dataset[|dataset| - 1];
      QuadCount(dataset[..|dataset| - 1], q) + GraphQuadCount(g.name, g.triples, q)
  }

  lemma MulDistributes(k: nat, d: nat, c: nat)
    ensures (k + d) * c == k * c + d * c
  {
  }

  /** The pairings of `x` with `q` are the triples giving `q` times the positions
      of `x` in `q`. */
  lemma {:induction false} GraphMentionCountProduct(name: Option<Node>, triples: seq<Triple>, x: string, q: Quad)
    ensures GraphMentionCount(name, triples, x, q) == GraphQuadCount(name, triples, q) * multiset(QuadBlankIds(q))[x]
  {
    if triples != [] {
      var n := |triples| - 1;
      GraphMentionCountProduct(name, triples[..n], x, q);
      MulDistributes(GraphQuadCount(name, triples[..n], q), if QuadOf(triples[n], name) == q then 1 else 0,
                     multiset(QuadBlankIds(q))[x]);
    }
  }

  lemma {:induction false} MentionCountProduct(dataset: Dataset, x: string, q: Quad)
    ensures MentionCount(dataset, x, q) == QuadCount(dataset, q) * multiset(QuadBlankIds(q))[x]
  {
    if dataset != [] {
      var n := |dataset| - 1;
      var g := dataset[n];
      MentionCountProduct(dataset[..n], x, q);
      GraphMentionCountProduct(g.name, g.triples, x, q);
      MulDistributes(QuadCount(dataset[..n], q), GraphQuadCount(g.name, g.triples, q), multiset(QuadBlankIds(q))[x]);
    }
  }

  /** A graph pairs `x` with `q` as often as GraphMentionCount says. */
  lemma {:induction false} GraphOccurrencesCount(name: Option<Node>, triples: seq<Triple>, x: string, q: Quad)
    ensures multiset(GraphOccurrences(name, triples))[(x, q)] == GraphMentionCount(name, triples, x, q)
  {
    if triples != [] {
      var n := |triples| - 1;
      GraphOccurrencesCount(name, triples[..n], x, q);
      PairAllCount(QuadBlankIds(QuadOf(triples[n], name)), QuadOf(triples[n], name), (x, q));
    }
  }

  /** The dataset pairs `x` with `q` as often as MentionCount says. */
  lemma {:induction false} OccurrencesCount(dataset: Dataset, x: string, q: Quad)
    ensures multiset(Occurrences(dataset))[(x, q)] == MentionCount(dataset, x, q)
  {
    if dataset != [] {
      var n := |dataset| - 1;
      OccurrencesCount(dataset[..n], x, q);
      GraphOccurrencesCount(dataset[n].name, dataset[n].triples, x, q);
    }
  }

  /** The index lists a quad under a blank node once for each triple of the
      dataset giving that quad and each position of the blank node in it: a quad
      whose subject and object are the same blank node is listed twice. */
  lemma IndexMultiplicity(dataset: Dataset, x: string, q: Quad)
    ensures x in FromPairs(Occurrences(dataset)).entries ==>
      multiset(FromPairs(Occurrences(dataset)).entries[x])[q] == QuadCount(dataset, q) * multiset(QuadBlankIds(q))[x]
  {
    FromPairsGroups(Occurrences(dataset), x);
    ValuesForCount(Occurrences(dataset), x, q);
    OccurrencesCount(dataset, x, q);
    MentionCountProduct(dataset, x, q);
  }

  /** Every indexed quad mentions the blank node it is listed under, and every
      blank node an indexed quad mentions is itself indexed. */
  ghost predicate IndexClosed(index: Index) {
    forall x, q :: x in index.entries && q in index.entries[x] ==>
      x in QuadBlankIds(q) && forall y :: y in QuadBlankIds(q) ==> y in index.entries
  }

  /** The index built from a dataset lists under each blank node exactly the quads
      mentioning it, and is closed. */
  lemma IndexOfDataset(dataset: Dataset)
    ensures FromPairs(Occurrences(dataset)).Valid()
    ensures forall x, q :: (x in FromPairs(Occurrences(dataset)).entries && q in FromPairs(Occurrences(dataset)).entries[x]
      <==> Mentions(dataset, x, q))
    ensures IndexClosed(FromPairs(Occurrences(dataset)))
  {
    var occ := Occurrences(dataset);
    var index := FromPairs(occ);
    forall x, q ensures x in index.entries && q in index.entries[x] <==> Mentions(dataset, x, q) {
      FromPairsGroups(occ, x);
      ValuesForMembers(occ, x);
      OccurrencesMembers(dataset, x, q);
    }
    forall x, q, y | x in index.entries && q in index.entries[x] && y in QuadBlankIds(q)
      ensures x in QuadBlankIds(q) && y in index.entries
    {
      assert Mentions(dataset, x, q);
      var i, j :| 0 <= i < |dataset| && 0 <= j < |dataset[i].triples|
        && q == QuadOf(dataset[i].triples[j], dataset[i].name) && x in QuadBlankIds(q);
      assert Mentions(dataset, y, q);
      FromPairsGroups(occ, y);
      ValuesForMembers(occ, y);
      OccurrencesMembers(dataset, y, q);
    }
  }

  // ---------------------------------------------------------------------------
  // The first-degree hash

  /** One line of the hashed text: the quad with its blank nodes masked, in N-Quads
      form, followed by a line feed. */
  function HashLine(prims: Primitives, q: Quad, referenceId: string): string {
    prims.format(PrepareQuadForHash(q, referenceId)) + "\n"
  }

  function HashLines(prims: Primitives, quads: seq<Quad>, referenceId: string): (lines: seq<string>)
    ensures |lines| == |quads|
  {
    if quads == [] then []
    else HashLines(prims, quads[..|quads| - 1], referenceId) + [HashLine(prims, quads[|quads| - 1], referenceId)]
  }

  /** The hash of the ordinally sorted lines of the quads. */
  function FirstDegreeHash(prims: Primitives, quads: seq<Quad>, referenceId: string): string {
    MultiHash(prims.digest, SortOrdinal(HashLines(prims, quads, referenceId)))
  }

  /** HashFirstDegreeQuads: the first-degree hash of the quads indexed under `id`
      (the dictionary's indexer demands that `id` be a key). */
  function HashFirstDegreeQuads(prims: Primitives, index: Index, id: string): (h: string)
    requires id in index.entries
    ensures IsLowerHex(h)
  {
    FirstDegreeHash(prims, index.entries[id], id)
  }

  lemma {:induction false} HashLinesAppend(prims: Primitives, a: seq<Quad>, b: seq<Quad>, id: string)
    ensures HashLines(prims, a + b, id) == HashLines(prims, a, id) + HashLines(prims, b, id)
  {
    if b == [] {
      assert a + b == a;
    } else {
      assert (a + b)[..|a + b| - 1] == a + b[..|b| - 1];
      HashLinesAppend(prims, a, b[..|b| - 1], id);
    }
  }

  lemma {:induction false} HashLinesMultiset(prims: Primitives, a: seq<Quad>, b: seq<Quad>, id: string)
    requires multiset(a) == multiset(b)
    ensures multiset(HashLines(prims, a, id)) == multiset(HashLines(prims, b, id))
    decreases |a|
  {
    if a != [] {
      var x := a[|a| - 1];
      assert a == a[..|a| - 1] + [x];
      assert x in multiset(b);
      var j :| 0 <= j < |b| && b[j] == x;
      var rest := b[..j] + b[j + 1..];
      RemoveAtMultiset(b, j);
      assert multiset(a) == multiset(a[..|a| - 1]) + multiset{x};
      assert multiset(a[..|a| - 1]) == multiset(a) - multiset{x};
      assert multiset(rest) == multiset(b) - multiset{x};
      HashLinesMultiset(prims, a[..|a| - 1], rest, id);
      HashLinesRemoveAt(prims, b, j, id);
      HashLinesAppend(prims, a[..|a| - 1], [x], id);
      assert HashLines(prims, [x], id) == [HashLine(prims, x, id)];
    }
  }

  lemma RemoveAtMultiset<T>(b: seq<T>, j: nat)
    requires j < |b|
    ensures multiset(b) == multiset(b[..j] + b[j + 1..]) + multiset{b[j]}
  {
    assert b == b[..j] + [b[j]] + b[j + 1..];
  }

  /** The hash lines of `b` are those of `b` without its j-th quad, plus that quad's line. */
  lemma HashLinesRemoveAt(prims: Primitives, b: seq<Quad>, j: nat, id: string)
    requires j < |b|
    ensures multiset(HashLines(prims, b, id))
         == multiset(HashLines(prims, b[..j] + b[j + 1..], id)) + multiset{HashLine(prims, b[j], id)}
  {
    assert b == b[..j] + [b[j]] + b[j + 1..];
    HashLinesAppend(prims, b[..j] + [b[j]], b[j + 1..], id);
    HashLinesAppend(prims, b[..j], [b[j]], id);
    HashLinesAppend(prims, b[..j], b[j + 1..], id);
    assert HashLines(prims, [b[j]], id) == [HashLine(prims, b[j], id)];
  }


  /** The first-degree hash does not depend on the order the quads are listed in,
      only on which quads (with multiplicity) there are. */
  lemma FirstDegreeHashOrderFree(prims: Primitives, a: seq<Quad>, b: seq<Quad>, id: string)
    requires multiset(a) == multiset(b)
    ensures FirstDegreeHash(prims, a, id) == FirstDegreeHash(prims, b, id)
  {
    HashLinesMultiset(prims, a, b, id);
    SortOrdinalPermutation(HashLines(prims, a, id), HashLines(prims, b, id));
  }

  function RenameQuads(quads: seq<Quad>, rename: string -> string): (r: seq<Quad>)
    ensures |r| == |quads|
  {
    if quads == [] then []
    else RenameQuads(quads[..|quads| - 1], rename) + [RenameQuad(quads[|quads| - 1], rename)]
  }

  /** The first-degree hash does not depend on the labels of the blank nodes: a
      renaming that sends no other blank node onto the reference node's new label
      leaves it unchanged. */
  lemma {:induction false} FirstDegreeHashRenaming(prims: Primitives, quads: seq<Quad>, id: string, rename: string -> string)
    requires forall x :: rename(x) == rename(id) ==> x == id
    ensures HashLines(prims, RenameQuads(quads, rename), rename(id)) == HashLines(prims, quads, id)
    ensures FirstDegreeHash(prims, RenameQuads(quads, rename), rename(id)) == FirstDegreeHash(prims, quads, id)
  {
    if quads != [] {
      FirstDegreeHashRenaming(prims, quads[..|quads| - 1], id, rename);
      PrepareQuadForHashRenaming(quads[|quads| - 1], id, rename);
    }
  }

  // ---------------------------------------------------------------------------
  // Grouping by first-degree hash

  /** (hash, identifier) for each identifier, in order. */
  function FirstDegreePairs(prims: Primitives, index: Index, ids: seq<string>): (r: seq<(string, string)>)
    requires forall x :: x in ids ==> x in index.entries
    ensures |r| == |ids|
    ensures forall i :: 0 <= i < |ids| ==> r[i] == (HashFirstDegreeQuads(prims, index, ids[i]), ids[i])
  {
    seq(|ids|, i requires 0 <= i < |ids| => (HashFirstDegreeQuads(prims, index, ids[i]), ids[i]))
  }

  /** The hash-to-blank-nodes map filled from `ids`. */
  function FirstDegreeMap(prims: Primitives, index: Index, ids: seq<string>): (m: Multimap<string, string>)
    requires forall x :: x in ids ==> x in index.entries
    ensures m.Valid()
  {
    FromPairs(FirstDegreePairs(prims, index, ids))
  }

  /** Filling the map one identifier at a time: the next identifier is added
      under its own first-degree hash. */
  lemma FirstDegreeMapStep(prims: Primitives, index: Index, ids: seq<string>, i: nat)
    requires i < |ids| && forall x :: x in ids ==> x in index.entries
    ensures FirstDegreeMap(prims, index, ids[..i + 1])
         == FirstDegreeMap(prims, index, ids[..i]).Add(HashFirstDegreeQuads(prims, index, ids[i]), ids[i])
  {
    var ps := FirstDegreePairs(prims, index, ids[..i + 1]);
    assert ps[..|ps| - 1] == FirstDegreePairs(prims, index, ids[..i]);
    assert ps[|ps| - 1] == (HashFirstDegreeQuads(prims, index, ids[i]), ids[i]);
  }

  /** The sole member of each single-member list, taking the keys in the given order. */
  function Singletons(m: Multimap<string, string>, keys: seq<string>): (r: seq<string>)
    requires m.Valid() && forall k :: k in keys ==> k in m.entries
    ensures forall x :: x in r <==> exists k :: k in keys && m.entries[k] == [x]
  {
    if keys == [] then []
    else
      var k := keys[|keys| - 1];
      var r := Singletons(m, keys[..|keys| - 1]) + (if |m.entries[k]| <= 1 then [m.entries[k][0]] else []);
      assert forall k' :: k' in keys <==> k' in keys[..|keys| - 1] || k' == k;
      r
  }

  /** The identifiers issued by one pass of the simple loop: the members of the
      single-member hash groups, by ordinal order of the hash. */
  function SimpleIds(m: Multimap<string, string>): seq<string>
    requires m.Valid()
  {
    Singletons(m, SortOrdinal(m.keys))
  }

  /** The group of a hash holds, without repetition, the waiting identifiers with
      that first-degree hash; a hash no identifier has has no group. */
  lemma FirstDegreeGroups(prims: Primitives, index: Index, ids: seq<string>, k: string)
    requires NoDuplicates(ids) && forall y :: y in ids ==> y in index.entries
    ensures k in FirstDegreeMap(prims, index, ids).entries ==>
      NoDuplicates(FirstDegreeMap(prims, index, ids).entries[k])
      && forall v :: v in FirstDegreeMap(prims, index, ids).entries[k] <==> v in ids && HashFirstDegreeQuads(prims, index, v) == k
    ensures k !in FirstDegreeMap(prims, index, ids).entries ==>
      forall v :: v in ids ==> HashFirstDegreeQuads(prims, index, v) != k
  {
    var pairs := FirstDegreePairs(prims, index, ids);
    assert NoDuplicates(pairs) by {
      forall i, j | 0 <= i < j < |pairs| ensures pairs[i] != pairs[j] {
        assert pairs[i].1 == ids[i] && pairs[j].1 == ids[j];
      }
    }
    forall v | v in ids ensures (HashFirstDegreeQuads(prims, index, v), v) in pairs {
      var i :| 0 <= i < |ids| && ids[i] == v;
      assert pairs[i] == (HashFirstDegreeQuads(prims, index, v), v);
    }
    forall v | (k, v) in pairs ensures v in ids && HashFirstDegreeQuads(prims, index, v) == k {
      var i :| 0 <= i < |pairs| && pairs[i] == (k, v);
    }
    FromPairsGroups(pairs, k);
    ValuesForMembers(pairs, k);
    ValuesForDistinct(pairs, k);
  }

  /** Every waiting identifier sits in the group of its own first-degree hash, and
      the groups hold waiting identifiers only. */
  lemma FirstDegreeMapCovers(prims: Primitives, index: Index, ids: seq<string>)
    requires NoDuplicates(ids) && forall y :: y in ids ==> y in index.entries
    ensures forall x :: x in ids ==>
      HashFirstDegreeQuads(prims, index, x) in FirstDegreeMap(prims, index, ids).entries
      && x in FirstDegreeMap(prims, index, ids).entries[HashFirstDegreeQuads(prims, index, x)]
    ensures forall k, v :: k in FirstDegreeMap(prims, index, ids).entries && v in FirstDegreeMap(prims, index, ids).entries[k] ==>
      v in ids
  {
    forall x | x in ids
      ensures HashFirstDegreeQuads(prims, index, x) in FirstDegreeMap(prims, index, ids).entries
      ensures x in FirstDegreeMap(prims, index, ids).entries[HashFirstDegreeQuads(prims, index, x)]
    {
      FirstDegreeGroups(prims, index, ids, HashFirstDegreeQuads(prims, index, x));
    }
    forall k, v | k in FirstDegreeMap(prims, index, ids).entries && v in FirstDegreeMap(prims, index, ids).entries[k]
      ensures v in ids
    {
      FirstDegreeGroups(prims, index, ids, k);
    }
  }

  /** `x` is waiting and no other waiting identifier has its first-degree hash. */
  ghost predicate HashIsUnique(prims: Primitives, index: Index, ids: seq<string>, x: string)
    requires forall y :: y in ids ==> y in index.entries
  {
    x in ids && forall y :: y in ids && HashFirstDegreeQuads(prims, index, y) == HashFirstDegreeQuads(prims, index, x) ==> y == x
  }

  /** An identifier is issued by a simple pass exactly when no other identifier
      still waiting shares its first-degree hash. */
  lemma SimpleIdsUnique(prims: Primitives, index: Index, ids: seq<string>, x: string)
    requires NoDuplicates(ids) && forall y :: y in ids ==> y in index.entries
    ensures x in SimpleIds(FirstDegreeMap(prims, index, ids)) <==> HashIsUnique(prims, index, ids, x)
  {
    if x in SimpleIds(FirstDegreeMap(prims, index, ids)) {
      SimpleIdsOnly(prims, index, ids, x);
    }
    if HashIsUnique(prims, index, ids, x) {
      UniqueIsSimple(prims, index, ids, x);
    }
  }

  lemma SimpleIdsOnly(prims: Primitives, index: Index, ids: seq<string>, x: string)
    requires NoDuplicates(ids) && forall y :: y in ids ==> y in index.entries
    requires x in SimpleIds(FirstDegreeMap(prims, index, ids))
    ensures HashIsUnique(prims, index, ids, x)
  {
    var m := FirstDegreeMap(prims, index, ids);
    var k :| k in SortOrdinal(m.keys) && m.entries[k] == [x];
    FirstDegreeGroups(prims, index, ids, k);
    assert x in m.entries[k];
  }

  lemma UniqueIsSimple(prims: Primitives, index: Index, ids: seq<string>, x: string)
    requires NoDuplicates(ids) && forall y :: y in ids ==> y in index.entries
    requires HashIsUnique(prims, index, ids, x)
    ensures x in SimpleIds(FirstDegreeMap(prims, index, ids))
  {
    var m := FirstDegreeMap(prims, index, ids);
    var k := HashFirstDegreeQuads(prims, index, x);
    FirstDegreeGroups(prims, index, ids, k);
    var vs := m.entries[k];
    assert x in vs;
    OnlyElement(vs, x);
    assert k in SortOrdinal(m.keys);
  }
}
