/** Writing the output dataset: every blank node is replaced by the canonical
    label issued for it, without its "_:" prefix. */
module Relabelling {
  import opened Wrappers
  import opened Sequences
  import opened Issuers
  import opened Rdf

  /** The output form of a node under the final canonical issuer: a mapped blank
      node gets its label without "_:"; anything else is left alone. */
  function CanonicalNode(final: Issuer, n: Node): Node {
    if n.Blank? && final.GetMappedIdentifier(n.id).Some? then
      Blank(StripPrefix(final.GetMappedIdentifier(n.id).value))
    else n
  }

  function CanonicalName(final: Issuer, name: Option<Node>): Option<Node> {
    if name.Some? then Some(CanonicalNode(final, name.value)) else None
  }

  function CanonicalTriple(final: Issuer, t: Triple): Triple {
    Triple(CanonicalNode(final, t.subj), CanonicalNode(final, t.pred), CanonicalNode(final, t.obj))
  }

  function CanonicalTriples(final: Issuer, ts: seq<Triple>): (r: seq<Triple>)
    ensures |r| == |ts|
  {
    if ts == [] then []
    else CanonicalTriples(final, ts[..|ts| - 1]) + [CanonicalTriple(final, ts[|ts| - 1])]
  }

  function CanonicalGraph(final: Issuer, g: Graph): Graph {
    Graph(CanonicalName(final, g.name), CanonicalTriples(final, g.triples))
  }

  /** The dataset with every blank node renamed by the final issuer. */
  function CanonicalDataset(final: Issuer, d: Dataset): (r: Dataset)
    ensures |r| == |d|
  {
    if d == [] then []
    else CanonicalDataset(final, d[..|d| - 1]) + [CanonicalGraph(final, d[|d| - 1])]
  }

  predicate NodeMapped(iss: Issuer, n: Node) {
    n.Blank? ==> n.id in iss.issued
  }

  predicate NameMapped(iss: Issuer, name: Option<Node>) {
    name.Some? ==> NodeMapped(iss, name.value)
  }

  predicate TripleMapped(iss: Issuer, t: Triple) {
    NodeMapped(iss, t.subj) && NodeMapped(iss, t.pred) && NodeMapped(iss, t.obj)
  }

  predicate TriplesMapped(iss: Issuer, ts: seq<Triple>) {
    forall t :: t in ts ==> TripleMapped(iss, t)
  }

  predicate GraphMapped(iss: Issuer, g: Graph) {
    NameMapped(iss, g.name) && TriplesMapped(iss, g.triples)
  }

  /** Every blank node of the dataset has a label. */
  predicate DatasetMapped(iss: Issuer, d: Dataset) {
    forall g :: g in d ==> GraphMapped(iss, g)
  }

  // ---------------------------------------------------------------------------
  // The output loop, as the canonical issuer threads through it

  /** One node of the output: a blank node's label is issued if it has none yet. */
  function RelabelNode(canonical: Issuer, n: Node): (r: (Issuer, Node))
    requires canonical.Valid()
    ensures r.0.Valid() && Extends(r.0, canonical)
    ensures NodeMapped(r.0, n) && r.1 == CanonicalNode(r.0, n)
    ensures !n.Blank? ==> r == (canonical, n)
  {
    if n.Blank? then
      var (next, text) := canonical.GenerateBlankNodeIdentifier(n.id);
      (next, Blank(StripPrefix(text)))
    else (canonical, n)
  }

  function RelabelName(canonical: Issuer, name: Option<Node>): (r: (Issuer, Option<Node>))
    requires canonical.Valid()
    ensures r.0.Valid() && Extends(r.0, canonical)
  {
    if name.Some? then
      var (next, n) := RelabelNode(canonical, name.value);
      (next, Some(n))
    else (canonical, None)
  }

  /** Subject, then predicate, then object. */
  function RelabelTriple(canonical: Issuer, t: Triple): (r: (Issuer, Triple))
    requires canonical.Valid()
    ensures r.0.Valid() && Extends(r.0, canonical)
  {
    var (c1, s) := RelabelNode(canonical, t.subj);
    var (c2, p) := RelabelNode(c1, t.pred);
    var (c3, o) := RelabelNode(c2, t.obj);
    ExtendsTransitive(c2, c1, canonical);
    ExtendsTransitive(c3, c2, canonical);
    (c3, Triple(s, p, o))
  }

  function RelabelTriples(canonical: Issuer, ts: seq<Triple>): (r: (Issuer, seq<Triple>))
    requires canonical.Valid()
    ensures r.0.Valid() && Extends(r.0, canonical)
  {
    if ts == [] then (canonical, [])
    else
      var (c1, init) := RelabelTriples(canonical, ts[..|ts| - 1]);
      var (c2, t) := RelabelTriple(c1, ts[|ts| - 1]);
      ExtendsTransitive(c2, c1, canonical);
      (c2, init + [t])
  }

  /** The graph name first, then the triples in order. */
  function RelabelGraph(canonical: Issuer, g: Graph): (r: (Issuer, Graph))
    requires canonical.Valid()
    ensures r.0.Valid() && Extends(r.0, canonical)
  {
    var (c1, name) := RelabelName(canonical, g.name);
    var (c2, ts) := RelabelTriples(c1, g.triples);
    ExtendsTransitive(c2, c1, canonical);
    (c2, Graph(name, ts))
  }

  function RelabelDataset(canonical: Issuer, d: Dataset): (r: (Issuer, Dataset))
    requires canonical.Valid()
    ensures r.0.Valid() && Extends(r.0, canonical)
  {
    if d == [] then (canonical, [])
    else
      var (c1, init) := RelabelDataset(canonical, d[..|d| - 1]);
      var (c2, g) := RelabelGraph(c1, d[|d| - 1]);
      ExtendsTransitive(c2, c1, canonical);
      (c2, init + [g])
  }

  // ---------------------------------------------------------------------------
  // The output is a renaming of the input

  /** A label, once issued, is the one the final issuer reports. */
  lemma NodeStable(iss: Issuer, final: Issuer, n: Node)
    requires Extends(final, iss) && final.Valid() && NodeMapped(iss, n)
    ensures NodeMapped(final, n) && CanonicalNode(iss, n) == CanonicalNode(final, n)
  {
    ExtendsIssued(final, iss);
    if n.Blank? {
      ExtendsKeepsMappings(final, iss, n.id);
    }
  }

  lemma {:induction false} TriplesStable(iss: Issuer, final: Issuer, ts: seq<Triple>)
    requires Extends(final, iss) && final.Valid() && TriplesMapped(iss, ts)
    ensures TriplesMapped(final, ts) && CanonicalTriples(iss, ts) == CanonicalTriples(final, ts)
  {
    if ts != [] {
      var t := ts[|ts| - 1];
      assert t in ts;
      assert forall u :: u in ts[..|ts| - 1] ==> u in ts;
      TriplesStable(iss, final, ts[..|ts| - 1]);
      NodeStable(iss, final, t.subj);
      NodeStable(iss, final, t.pred);
      NodeStable(iss, final, t.obj);
      assert forall u :: u in ts ==> u in ts[..|ts| - 1] || u == t;
    }
  }

  lemma GraphStable(iss: Issuer, final: Issuer, g: Graph)
    requires Extends(final, iss) && final.Valid() && GraphMapped(iss, g)
    ensures GraphMapped(final, g) && CanonicalGraph(iss, g) == CanonicalGraph(final, g)
  {
    if g.name.Some? {
      NodeStable(iss, final, g.name.value);
    }
    TriplesStable(iss, final, g.triples);
  }

  lemma {:induction false} DatasetStable(iss: Issuer, final: Issuer, d: Dataset)
    requires Extends(final, iss) && final.Valid() && DatasetMapped(iss, d)
    ensures DatasetMapped(final, d) && CanonicalDataset(iss, d) == CanonicalDataset(final, d)
  {
    if d != [] {
      var g := d[|d| - 1];
      assert g in d;
      assert forall h :: h in d[..|d| - 1] ==> h in d;
      DatasetStable(iss, final, d[..|d| - 1]);
      GraphStable(iss, final, g);
      assert forall h :: h in d ==> h in d[..|d| - 1] || h == g;
    }
  }

  lemma TripleRenamed(canonical: Issuer, t: Triple)
    requires canonical.Valid()
    ensures TripleMapped(RelabelTriple(canonical, t).0, t)
    ensures RelabelTriple(canonical, t).1 == CanonicalTriple(RelabelTriple(canonical, t).0, t)
  {
    var r1 := RelabelNode(canonical, t.subj);
    var r2 := RelabelNode(r1.0, t.pred);
    var r3 := RelabelNode(r2.0, t.obj);
    assert RelabelTriple(canonical, t) == (r3.0, Triple(r1.1, r2.1, r3.1));
    ExtendsTransitive(r3.0, r2.0, r1.0);
    NodeStable(r1.0, r3.0, t.subj);
    NodeStable(r2.0, r3.0, t.pred);
  }

  lemma {:induction false} TriplesRenamed(canonical: Issuer, ts: seq<Triple>)
    requires canonical.Valid()
    ensures TriplesMapped(RelabelTriples(canonical, ts).0, ts)
    ensures RelabelTriples(canonical, ts).1 == CanonicalTriples(RelabelTriples(canonical, ts).0, ts)
  {
    if ts != [] {
      var init := ts[..|ts| - 1];
      var t := ts[|ts| - 1];
      var (c1, out1) := RelabelTriples(canonical, init);
      var c2 := RelabelTriple(c1, t).0;
      TriplesRenamed(canonical, init);
      TripleRenamed(c1, t);
      TriplesStable(c1, c2, init);
      assert forall u :: u in ts ==> u in init || u == t;
    }
  }

  lemma GraphRenamed(canonical: Issuer, g: Graph)
    requires canonical.Valid()
    ensures GraphMapped(RelabelGraph(canonical, g).0, g)
    ensures RelabelGraph(canonical, g).1 == CanonicalGraph(RelabelGraph(canonical, g).0, g)
  {
    var c1 := RelabelName(canonical, g.name).0;
    var c2 := RelabelTriples(c1, g.triples).0;
    TriplesRenamed(c1, g.triples);
    if g.name.Some? {
      NodeStable(c1, c2, g.name.value);
    }
  }

  /** The output loop renames: its result is the input dataset with every blank
      node replaced by its label under the final issuer, and every blank node of
      the input has a label there. */
  lemma {:induction false} RelabelIsRenaming(canonical: Issuer, d: Dataset)
    requires canonical.Valid()
    ensures DatasetMapped(RelabelDataset(canonical, d).0, d)
    ensures RelabelDataset(canonical, d).1 == CanonicalDataset(RelabelDataset(canonical, d).0, d)
  {
    if d != [] {
      var init := d[..|d| - 1];
      var g := d[|d| - 1];
      var (c1, out1) := RelabelDataset(canonical, init);
      var c2 := RelabelGraph(c1, g).0;
      RelabelIsRenaming(canonical, init);
      GraphRenamed(c1, g);
      DatasetStable(c1, c2, init);
      assert forall h :: h in d ==> h in init || h == g;
    }
  }

  /** The renaming is one-to-one on labelled blank nodes, so the output has exactly
      the shape of the input. */
  lemma CanonicalNodeInjective(final: Issuer, a: Node, b: Node)
    requires final.Valid() && NodeMapped(final, a) && NodeMapped(final, b)
    requires CanonicalNode(final, a) == CanonicalNode(final, b)
    ensures a == b
  {
    if a.Blank? && b.Blank? {
      var la := final.GetMappedIdentifier(a.id).value;
      var lb := final.GetMappedIdentifier(b.id).value;
      assert la == la[..2] + StripPrefix(la);
      assert lb == lb[..2] + StripPrefix(lb);
      MappedInjective(final, a.id, b.id);
    }
  }

  /** A blank node is labelled `prefix` followed by its position in the issuing
      order. */
  lemma CanonicalNodeLabel(final: Issuer, n: Node)
    requires n.Blank? && n.id in final.issued
    ensures CanonicalNode(final, n) == Blank(final.prefix + NatToString(IndexOf(final.issued, n.id)))
  {
    StripLabel(final.prefix, IndexOf(final.issued, n.id));
  }

  predicate GroundTriple(t: Triple) {
    !t.subj.Blank? && !t.pred.Blank? && !t.obj.Blank?
  }

  /** A graph with no blank node, in its name or in any triple. */
  predicate GroundGraph(g: Graph) {
    (g.name.Some? ==> !g.name.value.Blank?) && forall t :: t in g.triples ==> GroundTriple(t)
  }

  /** A dataset without blank nodes is written back unchanged. */
  lemma {:induction false} RelabelGround(canonical: Issuer, d: Dataset)
    requires canonical.Valid()
    requires forall g :: g in d ==> GroundGraph(g)
    ensures RelabelDataset(canonical, d) == (canonical, d)
  {
    if d != [] {
      var init := d[..|d| - 1];
      var g := d[|d| - 1];
      assert forall h :: h in init ==> h in d;
      RelabelGround(canonical, init);
      assert g in d;
      assert forall t :: t in g.triples ==> GroundTriple(t);
      GroundTriples(canonical, g.triples);
      assert RelabelName(canonical, g.name) == (canonical, g.name);
      assert RelabelGraph(canonical, g) == (canonical, g);
      assert init + [g] == d;
    }
  }

  lemma {:induction false} GroundTriples(canonical: Issuer, ts: seq<Triple>)
    requires canonical.Valid()
    requires forall i :: 0 <= i < |ts| ==> GroundTriple(ts[i])
    ensures RelabelTriples(canonical, ts) == (canonical, ts)
  {
    if ts != [] {
      var init := ts[..|ts| - 1];
      GroundTriples(canonical, init);
      GroundTriple1(canonical, ts[|ts| - 1]);
      var r := RelabelTriples(canonical, ts);
      assert r.1 == init + [ts[|ts| - 1]];
      assert init + [ts[|ts| - 1]] == ts;
    }
  }

  lemma GroundTriple1(canonical: Issuer, t: Triple)
    requires canonical.Valid() && GroundTriple(t)
    ensures RelabelTriple(canonical, t) == (canonical, t)
  {
  }
}
