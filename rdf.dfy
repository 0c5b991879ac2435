/** The RDF terms the canonicaliser reads and writes. The library's own node,
    triple, graph and store classes are replaced by these values. */
module Rdf {
  import opened Wrappers

  /** A node: an IRI, a blank node with its internal identifier, or a literal. */
  datatype Node =
    | Iri(iri: string)
    | Blank(id: string)
    | Literal(lexical: string, tag: string)

  datatype Triple = Triple(subj: Node, pred: Node, obj: Node)

  /** A graph and its name; None names the default graph. */
  datatype Graph = Graph(name: Option<Node>, triples: seq<Triple>)

  type Dataset = seq<Graph>

  /** A triple together with the name of the graph it is in. */
  datatype Quad = Quad(subj: Node, pred: Node, obj: Node, graph: Option<Node>)

  function QuadOf(t: Triple, graphName: Option<Node>): Quad {
    Quad(t.subj, t.pred, t.obj, graphName)
  }

  /** The blank-node identifiers among `nodes`, one per occurrence, in order. */
  function BlankIds(nodes: seq<Node>): (ids: seq<string>)
    ensures forall x :: x in ids <==> Blank(x) in nodes
  {
    if nodes == [] then []
    else (if nodes[0].Blank? then [nodes[0].id] else []) + BlankIds(nodes[1..])
  }

  /** The nodes of a triple followed by its graph name, in the order
      triple.Nodes.Concat([graph.Name]) lists them; the default graph has no node. */
  function NodesOf(t: Triple, graphName: Option<Node>): seq<Node> {
    [t.subj, t.pred, t.obj] + (if graphName.Some? then [graphName.value] else [])
  }

  /** The nodes of a quad in the same order. */
  function QuadNodes(q: Quad): seq<Node> {
    [q.subj, q.pred, q.obj] + (if q.graph.Some? then [q.graph.value] else [])
  }

  /** The blank-node identifiers a quad mentions, in any position. */
  function QuadBlankIds(q: Quad): seq<string> {
    BlankIds(QuadNodes(q))
  }

  /** One node as PrepareQuadForHash rewrites it: the reference blank node becomes
      `_:a`, every other blank node `_:z`; IRIs and literals stay as they are. */
  function MaskNode(n: Node, referenceId: string): (r: Node)
    ensures n.Blank? <==> r.Blank?
    ensures n.Blank? ==> (r.id == "a" <==> n.id == referenceId) && (r.id == "a" || r.id == "z")
    ensures !n.Blank? ==> r == n
  {
    if n.Blank? then Blank(if n.id == referenceId then "a" else "z") else n
  }

  function MaskGraphName(g: Option<Node>, referenceId: string): Option<Node> {
    if g.Some? then Some(MaskNode(g.value, referenceId)) else None
  }

  /** PrepareQuadForHash: the same masking applied in all four positions. */
  function PrepareQuadForHash(q: Quad, referenceId: string): (r: Quad)
    ensures QuadNodes(r) == seq(|QuadNodes(q)|, i requires 0 <= i < |QuadNodes(q)| => MaskNode(QuadNodes(q)[i], referenceId))
  {
    Quad(MaskNode(q.subj, referenceId), MaskNode(q.pred, referenceId),
         MaskNode(q.obj, referenceId), MaskGraphName(q.graph, referenceId))
  }

  /** After masking only the labels `a` and `z` are left, and masking again with `a`
      as the reference changes nothing. */
  lemma PrepareQuadForHashIdempotent(q: Quad, referenceId: string)
    ensures forall x :: x in QuadBlankIds(PrepareQuadForHash(q, referenceId)) ==> x == "a" || x == "z"
    ensures PrepareQuadForHash(PrepareQuadForHash(q, referenceId), "a") == PrepareQuadForHash(q, referenceId)
  {
  }

  /** A quad without blank nodes is left as it is. */
  lemma PrepareQuadForHashGround(q: Quad, referenceId: string)
    requires QuadBlankIds(q) == []
    ensures PrepareQuadForHash(q, referenceId) == q
  {
  }

  /** Renaming of blank-node identifiers; IRIs and literals are untouched. */
  function RenameNode(n: Node, rename: string -> string): Node {
    if n.Blank? then Blank(rename(n.id)) else n
  }

  function RenameQuad(q: Quad, rename: string -> string): Quad {
    Quad(RenameNode(q.subj, rename), RenameNode(q.pred, rename), RenameNode(q.obj, rename),
         if q.graph.Some? then Some(RenameNode(q.graph.value, rename)) else None)
  }

  /** Masking forgets every blank-node label except whether it is the reference
      one: under any renaming that sends no other identifier onto the reference's
      new name, the masked quad is the same. */
  lemma PrepareQuadForHashRenaming(q: Quad, referenceId: string, rename: string -> string)
    requires forall x :: rename(x) == rename(referenceId) ==> x == referenceId
    ensures PrepareQuadForHash(RenameQuad(q, rename), rename(referenceId)) == PrepareQuadForHash(q, referenceId)
  {
  }
}
