/** The mesh as every daemon sees it: nodes, directed edges, and walks over the edges
    that have a reverse. */
module MeshGraph {

  /** Nodes are numbered in the order of their names. */
  type Node = nat

  datatype Edge = Edge(from: Node, to: Node, weight: int, indirect: bool)

  /** node_tree, the per-node edge trees, and edge_weight_tree. */
  datatype Graph = Graph(nodes: seq<Node>, out: map<Node, seq<Edge>>, byWeight: seq<Edge>)

  /** The order of edge_weight_tree. */
  predicate Lighter(a: Edge, b: Edge) {
    a.weight < b.weight ||
    (a.weight == b.weight && (a.from < b.from || (a.from == b.from && a.to < b.to)))
  }

  ghost predicate WellFormed(g: Graph) {
    && (forall i, j :: 0 <= i < j < |g.nodes| ==> g.nodes[i] != g.nodes[j])
    && (forall n :: n in g.nodes <==> n in g.out)
    && (forall n, e :: n in g.out && e in g.out[n] ==> e.from == n && e.to in g.out && e.to != n)
    && (forall e, f, n :: n in g.out && e in g.out[n] && f in g.out[n] && e.to == f.to ==> e == f)
    && (forall e :: e in g.byWeight <==> e.from in g.out && e in g.out[e.from])
    && (forall i, j :: 0 <= i < j < |g.byWeight| ==> Lighter(g.byWeight[i], g.byWeight[j]))
  }

  /** e->reverse is not null. */
  predicate HasReverse(g: Graph, e: Edge) {
    e.to in g.out && exists i :: 0 <= i < |g.out[e.to]| && g.out[e.to][i].to == e.from
  }

  predicate Usable(g: Graph, e: Edge) {
    e.from in g.out && e in g.out[e.from] && HasReverse(g, e)
  }

  ghost predicate NoIndirect(g: Graph) {
    forall n, e :: n in g.out && e in g.out[n] ==> !e.indirect
  }

  ghost predicate NonNegative(g: Graph) {
    forall n, e :: n in g.out && e in g.out[n] ==> e.weight >= 0
  }

  /** p leads from a to b over usable edges. */
  ghost predicate IsWalk(g: Graph, a: Node, p: seq<Edge>, b: Node) {
    if p == [] then a == b && a in g.out
    else
      var e := p[|p| - 1];
      Usable(g, e) && e.to == b && IsWalk(g, a, p[..|p| - 1], e.from)
  }

  function Weight(p: seq<Edge>): (w: int) {
    if p == [] then 0 else Weight(p[..|p| - 1]) + p[|p| - 1].weight
  }

  predicate AllDirect(p: seq<Edge>) {
    forall e <- p :: !e.indirect
  }

  ghost predicate Reachable(g: Graph, a: Node, b: Node) {
    exists p :: IsWalk(g, a, p, b)
  }

  lemma WalkSnoc(g: Graph, a: Node, p: seq<Edge>, e: Edge)
    requires IsWalk(g, a, p, e.from) && Usable(g, e)
    ensures IsWalk(g, a, p + [e], e.to)
    ensures Weight(p + [e]) == Weight(p) + e.weight
  {
    assert (p + [e])[..|p|] == p;
  }

  /** A walk leaves its start by its first edge. */
  lemma {:induction false} WalkStart(g: Graph, a: Node, p: seq<Edge>, b: Node)
    requires IsWalk(g, a, p, b) && p != []
    ensures p[0].from == a && Usable(g, p[0])
  {
    if |p| > 1 {
      var n := |p| - 1;
      WalkStart(g, a, p[..n], p[n].from);
      assert p[..n][0] == p[0];
    }
  }
}
