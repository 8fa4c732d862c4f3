/** What mst_kruskal computes: links added one by one, always the first usable edge in
    weight order that leaves the visited set. */
module Mst {
  import opened MeshGraph
  import T = SpanningTree

  function Pair(a: Node, b: Node): (l: T.Link) {
    if a < b then T.Link(a, b) else T.Link(b, a)
  }

  function LinkOf(e: Edge): (l: T.Link) { Pair(e.from, e.to) }

  /** Edge i of the weight order has a reverse and leaves the visited set. */
  predicate Safe(g: Graph, visited: set<Node>, i: nat)
    requires i < |g.byWeight|
  {
    var e := g.byWeight[i];
    HasReverse(g, e) && (e.from in visited) != (e.to in visited)
  }

  function FirstSafe(g: Graph, visited: set<Node>, i: nat): (j: nat)
    requires i <= |g.byWeight|
    ensures i <= j <= |g.byWeight|
    ensures j < |g.byWeight| ==> Safe(g, visited, j)
    ensures forall k :: i <= k < j ==> !Safe(g, visited, k)
    decreases |g.byWeight| - i
  {
    if i == |g.byWeight| || Safe(g, visited, i) then i else FirstSafe(g, visited, i + 1)
  }

  /** The starting point: the source of the lightest edge that leaves a reachable node. */
  function StartSet(g: Graph, reachable: set<Node>, i: nat): (r: set<Node>)
    requires i <= |g.byWeight|
    ensures r == {} <==> forall k :: i <= k < |g.byWeight| ==> g.byWeight[k].from !in reachable
    ensures r <= reachable
    ensures r != {} ==> exists n :: r == {n}
    decreases |g.byWeight| - i
  {
    if i == |g.byWeight| then {}
    else if g.byWeight[i].from in reachable then {g.byWeight[i].from}
    else StartSet(g, reachable, i + 1)
  }

  /** The links chosen from here on, added to those chosen so far. */
  function Grow(g: Graph, visited: set<Node>, tree: set<T.Link>): (r: set<T.Link>)
    requires WellFormed(g)
    decreases g.out.Keys - visited
  {
    var j := FirstSafe(g, visited, 0);
    if j == |g.byWeight| then tree
    else
      var e := g.byWeight[j];
      Grow(g, visited + {e.from, e.to}, tree + {LinkOf(e)})
  }

  function MstTree(g: Graph, reachable: set<Node>): (r: set<T.Link>)
    requires WellFormed(g)
  {
    Grow(g, StartSet(g, reachable, 0), {})
  }

  /** The links of the mesh inside c: pairs of nodes with edges both ways. */
  function LinksIn(g: Graph, c: set<Node>): (r: set<T.Link>) {
    set e | e in g.byWeight && HasReverse(g, e) && e.from in c && e.to in c :: LinkOf(e)
  }

  /** The weight of the edge from u to v. */
  ghost function EdgeWeight(g: Graph, u: Node, v: Node): (w: int) {
    if e :| e in g.byWeight && e.from == u && e.to == v then e.weight else 0
  }

  /** A link weighs the lesser of its two directed edges. */
  ghost function LinkWeight(g: Graph): (w: T.Link -> int) {
    (l: T.Link) => var a, b := EdgeWeight(g, l.lo, l.hi), EdgeWeight(g, l.hi, l.lo); if a <= b then a else b
  }

  /** c is the part of the mesh that me can reach over usable edges. */
  ghost predicate IsComponent(g: Graph, me: Node, c: set<Node>) {
    forall x :: x in c <==> Reachable(g, me, x)
  }

  lemma EdgeWeightIs(g: Graph, e: Edge)
    requires WellFormed(g) && e in g.byWeight
    ensures EdgeWeight(g, e.from, e.to) == e.weight
  {
  }

  /** The reverse edge is in the weight order too and has a reverse. */
  lemma ReverseOf(g: Graph, e: Edge) returns (r: Edge)
    requires WellFormed(g) && e in g.byWeight && HasReverse(g, e)
    ensures r in g.byWeight && HasReverse(g, r) && r.from == e.to && r.to == e.from
  {
    var es := g.out[e.to];
    var i :| 0 <= i < |es| && es[i].to == e.from;
    r := es[i];
    assert r in es;
    var k :| 0 <= k < |g.out[e.from]| && g.out[e.from][k] == e;
  }

  lemma ReachOn(g: Graph, me: Node, e: Edge)
    requires WellFormed(g) && e in g.byWeight && HasReverse(g, e) && Reachable(g, me, e.from)
    ensures Reachable(g, me, e.to)
  {
    assert Usable(g, e);
    hide WellFormed;
    hide IsWalk;
    hide HasReverse;
    var p :| IsWalk(g, me, p, e.from);
    WalkSnoc(g, me, p, e);
  }

  lemma ComponentClosed(g: Graph, me: Node, c: set<Node>, e: Edge)
    requires WellFormed(g) && IsComponent(g, me, c) && e in g.byWeight && HasReverse(g, e)
    ensures e.from in c <==> e.to in c
  {
    hide WellFormed;
    hide Reachable;
    hide HasReverse;
    var r := ReverseOf(g, e);
    if e.from in c {
      ReachOn(g, me, e);
    }
    if e.to in c {
      ReachOn(g, me, r);
    }
  }

  /** A walk out of x contains a usable edge out of x. */
  lemma {:induction false} WalkLeaves(g: Graph, me: Node, p: seq<Edge>, y: Node, x: set<Node>) returns (e: Edge)
    requires WellFormed(g) && IsWalk(g, me, p, y) && (me in x) != (y in x)
    ensures e in g.byWeight && HasReverse(g, e) && (e.from in x) != (e.to in x)
    ensures Reachable(g, me, e.from)
  {
    var n := |p| - 1;
    if (p[n].from in x) != (y in x) {
      e := p[n];
      assert IsWalk(g, me, p[..n], e.from);
    } else {
      e := WalkLeaves(g, me, p[..n], p[n].from, x);
    }
  }

  lemma ComponentConnected(g: Graph, me: Node, c: set<Node>, x: set<Node>) returns (e: Edge)
    requires WellFormed(g) && me in g.out && IsComponent(g, me, c) && x <= c && x != {} && x != c
    ensures e in g.byWeight && HasReverse(g, e) && (e.from in x) != (e.to in x) && e.from in c
  {
    hide WellFormed;
    assert !(c <= x);
    var a :| a in x;
    var b :| b in c && b !in x;
    var y := if me in x then b else a;
    assert Reachable(g, me, y);
    var p :| IsWalk(g, me, p, y);
    e := WalkLeaves(g, me, p, y, x);
  }

  /** The first safe edge is a lightest link leaving the visited set. */
  lemma FirstSafeLightest(g: Graph, me: Node, c: set<Node>, visited: set<Node>)
    requires WellFormed(g) && IsComponent(g, me, c) && visited <= c
    requires FirstSafe(g, visited, 0) < |g.byWeight|
    ensures var e := g.byWeight[FirstSafe(g, visited, 0)];
            && e.from in c && e.to in c && (e.from in visited) != (e.to in visited)
            && T.Lightest(LinkWeight(g), LinksIn(g, c), visited, LinkOf(e))
  {
    hide WellFormed;
    hide HasReverse;
    hide LinkWeight;
    hide IsComponent;
    var j := FirstSafe(g, visited, 0);
    var e := g.byWeight[j];
    ComponentClosed(g, me, c, e);
    LinkBounds(g, visited, e);
    var w := LinkWeight(g);
    forall l | l in LinksIn(g, c) && T.Crosses(l, visited)
      ensures w(LinkOf(e)) <= w(l)
    {
      var f :| f in g.byWeight && HasReverse(g, f) && f.from in c && f.to in c && LinkOf(f) == l;
      LinkBounds(g, visited, f);
    }
  }

  lemma LinkBounds(g: Graph, visited: set<Node>, f: Edge)
    requires WellFormed(g) && f in g.byWeight && HasReverse(g, f) && (f.from in visited) != (f.to in visited)
    ensures var j := FirstSafe(g, visited, 0);
            j < |g.byWeight| && g.byWeight[j].weight <= LinkWeight(g)(LinkOf(f)) <= f.weight
  {
    hide WellFormed;
    hide HasReverse;
    hide EdgeWeight;
    hide FirstSafe;
    var r := ReverseOf(g, f);
    LateEdge(g, visited, f);
    LateEdge(g, visited, r);
    EdgeWeightIs(g, f);
    EdgeWeightIs(g, r);
  }

  /** A usable edge leaving the visited set comes no earlier than the first one. */
  lemma LateEdge(g: Graph, visited: set<Node>, f: Edge)
    requires WellFormed(g) && f in g.byWeight && HasReverse(g, f) && (f.from in visited) != (f.to in visited)
    ensures var j := FirstSafe(g, visited, 0);
            j < |g.byWeight| && g.byWeight[j].weight <= f.weight
  {
    var k :| 0 <= k < |g.byWeight| && g.byWeight[k] == f;
    assert Safe(g, visited, k);
  }

  // The invariant of the growing tree, and the result.

  ghost predicate Growing(g: Graph, c: set<Node>, visited: set<Node>, tree: set<T.Link>) {
    && visited != {} && visited <= c
    && T.AllInside(tree, visited) && T.Spans(tree, visited) && |tree| == |visited| - 1
    && tree <= LinksIn(g, c)
    && T.Extends(LinkWeight(g), LinksIn(g, c), c, tree)
  }

  lemma GrowStep(g: Graph, me: Node, c: set<Node>, visited: set<Node>, tree: set<T.Link>)
    requires WellFormed(g) && IsComponent(g, me, c) && Growing(g, c, visited, tree)
    requires FirstSafe(g, visited, 0) < |g.byWeight|
    ensures var e := g.byWeight[FirstSafe(g, visited, 0)];
            Growing(g, c, visited + {e.from, e.to}, tree + {LinkOf(e)})
  {
    hide WellFormed;
    hide IsComponent;
    hide LinkWeight;
    hide T.Extends;
    hide T.Lightest;
    var e := g.byWeight[FirstSafe(g, visited, 0)];
    var l := LinkOf(e);
    FirstSafeLightest(g, me, c, visited);
    T.AddLightest(LinkWeight(g), LinksIn(g, c), c, tree, visited, l);
    hide FirstSafe;
    var y := if e.from in visited then e.to else e.from;
    assert visited + {e.from, e.to} == visited + {y};
    T.SpanMonotone(tree, tree + {l}, visited);
    T.SpanGrows(tree + {l}, visited, l, y);
    assert l !in tree;
    assert l in LinksIn(g, c);
  }

  /** With no safe edge left the whole component has been visited. */
  lemma NoneLeft(g: Graph, me: Node, c: set<Node>, visited: set<Node>)
    requires WellFormed(g) && me in g.out && IsComponent(g, me, c) && visited != {} && visited <= c
    requires FirstSafe(g, visited, 0) == |g.byWeight|
    ensures visited == c
  {
    if visited != c {
      hide WellFormed;
      var e := ComponentConnected(g, me, c, visited);
      LateEdge(g, visited, e);
    }
  }

  lemma {:induction false} GrowResult(g: Graph, me: Node, c: set<Node>, visited: set<Node>, tree: set<T.Link>)
    requires WellFormed(g) && me in g.out && IsComponent(g, me, c) && Growing(g, c, visited, tree)
    ensures Growing(g, c, c, Grow(g, visited, tree))
    decreases g.out.Keys - visited
  {
    hide Growing;
    var j := FirstSafe(g, visited, 0);
    if j == |g.byWeight| {
      assert visited == c by { GrowingSet(g, c, visited, tree); NoneLeft(g, me, c, visited); }
    } else {
      var e := g.byWeight[j];
      GrowStep(g, me, c, visited, tree);
      GrowResult(g, me, c, visited + {e.from, e.to}, tree + {LinkOf(e)});
    }
  }

  lemma GrowingSet(g: Graph, c: set<Node>, visited: set<Node>, tree: set<T.Link>)
    requires Growing(g, c, visited, tree)
    ensures visited != {} && visited <= c
  {
  }

  /** A single node is a tree by itself. */
  lemma StartGrowing(g: Graph, c: set<Node>, n: Node)
    requires WellFormed(g) && n in c
    ensures Growing(g, c, {n}, {})
  {
    hide WellFormed;
    T.SingletonSpans({}, n);
    forall tree | tree <= LinksIn(g, c) && T.IsSpanningTree(tree, c)
      ensures T.Improvable(LinkWeight(g), LinksIn(g, c), c, {}, tree)
    {
      assert {} <= tree <= LinksIn(g, c);
    }
  }

  /** tree is a spanning tree of c over the links of the mesh, and none weighs less. */
  ghost predicate IsMinimumTree(g: Graph, c: set<Node>, tree: set<T.Link>) {
    && tree <= LinksIn(g, c) && T.IsSpanningTree(tree, c)
    && forall t | t <= LinksIn(g, c) && T.IsSpanningTree(t, c) :: T.Sum(LinkWeight(g), tree) <= T.Sum(LinkWeight(g), t)
  }

  lemma GrownIsMinimum(g: Graph, c: set<Node>, tree: set<T.Link>)
    requires Growing(g, c, c, tree)
    ensures IsMinimumTree(g, c, tree)
  {
    hide LinkWeight;
    forall t | t <= LinksIn(g, c) && T.IsSpanningTree(t, c)
      ensures T.Sum(LinkWeight(g), tree) <= T.Sum(LinkWeight(g), t)
    {
      T.FullTreeIsMinimum(LinkWeight(g), LinksIn(g, c), c, tree, t);
    }
  }

  /** Main result: whatever the mesh, the links chosen form a minimum spanning tree of
      the component of any of its members. */
  lemma MstIsMinimum(g: Graph, me: Node, c: set<Node>)
    requires WellFormed(g) && me in g.out && IsComponent(g, me, c)
    ensures IsMinimumTree(g, c, MstTree(g, c))
  {
    hide Growing;
    hide IsMinimumTree;
    assert IsWalk(g, me, [], me);
    var start := StartSet(g, c, 0);
    if start == {} {
      Alone(g, me, c);
      StartGrowing(g, c, me);
      assert FirstSafe(g, {}, 0) == |g.byWeight|;
      GrownIsMinimum(g, c, {});
    } else {
      var n :| start == {n};
      StartGrowing(g, c, n);
      GrowResult(g, me, c, start, {});
      GrownIsMinimum(g, c, Grow(g, start, {}));
    }
  }

  /** Without an edge from a reachable node, nobody but me is reachable. */
  lemma Alone(g: Graph, me: Node, c: set<Node>)
    requires WellFormed(g) && me in g.out && IsComponent(g, me, c)
    requires StartSet(g, c, 0) == {}
    ensures c == {me}
  {
    assert IsWalk(g, me, [], me);
    if c != {me} {
      hide WellFormed;
      var e := ComponentConnected(g, me, c, {me});
    }
  }
}
