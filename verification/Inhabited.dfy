/** The assumptions of the main results can be met. */
module Inhabited {
  import opened Basics
  import Sptps
  import P = SptpsProtocol
  import opened MeshGraph
  import opened Sssp
  import opened Mst
  import opened Broadcast
  import T = SpanningTree

  /** A cryptography that hides nothing but obeys the laws. */
  const PLAIN: Sptps.Crypto := Sptps.Crypto(
    _ => seq(32, _ => 0), (_, _) => seq(32, _ => 0), k => k, (_, _) => seq(64, _ => 0), (_, _, _) => true, (_, _) => seq(128, _ => 0),
    (k, n, p) => p + seq(16, _ => 0),
    (k, n, t) => if |t| < 16 then None else Some(t[..|t| - 16]))

  lemma PlainIsLawful()
    ensures Sptps.Lawful(PLAIN)
  {
    forall k: Sptps.Bytes, n: int, p: Sptps.Bytes
      ensures PLAIN.open(k, n, PLAIN.seal(k, n, p)) == Some(p)
    {
      var t := p + seq(16, _ => 0);
      assert t[..|t| - 16] == p;
    }
  }

  /** Two peers that the two-party theorem is about. */
  lemma PeersExist(a: Sptps.Bytes, b: Sptps.Bytes, name: Sptps.Bytes, ra: nat -> Sptps.Draw, rb: nat -> Sptps.Draw)
    ensures P.Matching(PLAIN, Sptps.Config(true, a, b, name, ra, (_, _) => true), Sptps.Config(false, b, a, name, rb, (_, _) => true))
  {
    PlainIsLawful();
  }

  // Two daemons with one link between them.

  function Hop(me: Node, w: int): (e: Edge) { Edge(me, if me == 0 then 1 else 0, w, false) }

  function Duo(w: int): (g: Graph) {
    Graph([0, 1], map[0 := [Hop(0, w)], 1 := [Hop(1, w)]], [Hop(0, w), Hop(1, w)])
  }

  function DuoRoutes(me: Node, w: int): (r: map<Node, Info>) {
    var other := if me == 0 then 1 else 0;
    map[me := Info(true, false, 0, 0, me, me), other := Info(true, false, 1, w, other, other)]
  }

  lemma DuoWellFormed(w: int)
    ensures WellFormed(Duo(w)) && NoIndirect(Duo(w)) && Usable(Duo(w), Hop(0, w)) && Usable(Duo(w), Hop(1, w))
  {
    var g := Duo(w);
    assert g.out[0] == [Hop(0, w)] && g.out[1] == [Hop(1, w)];
    assert g.out[1][0].to == 0 && g.out[0][0].to == 1;
    forall e: Edge
      ensures e in g.byWeight <==> e.from in g.out && e in g.out[e.from]
    {
      assert e in g.byWeight <==> e == Hop(0, w) || e == Hop(1, w);
    }
  }

  lemma DuoIs(w: int)
    ensures Duo(w).out.Keys == {0, 1} && Duo(w).out[0] == [Hop(0, w)] && Duo(w).out[1] == [Hop(1, w)]
  {
  }

  /** A walk of one edge. */
  lemma OneEdge(g: Graph, me: Node, q: seq<Edge>, x: Node)
    requires IsWalk(g, me, q, x) && |q| == 1
    ensures Usable(g, q[0]) && q[0].from == me && q[0].to == x
  {
    assert q[..0] == [];
  }

  lemma NoEdge(g: Graph, me: Node, q: seq<Edge>, x: Node)
    requires IsWalk(g, me, q, x)
    ensures x in g.out && (q == [] ==> me == x)
  {
  }

  lemma DuoEdge(me: Node, w: int, f: Edge)
    requires me < 2 && Usable(Duo(w), f) && f.from == me
    ensures f == Hop(me, w)
  {
    DuoIs(w);
  }

  lemma DuoWalks(me: Node, w: int)
    requires me < 2
    ensures var g, e := Duo(w), Hop(me, w);
            && Optimal(g, me, [], me) && Optimal(g, me, [e], e.to) && IsWalk(g, me, [], me) && IsWalk(g, me, [e], e.to)
            && Weight([]) == 0 && Weight([e]) == w && e.to != me && e.to < 2 && e.weight == w && !e.indirect
  {
    var g, e := Duo(w), Hop(me, w);
    DuoWellFormed(w);
    DuoIs(w);
    assert e.from == me && e.to != me && e.to < 2 && e.weight == w && !e.indirect && Usable(g, e) && me in g.out;
    hide *;
    forall f | Usable(g, f) && f.from == me
      ensures f == e
    {
      DuoEdge(me, w, f);
    }
    StayIsOptimal(g, me);
    HopIsOptimal(g, me, e);
  }

  /** The only edge to go by is the best way to its end. */
  lemma HopIsOptimal(g: Graph, me: Node, e: Edge)
    requires me in g.out && Usable(g, e) && e.from == me && e.to != me && (forall f :: Usable(g, f) && f.from == me ==> f == e)
    ensures IsWalk(g, me, [e], e.to) && Optimal(g, me, [e], e.to) && Weight([e]) == e.weight
  {
    hide *;
    StayIsOptimal(g, me);
    WalkSnoc(g, me, [], e);
    assert [] + [e] == [e];
    forall q: seq<Edge> | IsWalk(g, me, q, e.to)
      ensures 1 <= |q| && (|q| == 1 ==> Weight([e]) <= Weight(q))
    {
      NoEdge(g, me, q, e.to);
      if |q| == 1 {
        OneEdge(g, me, q, e.to);
        assert q == [e];
      }
    }
    FoldOptimal(g, me, [e], e.to);
  }

  lemma FoldOptimal(g: Graph, me: Node, p: seq<Edge>, x: Node)
    requires IsWalk(g, me, p, x) && forall q | IsWalk(g, me, q, x) :: |p| <= |q| && (|p| == |q| ==> Weight(p) <= Weight(q))
    ensures Optimal(g, me, p, x)
  {
  }

  lemma StayIsOptimal(g: Graph, me: Node)
    requires me in g.out
    ensures IsWalk(g, me, [], me) && Optimal(g, me, [], me) && Weight([]) == 0
  {
    assert IsWalk(g, me, [], me);
    hide IsWalk;
    forall q: seq<Edge> | IsWalk(g, me, q, me)
      ensures 0 <= |q| && (|q| == 0 ==> Weight([]) <= Weight(q))
    {
      assert |q| == 0 ==> q == [];
    }
  }

  /** What holds of both places holds of the whole map. */
  lemma DuoRoutesAre(me: Node, w: int)
    requires me < 2
    ensures var r, other := DuoRoutes(me, w), Hop(me, w).to;
            && r.Keys == {me, other} == {0, 1}
            && r[me] == Info(true, false, 0, 0, me, me) && r[other] == Info(true, false, 1, w, other, other)
  {
  }

  lemma FromWalk(g: Graph, me: Node, x: Node, i: Info, p: seq<Edge>)
    requires IsWalk(g, me, p, x) && Weight(p) == i.weighted && |p| == i.distance && AllDirect(p) && !i.indirect && i.via == x
    requires if p == [] then x == me && i.nexthop == me else p[0].to == i.nexthop
    ensures Sound(g, me, x, i) && Routed(g, me, x, i, p) && Reachable(g, me, x)
  {
    hide IsWalk;
    assert p[..|p|] == p;
    assert Routed(g, me, x, i, p) && Relayed(g, me, x, i, p, |p|);
  }

  lemma DuoReach(me: Node, w: int, x: Node)
    requires me < 2 && Reachable(Duo(w), me, x)
    ensures x < 2
  {
    var g := Duo(w);
    var p: seq<Edge> :| IsWalk(g, me, p, x);
    NoEdge(g, me, p, x);
    DuoIs(w);
  }

  lemma DuoRouted(me: Node, w: int)
    requires me < 2
    ensures SoundRoutes(Duo(w), me, DuoRoutes(me, w)) && OptimalRoutes(Duo(w), me, DuoRoutes(me, w))
    ensures IsComponent(Duo(w), me, {0, 1})
  {
    var g, e, r := Duo(w), Hop(me, w), DuoRoutes(me, w);
    DuoIs(w);
    DuoWalks(me, w);
    DuoRoutesAre(me, w);
    hide Duo;
    hide Hop;
    hide DuoRoutes;
    hide IsWalk;
    hide Optimal;
    hide Sound;
    FromWalk(g, me, me, r[me], []);
    FromWalk(g, me, e.to, r[e.to], [e]);
    hide Routed;
    forall x | Reachable(g, me, x)
      ensures x in {0, 1}
    {
      DuoReach(me, w, x);
    }
    hide Reachable;
    assert SoundRoutes(g, me, r);
    assert OptimalRoutes(g, me, r);
    assert IsComponent(g, me, {0, 1});
  }

  /** What each of them has after graph(), given the tree. */
  function DuoView(me: Node, w: int, tree: set<T.Link>): (v: View) {
    var other := if me == 0 then 1 else 0;
    View(DuoRoutes(me, w), {0, 1}, {other}, set q | q in {other} && Pair(me, q) in tree)
  }

  lemma DuoRan(g: Graph, me: Node, w: int, tree: set<T.Link>)
    requires me < 2 && g == Duo(w) && WellFormed(g) && tree == MstTree(g, {0, 1})
    ensures RanGraph(g, me, DuoView(me, w, tree))
  {
    hide *;
    DuoRouted(me, w);
    forall e | Usable(g, e) && e.from == me
      ensures e.to == if me == 0 then 1 else 0
    {
      DuoEdge(me, w, e);
      HopTo(me, w);
    }
    RanBy(g, me, DuoRoutes(me, w), if me == 0 then 1 else 0, w);
  }

  lemma HopTo(me: Node, w: int)
    ensures Hop(me, w).to == if me == 0 then 1 else 0
  {
  }

  lemma RanBy(g: Graph, me: Node, info: map<Node, Info>, other: Node, w: int)
    requires WellFormed(g) && SoundRoutes(g, me, info) && OptimalRoutes(g, me, info) && IsComponent(g, me, {0, 1})
    requires forall e | Usable(g, e) && e.from == me :: e.to == other
    requires info == DuoRoutes(me, w) && other == if me == 0 then 1 else 0
    ensures RanGraph(g, me, DuoView(me, w, MstTree(g, {0, 1})))
  {
    hide WellFormed;
    hide SoundRoutes;
    hide OptimalRoutes;
    hide IsComponent;
    hide MstTree;
    hide DuoRoutes;
    hide Usable;
  }

  /** They are a network that the broadcast theorem is about. */
  lemma DuoSettled(w: int) returns (net: Network)
    ensures net.g == Duo(w) && net.c == {0, 1} && Settled(net, 0)
  {
    hide *;
    var g := Duo(w);
    DuoWellFormed(w);
    DuoIs(w);
    var tree := MstTree(g, {0, 1});
    DuoRan(g, 0, w, tree);
    DuoRan(g, 1, w, tree);
    net := Network(g, {0, 1}, map[0 := DuoView(0, w, tree), 1 := DuoView(1, w, tree)]);
    DuoReachable(w, tree);
    SettledBy(net);
  }

  lemma DuoReachable(w: int, tree: set<T.Link>)
    ensures DuoView(0, w, tree).reachable == {0, 1}
  {
  }

  lemma SettledBy(net: Network)
    requires WellFormed(net.g) && NoIndirect(net.g) && 0 in net.g.out && net.views.Keys == net.c == {0, 1} == net.views[0].reachable
    requires RanGraph(net.g, 0, net.views[0]) && RanGraph(net.g, 1, net.views[1])
    ensures Settled(net, 0)
  {
    hide WellFormed;
    hide NoIndirect;
    hide RanGraph;
  }
}
