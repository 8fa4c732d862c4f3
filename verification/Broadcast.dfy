/** Broadcasting over the minimum spanning tree: every daemon of the component gets the
    packet exactly once. */
module Broadcast {
  import opened MeshGraph
  import opened Sssp
  import opened Mst
  import T = SpanningTree

  /** The peers of p over tree links. */
  function Neighbours(c: set<Node>, tree: set<T.Link>, p: Node): (r: set<Node>) {
    set q | q in c && Pair(p, q) in tree
  }

  /** What a daemon knows once it has run graph(): the fields of its nodes, who is
      reachable, its meta connections, and which of them are flagged mst. */
  datatype View = View(info: map<Node, Info>, reachable: set<Node>, connections: set<Node>, mst: set<Node>)

  /** What graph() leaves at daemon p, which holds a connection for each of its edges. */
  ghost predicate RanGraph(g: Graph, p: Node, v: View)
    requires WellFormed(g)
  {
    && SoundRoutes(g, p, v.info) && OptimalRoutes(g, p, v.info)
    && IsComponent(g, p, v.reachable)
    && (forall e | Usable(g, e) && e.from == p :: e.to in v.connections)
    && v.mst == (set q | q in v.connections && Pair(p, q) in MstTree(g, v.reachable))
  }

  /** The daemons, and which of them the broadcast is for. */
  datatype Network = Network(g: Graph, c: set<Node>, views: map<Node, View>)

  /** Every daemon the origin can reach has run graph() over the same edges, none of which
      carries OPTION_INDIRECT. */
  ghost predicate Settled(net: Network, o: Node) {
    && WellFormed(net.g) && NoIndirect(net.g)
    && o in net.g.out && o in net.views && net.c == net.views[o].reachable
    && RanGraph(net.g, o, net.views[o])
    && forall p <- net.c :: p in net.views && RanGraph(net.g, p, net.views[p])
  }

  function Tree(net: Network): (t: set<T.Link>)
    requires WellFormed(net.g)
  {
    MstTree(net.g, net.c)
  }

  /** What follows: all of them hold the same tree, with a connection over each link. */
  ghost predicate Converged(net: Network) {
    && WellFormed(net.g) && NoIndirect(net.g)
    && net.c <= net.g.out.Keys && net.c <= net.views.Keys
    && forall p <- net.c ::
         && IsComponent(net.g, p, net.c)
         && SoundRoutes(net.g, p, net.views[p].info) && OptimalRoutes(net.g, p, net.views[p].info)
         && Flagged(net, p)
  }

  /** The flagged connections of p are those to its tree neighbours. */
  predicate Flagged(net: Network, p: Node)
    requires WellFormed(net.g) && p in net.views
  {
    net.views[p].connections * net.views[p].mst == Neighbours(net.c, Tree(net), p)
  }

  /** broadcast_packet at p: every connection flagged mst except the one behind
      from->nexthop. */
  function Sends(v: View, from: Node): (r: set<Node>)
    requires from in v.info
  {
    v.connections * v.mst - {v.info[from].nexthop}
  }

  function Targets(net: Network, p: Node, from: Node): (r: set<Node>)
    requires p in net.views && from in net.views[p].info
  {
    Sends(net.views[p], from)
  }

  // From one daemon's component to everybody's.

  lemma {:induction false} WalkJoin(g: Graph, a: Node, p: seq<Edge>, b: Node, q: seq<Edge>, x: Node)
    requires IsWalk(g, a, p, b) && IsWalk(g, b, q, x)
    ensures IsWalk(g, a, p + q, x)
  {
    if q == [] {
      assert p + q == p;
    } else {
      var e := q[|q| - 1];
      WalkJoin(g, a, p, b, q[..|q| - 1], e.from);
      WalkSnoc(g, a, p + q[..|q| - 1], e);
      assert p + q == (p + q[..|q| - 1]) + [e];
    }
  }

  /** Every edge of a walk has a reverse, so that one can walk back. */
  lemma {:induction false} WalkBack(g: Graph, a: Node, p: seq<Edge>, b: Node) returns (q: seq<Edge>)
    requires WellFormed(g) && IsWalk(g, a, p, b)
    ensures IsWalk(g, b, q, a)
  {
    hide WellFormed;
    q := [];
    if p != [] {
      var e := p[|p| - 1];
      EdgeListed(g, e);
      var r := ReverseOf(g, e);
      EdgeListed(g, r);
      assert IsWalk(g, r.from, [], r.from);
      WalkSnoc(g, r.from, [], r);
      assert [] + [r] == [r];
      q := WalkBack(g, a, p[..|p| - 1], e.from);
      WalkJoin(g, b, [r], e.from, q, a);
      q := [r] + q;
    }
  }

  lemma EdgeListed(g: Graph, e: Edge)
    requires WellFormed(g)
    ensures Usable(g, e) <==> e in g.byWeight && HasReverse(g, e)
    ensures Usable(g, e) ==> e.from in g.out && e.to in g.out
  {
    hide HasReverse;
  }

  lemma ReachFrom(g: Graph, a: Node, b: Node, x: Node)
    requires WellFormed(g) && Reachable(g, a, b)
    ensures Reachable(g, a, x) <==> Reachable(g, b, x)
  {
    hide WellFormed;
    hide IsWalk;
    var p :| IsWalk(g, a, p, b);
    var q := WalkBack(g, a, p, b);
    if v :| IsWalk(g, a, v, x) {
      WalkJoin(g, b, q, a, v, x);
    }
    if v :| IsWalk(g, b, v, x) {
      WalkJoin(g, a, p, b, v, x);
    }
  }

  /** A component is the component of each of its members. */
  lemma SameComponent(g: Graph, a: Node, c: set<Node>, p: Node)
    requires WellFormed(g) && IsComponent(g, a, c) && p in c
    ensures IsComponent(g, p, c)
  {
    hide WellFormed;
    hide Reachable;
    forall x
      ensures x in c <==> Reachable(g, p, x)
    {
      ReachFrom(g, a, p, x);
    }
  }

  /** Daemons that ran graph() over the same edges agree on component and tree, and each is
      connected to its tree neighbours. */
  lemma Settles(net: Network, o: Node)
    requires Settled(net, o)
    ensures Converged(net) && o in net.c
  {
    hide WellFormed;
    hide NoIndirect;
    hide SoundRoutes;
    hide OptimalRoutes;
    hide RanGraph;
    hide Flagged;
    OwnComponent(net, o);
    forall p | p in net.c
      ensures p in net.g.out && IsComponent(net.g, p, net.c) && Flagged(net, p)
      ensures SoundRoutes(net.g, p, net.views[p].info) && OptimalRoutes(net.g, p, net.views[p].info)
    {
      Agrees(net, o, p);
    }
    hide IsComponent;
  }

  lemma OwnComponent(net: Network, o: Node)
    requires Settled(net, o)
    ensures o in net.c && IsComponent(net.g, o, net.c)
  {
    hide WellFormed;
    assert IsWalk(net.g, o, [], o);
  }

  lemma Agrees(net: Network, o: Node, p: Node)
    requires Settled(net, o) && p in net.c
    ensures p in net.g.out && IsComponent(net.g, p, net.c) && Flagged(net, p)
    ensures SoundRoutes(net.g, p, net.views[p].info) && OptimalRoutes(net.g, p, net.views[p].info)
  {
    hide WellFormed;
    hide NoIndirect;
    hide SoundRoutes;
    hide OptimalRoutes;
    hide MstTree;
    OwnComponent(net, o);
    SameComponent(net.g, o, net.c, p);
    ReachKnown(net.g, o, p);
    hide Reachable;
    assert net.views[p].reachable == net.c;
    TreeFlagged(net, p);
  }

  lemma ReachKnown(g: Graph, a: Node, x: Node)
    requires WellFormed(g) && Reachable(g, a, x)
    ensures x in g.out
  {
    var p :| IsWalk(g, a, p, x);
    if p != [] {
      EdgeListed(g, p[|p| - 1]);
    }
  }

  lemma TreeFlagged(net: Network, p: Node)
    requires WellFormed(net.g) && p in net.g.out && p in net.views && RanGraph(net.g, p, net.views[p])
    requires net.views[p].reachable == net.c
    ensures Flagged(net, p)
  {
    hide WellFormed;
    hide SoundRoutes;
    hide OptimalRoutes;
    hide MstTree;
    MstIsMinimum(net.g, p, net.c);
    hide LinksIn;
    hide T.IsSpanningTree;
    hide IsComponent;
    var v := net.views[p];
    forall q | Pair(p, q) in Tree(net)
      ensures q in net.c && q in v.connections
    {
      var e := LinkEdge(net.g, net.c, p, q);
    }
  }

  /** The way to a neighbour is the neighbour. */
  lemma NeighbourHop(g: Graph, p: Node, info: map<Node, Info>, e: Edge)
    requires WellFormed(g) && SoundRoutes(g, p, info) && OptimalRoutes(g, p, info)
    requires Usable(g, e) && e.from == p
    ensures e.to in info && info[e.to].nexthop == e.to
  {
    var q := e.to;
    EdgeFrom(g, p, e);
    hide WellFormed;
    hide Usable;
    hide Sound;
    assert IsWalk(g, p, [], p);
    WalkSnoc(g, p, [], e);
    assert [] + [e] == [e];
    var w := OptimalWalk(g, p, info, q, [e]);
    assert |w| == 1;
    assert w[|w| - 1].to == q;
  }

  lemma OptimalWalk(g: Graph, p: Node, info: map<Node, Info>, q: Node, v: seq<Edge>) returns (w: seq<Edge>)
    requires SoundRoutes(g, p, info) && OptimalRoutes(g, p, info) && IsWalk(g, p, v, q) && q in g.out
    ensures q in info && |w| <= |v| && Routed(g, p, q, info[q], w)
  {
    hide IsWalk;
    hide Sound;
    hide Routed;
    assert Reachable(g, p, q);
    w :| Optimal(g, p, w, q) && |w| == info[q].distance && Routed(g, p, q, info[q], w);
  }

  /** The origin's own route leads nowhere. */
  lemma OwnHop(g: Graph, p: Node, info: map<Node, Info>)
    requires WellFormed(g) && p in g.out && SoundRoutes(g, p, info) && OptimalRoutes(g, p, info)
    ensures p in info && info[p].nexthop == p
  {
    hide WellFormed;
    hide Sound;
    var w := OptimalWalk(g, p, info, p, []);
  }

  lemma LinkEdge(g: Graph, c: set<Node>, p: Node, q: Node) returns (e: Edge)
    requires WellFormed(g) && Pair(p, q) in LinksIn(g, c)
    ensures Usable(g, e) && e.from == p && e.to == q && p != q && p in c && q in c
  {
    var f :| f in g.byWeight && HasReverse(g, f) && f.from in c && f.to in c && LinkOf(f) == Pair(p, q);
    if f.from == p {
      e := f;
    } else {
      e := ReverseOf(g, f);
    }
  }

  /** The tree every daemon holds is a spanning tree of the component. */
  lemma TreeSpans(net: Network, p: Node)
    requires Converged(net) && p in net.c
    ensures T.IsSpanningTree(Tree(net), net.c) && Tree(net) <= LinksIn(net.g, net.c)
    ensures forall l <- Tree(net) :: l.lo < l.hi
  {
    hide SoundRoutes;
    hide OptimalRoutes;
    hide NoIndirect;
    hide MstTree;
    hide WellFormed;
    hide LinksIn;
    assert IsComponent(net.g, p, net.c);
    MstIsMinimum(net.g, p, net.c);
    LinksOrdered(net.g, net.c);
    hide IsComponent;
    hide T.IsSpanningTree;
  }

  lemma LinksOrdered(g: Graph, c: set<Node>)
    requires WellFormed(g)
    ensures forall l <- LinksIn(g, c) :: l.lo < l.hi
  {
    hide HasReverse;
  }

  /** Once routes have converged a daemon passes the packet on to its tree neighbours
      other than the one it came from; the origin to all of them. */
  lemma TargetsAre(net: Network, p: Node, from: Node)
    requires Converged(net) && p in net.c && (from == p || Pair(p, from) in Tree(net))
    ensures p in net.views && from in net.views[p].info && Targets(net, p, from) == Neighbours(net.c, Tree(net), p) - {from}
  {
    hide SoundRoutes;
    hide OptimalRoutes;
    hide NoIndirect;
    hide MstTree;
    hide WellFormed;
    hide IsComponent;
    hide T.IsSpanningTree;
    hide Usable;
    hide LinksIn;
    TreeSpans(net, p);
    if from == p {
      OwnHop(net.g, p, net.views[p].info);
    } else {
      var e := LinkEdge(net.g, net.c, p, from);
      NeighbourHop(net.g, p, net.views[p].info, e);
    }
  }

  // Flooding, as a state machine over deliveries in any order.

  datatype Hop = Hop(sender: Node, receiver: Node)

  /** Deliveries so far, packets in flight, and transmissions so far. */
  datatype Flood = Flood(received: multiset<Node>, flight: multiset<Hop>, transmissions: nat)

  function Hops(p: Node, targets: set<Node>): (h: set<Hop>) { set q | q in targets :: Hop(p, q) }

  function SendAll(s: Flood, p: Node, targets: set<Node>): (r: Flood) {
    Flood(s.received, s.flight + multiset(Hops(p, targets)), s.transmissions + |targets|)
  }

  function Origin(net: Network, o: Node): (s: Flood)
    requires o in net.views && o in net.views[o].info
  {
    SendAll(Flood(multiset{}, multiset{}, 0), o, Targets(net, o, o))
  }

  /** A packet in flight arrives and is passed on. */
  function Deliver(net: Network, s: Flood, h: Hop): (r: Flood)
    requires h.receiver in net.views && h.sender in net.views[h.receiver].info
  {
    SendAll(Flood(s.received + multiset{h.receiver}, s.flight - multiset{h}, s.transmissions),
            h.receiver, Targets(net, h.receiver, h.sender))
  }

  /** The links used so far form a tree of the daemons reached so far. */
  ghost predicate Grown(c: set<Node>, tree: set<T.Link>, reached: set<Node>, used: set<T.Link>) {
    reached <= c && used <= tree && T.AllInside(used, reached) && T.Spans(used, reached) && |used| == |reached| - 1
  }

  predicate Has(s: Flood, o: Node, x: Node) { x == o || s.received[x] > 0 }

  ghost predicate Coming(s: Flood, x: Node) { exists q :: Hop(q, x) in s.flight }

  /** Nobody gets or is sent the packet twice. */
  ghost predicate Once(o: Node, s: Flood, reached: set<Node>) {
    && (forall x :: x in reached <==> Has(s, o, x) || Coming(s, x))
    && (forall x :: s.received[x] <= 1)
    && s.received[o] == 0
    && (forall h :: h in s.flight ==> s.flight[h] == 1 && !Has(s, o, h.receiver))
    && (forall h, k :: h in s.flight && k in s.flight && h.receiver == k.receiver ==> h == k)
  }

  /** A daemon that has the packet has used all its tree links; one whose packet is still
      in flight only the link it will come by. */
  ghost predicate Leaves(c: set<Node>, tree: set<T.Link>, o: Node, s: Flood, used: set<T.Link>) {
    && (forall h :: h in s.flight ==> Pair(h.receiver, h.sender) in used)
    && (forall h, q :: h in s.flight && Pair(h.receiver, q) in used ==> q == h.sender)
    && (forall x, q :: Has(s, o, x) && q in Neighbours(c, tree, x) ==> Pair(x, q) in used)
  }

  ghost predicate Flooding(c: set<Node>, tree: set<T.Link>, o: Node, s: Flood, reached: set<Node>, used: set<T.Link>) {
    && Grown(c, tree, reached, used) && |reached| == s.transmissions + 1
    && Once(o, s, reached) && Leaves(c, tree, o, s, used)
  }

  /** A tree link between two daemons already joined by used links is itself used. */
  lemma NoShortcut(tree: set<T.Link>, c: set<Node>, used: set<T.Link>, reached: set<Node>, p: Node, r: Node)
    requires T.IsSpanningTree(tree, c) && used <= tree && T.AllInside(used, reached) && T.Spans(used, reached)
    requires reached <= c && p in reached && r in reached && Pair(p, r) in tree && p != r
    ensures Pair(p, r) in used
  {
    var l := Pair(p, r);
    if l !in used {
      forall x: set<Node> | x <= c && x != {} && x != c
        ensures T.CutCrossed(tree - {l}, c, x)
      {
        assert T.CutCrossed(tree, c, x);
        if m :| m in tree && m != l && T.Inside(m, c) && T.Crosses(m, x) {
          assert m in tree - {l};
        } else {
          T.OneSide(used, reached, if p in x then x else c - x, p, r);
        }
      }
      T.TreeIsMinimal(tree, c, l);
    }
  }

  function StarLinks(p: Node, zs: set<Node>): (r: set<T.Link>) { set z | z in zs :: Pair(p, z) }

  /** Links from one reached daemon to new ones keep the used links a tree. */
  lemma {:induction false} Star(c: set<Node>, tree: set<T.Link>, reached: set<Node>, used: set<T.Link>, p: Node, zs: set<Node>)
    requires Grown(c, tree, reached, used) && p in reached && zs !! reached && zs <= Neighbours(c, tree, p)
    ensures Grown(c, tree, reached + zs, used + StarLinks(p, zs))
    decreases |zs|
  {
    hide *;
    if zs == {} {
      StarNone(p);
      assert reached + zs == reached && used + StarLinks(p, zs) == used;
    } else {
      var z :| z in zs;
      var rest := zs - {z};
      Star(c, tree, reached, used, p, rest);
      StarAdd(p, zs, z);
      assert reached + zs == (reached + rest) + {z};
      assert used + StarLinks(p, zs) == (used + StarLinks(p, rest)) + {Pair(p, z)};
      AddLeaf(c, tree, reached + rest, used + StarLinks(p, rest), p, z);
    }
  }

  lemma StarNone(p: Node)
    ensures StarLinks(p, {}) == {}
  {
  }

  lemma StarAdd(p: Node, zs: set<Node>, z: Node)
    requires z in zs
    ensures StarLinks(p, zs) == StarLinks(p, zs - {z}) + {Pair(p, z)}
  {
  }

  lemma AddLeaf(c: set<Node>, tree: set<T.Link>, reached: set<Node>, used: set<T.Link>, p: Node, z: Node)
    requires Grown(c, tree, reached, used) && p in reached && z !in reached && z in Neighbours(c, tree, p)
    ensures Grown(c, tree, reached + {z}, used + {Pair(p, z)})
  {
    var l := Pair(p, z);
    T.SpanMonotone(used, used + {l}, reached);
    T.SpanGrows(used + {l}, reached, l, z);
    hide T.Spans;
    assert l !in used;
  }

  /** The daemons a packet is passed on to have neither got it nor are being sent it. */
  lemma NewTargets(c: set<Node>, tree: set<T.Link>, o: Node, s: Flood, reached: set<Node>, used: set<T.Link>, h: Hop, z: Node)
    requires T.IsSpanningTree(tree, c) && Flooding(c, tree, o, s, reached, used) && h in s.flight
    requires z in Neighbours(c, tree, h.receiver) && z != h.sender
    ensures h.receiver in reached && (z != h.receiver ==> z !in reached)
  {
    hide T.IsSpanningTree;
    hide T.Spans;
    assert Coming(s, h.receiver);
    if z != h.receiver && z in reached {
      NoShortcut(tree, c, used, reached, h.receiver, z);
    }
  }

  /** What Deliver does, in terms of the tree. */
  function Arrive(s: Flood, h: Hop, zs: set<Node>): (r: Flood) {
    SendAll(Flood(s.received + multiset{h.receiver}, s.flight - multiset{h}, s.transmissions), h.receiver, zs)
  }

  lemma ArriveFlight(s: Flood, h: Hop, zs: set<Node>, k: Hop)
    requires h in s.flight && s.flight[h] == 1
    ensures k in Arrive(s, h, zs).flight <==> (k in s.flight && k != h) || (k.sender == h.receiver && k.receiver in zs)
    ensures Arrive(s, h, zs).flight[k] == (if k == h then 0 else s.flight[k]) + (if k in Hops(h.receiver, zs) then 1 else 0)
    ensures k in Hops(h.receiver, zs) <==> k.sender == h.receiver && k.receiver in zs
  {
  }

  lemma ArriveHas(o: Node, s: Flood, h: Hop, zs: set<Node>, x: Node)
    ensures Has(Arrive(s, h, zs), o, x) <==> Has(s, o, x) || x == h.receiver
    ensures Arrive(s, h, zs).received[x] == s.received[x] + if x == h.receiver then 1 else 0
  {
  }

  lemma ArriveComing(o: Node, s: Flood, reached: set<Node>, h: Hop, zs: set<Node>, x: Node)
    requires Once(o, s, reached) && h in s.flight && zs !! reached
    ensures Coming(Arrive(s, h, zs), x) <==> (Coming(s, x) && x != h.receiver) || x in zs
  {
    hide Arrive;
    assert Coming(s, h.receiver);
    if Coming(s, x) && x != h.receiver {
      var q :| Hop(q, x) in s.flight;
      ArriveFlight(s, h, zs, Hop(q, x));
    }
    ArriveFlight(s, h, zs, Hop(h.receiver, x));
    if q :| Hop(q, x) in Arrive(s, h, zs).flight {
      ArriveFlight(s, h, zs, Hop(q, x));
    }
  }

  lemma ArriveOnce(o: Node, s: Flood, reached: set<Node>, h: Hop, zs: set<Node>)
    requires Once(o, s, reached) && h in s.flight && zs !! reached
    ensures Once(o, Arrive(s, h, zs), reached + zs)
  {
    hide Arrive;
    var s' := Arrive(s, h, zs);
    forall x
      ensures x in reached + zs <==> Has(s', o, x) || Coming(s', x)
      ensures s'.received[x] <= 1
    {
      ArriveHas(o, s, h, zs, x);
      ArriveComing(o, s, reached, h, zs, x);
    }
    ArriveHas(o, s, h, zs, o);
    forall k | k in s'.flight
      ensures s'.flight[k] == 1 && !Has(s', o, k.receiver)
      ensures (k in s.flight && k != h && k.receiver in reached) || (k.sender == h.receiver && k.receiver in zs)
    {
      ArriveFlight(s, h, zs, k);
      ArriveHas(o, s, h, zs, k.receiver);
      assert k in s.flight ==> Coming(s, k.receiver);
    }
  }

  lemma StarHas(p: Node, zs: set<Node>, a: Node, b: Node)
    ensures Pair(a, b) in StarLinks(p, zs) <==> (a == p && b in zs) || (b == p && a in zs)
  {
    assert b in zs && a == p ==> Pair(p, b) in StarLinks(p, zs);
    assert a in zs && b == p ==> Pair(p, a) in StarLinks(p, zs);
  }

  lemma ArriveLeaf(c: set<Node>, tree: set<T.Link>, o: Node, s: Flood, reached: set<Node>, used: set<T.Link>, h: Hop, zs: set<Node>, k: Hop)
    requires Once(o, s, reached) && Leaves(c, tree, o, s, used) && T.AllInside(used, reached)
    requires h in s.flight && zs !! reached && k in Arrive(s, h, zs).flight
    ensures var used' := used + StarLinks(h.receiver, zs);
            Pair(k.receiver, k.sender) in used' && forall q :: Pair(k.receiver, q) in used' ==> q == k.sender
  {
    hide StarLinks;
    ArriveFlight(s, h, zs, k);
    hide Arrive;
    assert Coming(s, h.receiver);
    assert k in s.flight ==> Coming(s, k.receiver);
    StarHas(h.receiver, zs, k.receiver, k.sender);
    var used' := used + StarLinks(h.receiver, zs);
    forall q | Pair(k.receiver, q) in used'
      ensures q == k.sender
    {
      StarHas(h.receiver, zs, k.receiver, q);
    }
  }

  lemma ArriveLeaves(c: set<Node>, tree: set<T.Link>, o: Node, s: Flood, reached: set<Node>, used: set<T.Link>, h: Hop, zs: set<Node>)
    requires Once(o, s, reached) && Leaves(c, tree, o, s, used) && T.AllInside(used, reached)
    requires h in s.flight && zs !! reached && zs == Neighbours(c, tree, h.receiver) - {h.sender}
    ensures Leaves(c, tree, o, Arrive(s, h, zs), used + StarLinks(h.receiver, zs))
  {
    hide StarLinks;
    hide Arrive;
    var s' := Arrive(s, h, zs);
    var used' := used + StarLinks(h.receiver, zs);
    forall k | k in s'.flight
      ensures Pair(k.receiver, k.sender) in used' && forall q :: Pair(k.receiver, q) in used' ==> q == k.sender
    {
      ArriveLeaf(c, tree, o, s, reached, used, h, zs, k);
    }
    hide Once;
    forall x, q | Has(s', o, x) && q in Neighbours(c, tree, x)
      ensures Pair(x, q) in used'
    {
      ArriveHas(o, s, h, zs, x);
      StarHas(h.receiver, zs, x, q);
    }
  }

  /** A delivery keeps everything: in particular no daemon is ever sent the packet twice. */
  lemma DeliverKeeps(net: Network, o: Node, s: Flood, reached: set<Node>, used: set<T.Link>, h: Hop)
    returns (reached': set<Node>, used': set<T.Link>)
    requires Converged(net) && o in net.c && Flooding(net.c, Tree(net), o, s, reached, used) && h in s.flight
    ensures h.receiver in net.views && h.sender in net.views[h.receiver].info
    ensures Flooding(net.c, Tree(net), o, Deliver(net, s, h), reached', used')
  {
    hide IsComponent;
    hide SoundRoutes;
    hide OptimalRoutes;
    hide NoIndirect;
    hide WellFormed;
    hide T.IsSpanningTree;
    hide MstTree;
    hide Once;
    hide Leaves;
    hide Pair;
    var c, tree, p := net.c, Tree(net), h.receiver;
    TreeSpans(net, o);
    InFlight(c, tree, o, s, reached, used, h);
    TargetsAre(net, p, h.sender);
    var zs := Neighbours(c, tree, p) - {h.sender};
    assert Deliver(net, s, h) == Arrive(s, h, zs);
    hide Arrive;
    forall z | z in zs
      ensures z !in reached
    {
      NewTargets(c, tree, o, s, reached, used, h, z);
      NoLoop(net, o, z);
    }
    reached', used' := reached + zs, used + StarLinks(p, zs);
    Star(c, tree, reached, used, p, zs);
    ArriveOnce(o, s, reached, h, zs);
    ArriveLeaves(c, tree, o, s, reached, used, h, zs);
  }

  lemma InFlight(c: set<Node>, tree: set<T.Link>, o: Node, s: Flood, reached: set<Node>, used: set<T.Link>, h: Hop)
    requires Flooding(c, tree, o, s, reached, used) && h in s.flight
    ensures h.receiver in reached && Pair(h.receiver, h.sender) in used
  {
    assert Coming(s, h.receiver);
  }

  lemma NoLoop(net: Network, o: Node, z: Node)
    requires Converged(net) && o in net.c
    ensures Pair(z, z) !in Tree(net)
  {
    hide MstTree;
    TreeSpans(net, o);
    hide IsComponent;
    if Pair(z, z) in Tree(net) {
      var e := LinkEdge(net.g, net.c, z, z);
      assert false;
    }
  }

  lemma StartOnce(o: Node, zs: set<Node>)
    requires o !in zs
    ensures Once(o, SendAll(Flood(multiset{}, multiset{}, 0), o, zs), {o} + zs)
  {
    var s := SendAll(Flood(multiset{}, multiset{}, 0), o, zs);
    forall x
      ensures x in {o} + zs <==> Has(s, o, x) || Coming(s, x)
    {
      if x in zs {
        assert Hop(o, x) in s.flight;
      }
    }
  }

  lemma StartLeaves(c: set<Node>, tree: set<T.Link>, o: Node, zs: set<Node>)
    requires zs == Neighbours(c, tree, o) && o !in zs
    ensures Leaves(c, tree, o, SendAll(Flood(multiset{}, multiset{}, 0), o, zs), {} + StarLinks(o, zs))
  {
    hide StarLinks;
    var s := SendAll(Flood(multiset{}, multiset{}, 0), o, zs);
    forall h | h in s.flight
      ensures Pair(h.receiver, h.sender) in StarLinks(o, zs)
      ensures forall q :: Pair(h.receiver, q) in StarLinks(o, zs) ==> q == h.sender
    {
      StarHas(o, zs, h.receiver, h.sender);
      forall q | Pair(h.receiver, q) in StarLinks(o, zs)
        ensures q == h.sender
      {
        StarHas(o, zs, h.receiver, q);
      }
    }
    forall q | q in zs
      ensures Pair(o, q) in StarLinks(o, zs)
    {
      StarHas(o, zs, o, q);
    }
    assert {} + StarLinks(o, zs) == StarLinks(o, zs);
  }

  lemma OriginFloods(net: Network, o: Node) returns (reached: set<Node>, used: set<T.Link>)
    requires Converged(net) && o in net.c
    ensures o in net.views && o in net.views[o].info
    ensures Flooding(net.c, Tree(net), o, Origin(net, o), reached, used)
  {
    hide IsComponent;
    hide SoundRoutes;
    hide OptimalRoutes;
    hide NoIndirect;
    hide WellFormed;
    hide MstTree;
    hide Once;
    hide Leaves;
    var c, tree := net.c, Tree(net);
    TargetsAre(net, o, o);
    NoLoop(net, o, o);
    var zs := Neighbours(c, tree, o);
    assert zs - {o} == zs;
    T.SingletonSpans({}, o);
    Star(c, tree, {o}, {}, o, zs);
    StartOnce(o, zs);
    StartLeaves(c, tree, o, zs);
    reached, used := {o} + zs, {} + StarLinks(o, zs);
  }

  /** Attempted deliveries in any order; a hop that is not in flight changes nothing. */
  function FloodRun(net: Network, o: Node, hs: seq<Hop>): (s: Flood)
    requires o in net.views && o in net.views[o].info
  {
    if hs == [] then Origin(net, o)
    else
      var s, h := FloodRun(net, o, hs[..|hs| - 1]), hs[|hs| - 1];
      if h in s.flight && h.receiver in net.views && h.sender in net.views[h.receiver].info then Deliver(net, s, h) else s
  }

  lemma {:induction false} RunFloods(net: Network, o: Node, hs: seq<Hop>) returns (reached: set<Node>, used: set<T.Link>)
    requires Converged(net) && o in net.c
    ensures o in net.views && o in net.views[o].info
    ensures Flooding(net.c, Tree(net), o, FloodRun(net, o, hs), reached, used)
    decreases |hs|
  {
    hide Flooding;
    hide Deliver;
    hide Origin;
    hide IsComponent;
    hide SoundRoutes;
    hide OptimalRoutes;
    hide WellFormed;
    hide MstTree;
    reached, used := OriginFloods(net, o);
    if hs != [] {
      var h := hs[|hs| - 1];
      reached, used := RunFloods(net, o, hs[..|hs| - 1]);
      var s := FloodRun(net, o, hs[..|hs| - 1]);
      if h in s.flight {
        reached, used := DeliverKeeps(net, o, s, reached, used, h);
      }
    }
  }

  lemma {:induction false} HopsCount(p: Node, zs: set<Node>)
    ensures |Hops(p, zs)| == |zs|
    decreases |zs|
  {
    if zs != {} {
      var z :| z in zs;
      HopsCount(p, zs - {z});
      assert Hops(p, zs) == Hops(p, zs - {z}) + {Hop(p, z)};
    }
  }

  /** Every transmission is either in flight or has been delivered. */
  lemma {:induction false} Conserved(net: Network, o: Node, hs: seq<Hop>)
    requires o in net.views && o in net.views[o].info
    ensures var s := FloodRun(net, o, hs);
            |s.received| + |s.flight| == s.transmissions
    decreases |hs|
  {
    hide Targets;
    hide WellFormed;
    hide Hops;
    if hs == [] {
      HopsCount(o, Targets(net, o, o));
    } else {
      Conserved(net, o, hs[..|hs| - 1]);
      var h := hs[|hs| - 1];
      if h.receiver in net.views && h.sender in net.views[h.receiver].info {
        HopsCount(h.receiver, Targets(net, h.receiver, h.sender));
      }
    }
  }

  /** With nothing in flight everybody has been reached. */
  lemma AllReached(c: set<Node>, tree: set<T.Link>, o: Node, s: Flood, reached: set<Node>, used: set<T.Link>)
    requires T.IsSpanningTree(tree, c) && Flooding(c, tree, o, s, reached, used) && s.flight == multiset{}
    requires forall l <- tree :: l.lo < l.hi
    ensures reached == c
  {
    assert Has(s, o, o);
    forall l | l in tree && T.Inside(l, c)
      ensures !T.Crosses(l, reached)
    {
      if l.lo in reached { Passed(c, tree, o, s, reached, used, l.lo, l.hi); }
      if l.hi in reached { Passed(c, tree, o, s, reached, used, l.hi, l.lo); }
    }
    assert !T.CutCrossed(tree, c, reached);
  }

  lemma Passed(c: set<Node>, tree: set<T.Link>, o: Node, s: Flood, reached: set<Node>, used: set<T.Link>, x: Node, q: Node)
    requires Flooding(c, tree, o, s, reached, used) && s.flight == multiset{}
    requires x in reached && q in c && x != q && Pair(x, q) in tree
    ensures q in reached
  {
    assert !Coming(s, x);
    assert q in Neighbours(c, tree, x);
    assert Pair(x, q) in used;
  }

  /** Main result: whatever the order of deliveries, nobody gets the packet twice, the
      origin never gets it back, there are never more than |c| - 1 transmissions, and when
      nothing is in flight everybody else got it exactly once, for |c| - 1 transmissions.
      As each delivery takes one transmission out of flight, the flood stops. */
  lemma ExactlyOnce(net: Network, o: Node, hs: seq<Hop>)
    requires Settled(net, o)
    ensures o in net.views && o in net.views[o].info
    ensures var s := FloodRun(net, o, hs);
            && s.received[o] == 0 && (forall x :: s.received[x] <= 1)
            && |s.received| + |s.flight| == s.transmissions <= |net.c| - 1
            && (s.flight == multiset{} ==> s.transmissions == |net.c| - 1
                                           && forall x | x in net.c && x != o :: s.received[x] == 1)
  {
    hide FloodRun;
    hide IsComponent;
    hide SoundRoutes;
    hide OptimalRoutes;
    hide WellFormed;
    hide MstTree;
    hide T.IsSpanningTree;
    hide T.Spans;
    Settles(net, o);
    hide Settled;
    var reached, used := RunFloods(net, o, hs);
    var s := FloodRun(net, o, hs);
    Conserved(net, o, hs);
    T.Cardinality(reached, net.c);
    TreeSpans(net, o);
    if s.flight == multiset{} {
      AllReached(net.c, Tree(net), o, s, reached, used);
      forall x | x in net.c && x != o
        ensures s.received[x] == 1
      {
        assert !Coming(s, x);
      }
    }
  }
}