/** The re-queueing breadth-first search of sssp_bfs: one scanned edge, and what it keeps. */
module Sssp {
  import opened MeshGraph

  /** The fields of node_t that the search writes. */
  datatype Info = Info(visited: bool, indirect: bool, distance: int, weighted: int, nexthop: Node, via: Node)

  /** Search state: node fields and the work list, its head being examined. */
  datatype Search = Search(info: map<Node, Info>, todo: seq<Node>)

  const UNSEEN: Info := Info(false, true, -1, 0, 0, 0)

  function Begin(g: Graph, me: Node): (s: Search)
    requires me in g.out
  {
    Search((map n | n in g.out :: UNSEEN)[me := Info(true, false, 0, 0, me, me)], [me])
  }

  /** `to` is worth updating through edge e of node n. */
  predicate Improves(n: Info, e: Edge, to: Info) {
    || !to.visited
    || (to.indirect && !(n.indirect || e.indirect))
    || Cheaper(n, e, to)
  }

  predicate Cheaper(n: Info, e: Edge, to: Info) {
    to.distance == n.distance + 1 && to.weighted > n.weighted + e.weight
  }

  function Updated(me: Node, n: Info, e: Edge, to: Info): (r: Info) {
    var indirect := n.indirect || e.indirect;
    var better := !to.visited || Cheaper(n, e, to);
    Info(true, indirect, n.distance + 1,
         if better then n.weighted + e.weight else to.weighted,
         if !better then to.nexthop else if n.nexthop == me then e.to else n.nexthop,
         if indirect then n.via else e.to)
  }

  /** The body of the inner loop for one edge of the node at the head of the list. */
  function Scan(g: Graph, me: Node, s: Search, e: Edge): (r: Search)
    requires e.from in s.info && e.to in s.info
  {
    if !HasReverse(g, e) || e.to == me || !Improves(s.info[e.from], e, s.info[e.to]) then s
    else Search(s.info[e.to := Updated(me, s.info[e.from], e, s.info[e.to])], s.todo + [e.to])
  }

  // What the fields of a visited node mean, whatever edges carry OPTION_INDIRECT.

  /** A walk to x that starts by going to its nexthop and weighs its weighted distance. */
  ghost predicate Routed(g: Graph, me: Node, x: Node, i: Info, p: seq<Edge>) {
    IsWalk(g, me, p, x) && Weight(p) == i.weighted && (if p == [] then x == me && i.nexthop == me else p[0].to == i.nexthop)
  }

  /** A walk to x of its distance whose first k edges lead to its via without using any
      OPTION_INDIRECT edge. An indirect node has its first such edge right behind via; a
      direct one is its own via. */
  ghost predicate Relayed(g: Graph, me: Node, x: Node, i: Info, p: seq<Edge>, k: nat) {
    && IsWalk(g, me, p, x) && |p| == i.distance && k <= |p|
    && IsWalk(g, me, p[..k], i.via) && AllDirect(p[..k])
    && (i.indirect <==> k < |p|) && (k < |p| ==> p[k].indirect) && (!i.indirect ==> i.via == x)
  }

  ghost predicate Sound(g: Graph, me: Node, x: Node, i: Info) {
    && (exists p :: Routed(g, me, x, i, p))
    && (exists p, k :: Relayed(g, me, x, i, p, k))
  }

  /** Without OPTION_INDIRECT one walk witnesses distance, weight and nexthop together. */
  ghost predicate Exact(g: Graph, me: Node, x: Node, i: Info) {
    !i.indirect && exists p :: Routed(g, me, x, i, p) && |p| == i.distance
  }

  lemma RoutedSnoc(g: Graph, me: Node, n: Info, e: Edge, to: Info, p: seq<Edge>)
    requires WellFormed(g) && Usable(g, e) && e.to != me
    requires Routed(g, me, e.from, n, p) && (!to.visited || Cheaper(n, e, to))
    ensures Routed(g, me, e.to, Updated(me, n, e, to), p + [e])
  {
    hide WellFormed;
    hide Usable;
    hide IsWalk;
    hide Weight;
    WalkSnoc(g, me, p, e);
    if p == [] {
      NoWalk(g, me, e.from);
    } else {
      WalkStart(g, me, p, e.from);
      NotBack(g, p[0]);
      assert (p + [e])[0] == p[0];
    }
  }

  lemma NotBack(g: Graph, e: Edge)
    requires WellFormed(g) && Usable(g, e)
    ensures e.to != e.from
  {
  }

  lemma NoWalk(g: Graph, a: Node, b: Node)
    requires IsWalk(g, a, [], b)
    ensures a == b
  {
  }

  lemma UpdateSound(g: Graph, me: Node, n: Info, e: Edge, to: Info)
    requires WellFormed(g) && Usable(g, e) && e.to != me
    requires Sound(g, me, e.from, n) && (to.visited ==> Sound(g, me, e.to, to))
    ensures Sound(g, me, e.to, Updated(me, n, e, to))
  {
    hide IsWalk;
    hide WellFormed;
    hide Usable;
    hide Weight;
    var r := Updated(me, n, e, to);
    if !to.visited || Cheaper(n, e, to) {
      var p :| Routed(g, me, e.from, n, p);
      RoutedSnoc(g, me, n, e, to, p);
    } else {
      var p :| Routed(g, me, e.to, to, p);
      assert Routed(g, me, e.to, r, p);
    }
    hide Routed;
    var q, k :| Relayed(g, me, e.from, n, q, k);
    RelayedSnoc(g, me, n, e, to, q, k);
  }

  /** One more edge: via stays behind the first OPTION_INDIRECT edge, or moves on. */
  lemma RelayedSnoc(g: Graph, me: Node, n: Info, e: Edge, to: Info, q: seq<Edge>, k: nat)
    requires Usable(g, e) && Relayed(g, me, e.from, n, q, k)
    ensures Relayed(g, me, e.to, Updated(me, n, e, to), q + [e], if n.indirect || e.indirect then k else |q| + 1)
  {
    hide IsWalk;
    hide Usable;
    var p := q + [e];
    WalkSnoc(g, me, q, e);
    assert p[..k] == q[..k];
    assert q[..|q|] == q && p[..|p|] == p;
  }

  lemma UpdateExact(g: Graph, me: Node, n: Info, e: Edge, to: Info)
    requires WellFormed(g) && Usable(g, e) && e.to != me && !e.indirect
    requires Exact(g, me, e.from, n) && (!to.visited || Cheaper(n, e, to))
    ensures Exact(g, me, e.to, Updated(me, n, e, to))
  {
    hide Routed;
    hide WellFormed;
    hide Usable;
    var p :| Routed(g, me, e.from, n, p) && |p| == n.distance;
    RoutedSnoc(g, me, n, e, to, p);
    assert |p + [e]| == n.distance + 1;
  }

  // The loop invariant.

  predicate Seen(s: Search, x: Node) { x in s.info && s.info[x].visited }

  ghost predicate Basic(g: Graph, me: Node, s: Search) {
    && WellFormed(g)
    && me in g.out
    && s.info.Keys == g.out.Keys
    && s.info[me] == Info(true, false, 0, 0, me, me)
    && (forall x <- s.todo :: Seen(s, x))
    && (forall x | Seen(s, x) :: Sound(g, me, x, s.info[x]))
  }

  predicate Followed(g: Graph, s: Search, e: Edge) { HasReverse(g, e) ==> Seen(s, e.to) }

  /** Every edge of a node that is not waiting has been followed. */
  ghost predicate AllFollowed(g: Graph, s: Search) {
    forall x, e | Seen(s, x) && x !in s.todo && x in g.out && e in g.out[x] :: Followed(g, s, e)
  }

  /** Edge e offers its end nothing better than what it has. */
  ghost predicate Relaxed(g: Graph, s: Search, e: Edge) {
    HasReverse(g, e) && Seen(s, e.from) ==>
      && Seen(s, e.to)
      && var n, to := s.info[e.from], s.info[e.to];
         to.distance <= n.distance + 1 && (to.distance == n.distance + 1 ==> to.weighted <= n.weighted + e.weight)
  }

  ghost predicate AllRelaxed(g: Graph, s: Search) {
    forall x, e | Seen(s, x) && x !in s.todo && x in g.out && e in g.out[x] :: Relaxed(g, s, e)
  }

  /** Without OPTION_INDIRECT the list is sorted by distance and nobody is further away
      than one hop beyond its head. */
  ghost predicate Levelled(g: Graph, me: Node, s: Search) {
    && (forall x | Seen(s, x) :: Exact(g, me, x, s.info[x]))
    && (forall x <- s.todo :: x in s.info)
    && (forall i, j | 0 <= i < j < |s.todo| :: s.info[s.todo[i]].distance <= s.info[s.todo[j]].distance)
    && (s.todo != [] ==> forall x | Seen(s, x) :: s.info[x].distance <= s.info[s.todo[0]].distance + 1)
  }

  /** Holds between iterations of the outer loop. */
  ghost predicate Inv(g: Graph, me: Node, s: Search) {
    && Basic(g, me, s)
    && AllFollowed(g, s)
    && (NoIndirect(g) ==> Levelled(g, me, s) && AllRelaxed(g, s))
  }

  /** Holds when the first k edges of the head of the list have been scanned. */
  ghost predicate Scanned(g: Graph, me: Node, s: Search, k: nat) {
    && Inv(g, me, s)
    && s.todo != [] && s.todo[0] in g.out
    && k <= |g.out[s.todo[0]]|
    && (forall e <- g.out[s.todo[0]][..k] :: Followed(g, s, e))
    && (NoIndirect(g) ==> forall e <- g.out[s.todo[0]][..k] :: Relaxed(g, s, e))
  }

  lemma BeginInv(g: Graph, me: Node)
    requires WellFormed(g) && me in g.out
    ensures Inv(g, me, Begin(g, me))
  {
    hide WellFormed;
    var i := Info(true, false, 0, 0, me, me);
    var none: seq<Edge> := [];
    assert none[..0] == none;
    assert IsWalk(g, me, none, me) && AllDirect(none) && Routed(g, me, me, i, none) && Relayed(g, me, me, i, none, 0);
    var s := Begin(g, me);
    assert forall x | Seen(s, x) :: x == me;
  }

  /** The edge under examination, and what is known about its two ends. */
  ghost predicate AtEdge(g: Graph, me: Node, s: Search, e: Edge) {
    s.todo != [] && e.from == s.todo[0] && e.from in g.out && e in g.out[e.from] && e.to in g.out
  }

  lemma ScanBasic(g: Graph, me: Node, s: Search, e: Edge)
    requires Basic(g, me, s) && AtEdge(g, me, s, e)
    ensures Basic(g, me, Scan(g, me, s, e)) && Followed(g, Scan(g, me, s, e), e)
  {
    hide Sound;
    hide WellFormed;
    var s' := Scan(g, me, s, e);
    if s' != s {
      UpdateSound(g, me, s.info[e.from], e, s.info[e.to]);
    }
  }

  /** Nothing seen is forgotten, nothing waiting is dropped, and only the end of the
      edge changes. */
  lemma ScanGrows(g: Graph, me: Node, s: Search, e: Edge)
    requires Basic(g, me, s) && AtEdge(g, me, s, e)
    ensures var s' := Scan(g, me, s, e);
            && s.todo <= s'.todo && s'.info.Keys == s.info.Keys
            && (forall x | Seen(s, x) :: Seen(s', x))
            && (forall x | x in s.info && x != e.to :: s'.info[x] == s.info[x])
            && (s'.info != s.info ==> e.to in s'.todo)
  {
    hide Sound;
    hide WellFormed;
  }

  lemma ScanFollowed(g: Graph, me: Node, s: Search, e: Edge)
    requires Basic(g, me, s) && AtEdge(g, me, s, e) && AllFollowed(g, s)
    ensures AllFollowed(g, Scan(g, me, s, e))
  {
    hide Sound;
    hide WellFormed;
    hide HasReverse;
    ScanGrows(g, me, s, e);
    hide Scan;
    var s' := Scan(g, me, s, e);
    forall x, f | Seen(s', x) && x !in s'.todo && x in g.out && f in g.out[x]
      ensures Followed(g, s', f)
    {
      assert x !in s.todo;
      if x != e.to {
        assert Seen(s, x) && Followed(g, s, f);
      } else {
        assert s'.info == s.info;
        assert Seen(s, x) && Followed(g, s, f);
      }
    }
  }

  // Without OPTION_INDIRECT.

  lemma ScanLevelled(g: Graph, me: Node, s: Search, e: Edge)
    requires NoIndirect(g) && Basic(g, me, s) && AtEdge(g, me, s, e) && Levelled(g, me, s)
    ensures Levelled(g, me, Scan(g, me, s, e))
  {
    hide Sound;
    hide WellFormed;
    hide Routed;
    var s' := Scan(g, me, s, e);
    if s' != s {
      var n, to := s.info[e.from], s.info[e.to];
      assert !e.indirect && Exact(g, me, e.from, n);
      assert to.visited ==> Exact(g, me, e.to, to);
      UpdateExact(g, me, n, e, to);
      hide Exact;
      assert s'.info[e.to].distance == n.distance + 1;
      assert to.visited ==> to.distance == n.distance + 1;
      assert e.from != e.to by { EdgeFrom(g, e.from, e); }
    }
  }

  /** All visited nodes are direct, so only a new or a cheaper end is updated. */
  lemma DirectUpdate(g: Graph, me: Node, s: Search, e: Edge)
    requires NoIndirect(g) && Basic(g, me, s) && AtEdge(g, me, s, e) && Levelled(g, me, s)
    ensures var s' := Scan(g, me, s, e);
            var n, to, to' := s.info[e.from], s.info[e.to], s'.info[e.to];
            && n.visited && !n.indirect && n.distance >= 0 && !e.indirect && e.from != e.to
            && (s' != s ==> to'.visited && to'.distance == n.distance + 1 && to'.weighted == n.weighted + e.weight
                            && (to.visited ==> Cheaper(n, e, to)))
  {
    hide Sound;
    hide Routed;
    hide IsWalk;
    EdgeFrom(g, e.from, e);
    hide WellFormed;
    assert Exact(g, me, e.from, s.info[e.from]);
    assert Seen(s, e.to) ==> Exact(g, me, e.to, s.info[e.to]);
  }

  lemma ScanRelaxes(g: Graph, me: Node, s: Search, e: Edge)
    requires NoIndirect(g) && Basic(g, me, s) && AtEdge(g, me, s, e) && Levelled(g, me, s)
    ensures Relaxed(g, Scan(g, me, s, e), e)
  {
    hide Sound;
    hide Exact;
    hide WellFormed;
    hide HasReverse;
    DirectUpdate(g, me, s, e);
  }

  lemma StaysRelaxed(g: Graph, me: Node, s: Search, e: Edge, f: Edge)
    requires NoIndirect(g) && Basic(g, me, s) && AtEdge(g, me, s, e) && Levelled(g, me, s)
    requires Relaxed(g, s, f) && Seen(s, f.from) && (f.from != e.to || Scan(g, me, s, e) == s)
    ensures Relaxed(g, Scan(g, me, s, e), f)
  {
    hide Sound;
    hide Exact;
    hide WellFormed;
    hide HasReverse;
    DirectUpdate(g, me, s, e);
    ScanGrows(g, me, s, e);
  }

  lemma ScanRelaxed(g: Graph, me: Node, s: Search, e: Edge)
    requires NoIndirect(g) && Basic(g, me, s) && AtEdge(g, me, s, e) && Levelled(g, me, s) && AllRelaxed(g, s)
    ensures AllRelaxed(g, Scan(g, me, s, e))
  {
    hide Sound;
    hide WellFormed;
    hide HasReverse;
    hide Relaxed;
    var s' := Scan(g, me, s, e);
    ScanGrows(g, me, s, e);
    forall x, f | Seen(s', x) && x !in s'.todo && x in g.out && f in g.out[x]
      ensures Relaxed(g, s', f)
    {
      if s' != s {
        assert e.to in s'.todo;
      }
      assert x !in s.todo && Seen(s, x) && f.from == x by { EdgeFrom(g, x, f); }
      StaysRelaxed(g, me, s, e, f);
    }
  }

  lemma EdgeFrom(g: Graph, x: Node, f: Edge)
    requires WellFormed(g) && x in g.out && f in g.out[x]
    ensures f.from == x && f.to in g.out && f.to != x
  {
  }

  lemma ScanKeeps(g: Graph, me: Node, s: Search, k: nat)
    requires Scanned(g, me, s, k) && k < |g.out[s.todo[0]]|
    ensures var e := g.out[s.todo[0]][k];
            AtEdge(g, me, s, e) && Scanned(g, me, Scan(g, me, s, e), k + 1)
  {
    hide Sound;
    hide HasReverse;
    hide Relaxed;
    hide Levelled;
    hide NoIndirect;
    var n := s.todo[0];
    var es := g.out[n];
    var e := es[k];
    EdgeFrom(g, n, e);
    hide WellFormed;
    ScanBasic(g, me, s, e);
    ScanGrows(g, me, s, e);
    ScanFollowed(g, me, s, e);
    var s' := Scan(g, me, s, e);
    assert es[..k + 1] == es[..k] + [e];
    if NoIndirect(g) {
      ScanLevelled(g, me, s, e);
      ScanRelaxes(g, me, s, e);
      ScanRelaxed(g, me, s, e);
      forall f <- es[..k]
        ensures Relaxed(g, s', f)
      {
        EdgeFrom(g, n, f);
        StaysRelaxed(g, me, s, e, f);
      }
    }
    hide Scan;
    assert s'.todo[0] == n;
  }

  /** The examined node leaves the list. */
  lemma DropHead(g: Graph, me: Node, s: Search)
    requires s.todo != [] && s.todo[0] in g.out && Scanned(g, me, s, |g.out[s.todo[0]]|)
    ensures Inv(g, me, s.(todo := s.todo[1..]))
  {
    hide Sound;
    hide HasReverse;
    hide WellFormed;
    hide Exact;
    hide NoIndirect;
    var n := s.todo[0];
    var es := g.out[n];
    assert es[..|es|] == es;
    var s' := s.(todo := s.todo[1..]);
    assert forall x | x !in s'.todo && x != n :: x !in s.todo;
    forall x, e | Seen(s', x) && x !in s'.todo && x in g.out && e in g.out[x]
      ensures Followed(g, s', e)
    {
      assert Followed(g, s, e);
    }
    forall x | Seen(s', x)
      ensures Sound(g, me, x, s'.info[x])
    {
      assert Seen(s, x);
    }
    assert forall x <- s'.todo :: x in s.todo && Seen(s, x);
    if NoIndirect(g) {
      assert s'.todo != [] ==> s.info[n].distance <= s.info[s'.todo[0]].distance;
      forall x, e | Seen(s', x) && x !in s'.todo && x in g.out && e in g.out[x]
        ensures Relaxed(g, s', e)
      {
        assert Relaxed(g, s, e);
      }
    }
  }

  // What holds when the list is empty.

  lemma {:induction false} ReachedSeen(g: Graph, me: Node, s: Search, p: seq<Edge>, x: Node)
    requires Basic(g, me, s) && AllFollowed(g, s) && s.todo == [] && IsWalk(g, me, p, x)
    ensures Seen(s, x)
    decreases |p|
  {
    hide Sound;
    if p != [] {
      var e := p[|p| - 1];
      ReachedSeen(g, me, s, p[..|p| - 1], e.from);
      assert Followed(g, s, e);
    }
  }

  /** Any walk is at least as long as the recorded distance, and no lighter when equally long. */
  lemma {:induction false} NoBetterWalk(g: Graph, me: Node, s: Search, p: seq<Edge>, x: Node)
    requires Basic(g, me, s) && AllRelaxed(g, s) && s.todo == [] && IsWalk(g, me, p, x)
    ensures Seen(s, x) && s.info[x].distance <= |p|
    ensures s.info[x].distance == |p| ==> s.info[x].weighted <= Weight(p)
    decreases |p|
  {
    hide Sound;
    if p != [] {
      var e := p[|p| - 1];
      NoBetterWalk(g, me, s, p[..|p| - 1], e.from);
      assert Relaxed(g, s, e);
    }
  }

  /** p is a walk of fewest hops, and among those of least weight. */
  ghost predicate Optimal(g: Graph, me: Node, p: seq<Edge>, x: Node) {
    && IsWalk(g, me, p, x)
    && (forall q | IsWalk(g, me, q, x) :: |p| <= |q| && (|p| == |q| ==> Weight(p) <= Weight(q)))
  }

  /** The node fields after the search, with arbitrary OPTION_INDIRECT edges. */
  ghost predicate SoundRoutes(g: Graph, me: Node, info: map<Node, Info>) {
    && info.Keys == g.out.Keys
    && (forall x <- info :: info[x].visited <==> Reachable(g, me, x))
    && (forall x <- info | info[x].visited :: Sound(g, me, x, info[x]))
  }

  /** The node fields after the search when no edge carries OPTION_INDIRECT. */
  ghost predicate OptimalRoutes(g: Graph, me: Node, info: map<Node, Info>) {
    forall x <- info | info[x].visited ::
      exists p :: Optimal(g, me, p, x) && |p| == info[x].distance && Routed(g, me, x, info[x], p)
  }

  lemma SearchDone(g: Graph, me: Node, s: Search)
    requires Inv(g, me, s) && s.todo == []
    ensures SoundRoutes(g, me, s.info)
    ensures NoIndirect(g) ==> OptimalRoutes(g, me, s.info)
  {
    forall x <- s.info
      ensures s.info[x].visited <==> Reachable(g, me, x)
    {
      SeenIffReachable(g, me, s, x);
    }
    if NoIndirect(g) {
      forall x <- s.info | s.info[x].visited
        ensures exists p :: Optimal(g, me, p, x) && |p| == s.info[x].distance && Routed(g, me, x, s.info[x], p)
      {
        OptimalRoute(g, me, s, x);
      }
    }
  }

  lemma SeenIffReachable(g: Graph, me: Node, s: Search, x: Node)
    requires Basic(g, me, s) && AllFollowed(g, s) && s.todo == [] && x in s.info
    ensures s.info[x].visited <==> Reachable(g, me, x)
  {
    hide WellFormed;
    hide AllFollowed;
    if s.info[x].visited {
      assert Sound(g, me, x, s.info[x]);
    }
    forall p | IsWalk(g, me, p, x)
      ensures Seen(s, x)
    {
      ReachedSeen(g, me, s, p, x);
    }
  }

  lemma OptimalRoute(g: Graph, me: Node, s: Search, x: Node)
    requires Basic(g, me, s) && AllRelaxed(g, s) && Levelled(g, me, s) && s.todo == [] && Seen(s, x)
    ensures exists p :: Optimal(g, me, p, x) && |p| == s.info[x].distance && Routed(g, me, x, s.info[x], p)
  {
    hide WellFormed;
    hide AllRelaxed;
    hide Sound;
    hide IsWalk;
    assert Exact(g, me, x, s.info[x]);
    var p :| Routed(g, me, x, s.info[x], p) && |p| == s.info[x].distance;
    forall q | IsWalk(g, me, q, x)
      ensures |p| <= |q| && (|p| == |q| ==> Weight(p) <= Weight(q))
    {
      NoBetterWalk(g, me, s, q, x);
    }
    assert Optimal(g, me, p, x);
  }
}