/** Why sssp_bfs stops although it re-queues nodes, if no weight is negative or no edge
    carries OPTION_INDIRECT. */
module SsspTermination {
  import opened MeshGraph
  import opened Sssp

  /** The sum of f over the listed nodes. */
  ghost function Total(f: Info -> int, info: map<Node, Info>, ns: seq<Node>): (r: int)
    requires forall n <- ns :: n in info
  {
    if ns == [] then 0 else f(info[ns[0]]) + Total(f, info, ns[1..])
  }

  lemma {:induction false} TotalUpdate(f: Info -> int, info: map<Node, Info>, x: Node, r: Info, ns: seq<Node>)
    requires forall n <- ns :: n in info
    requires forall i, j :: 0 <= i < j < |ns| ==> ns[i] != ns[j]
    requires x in info
    ensures Total(f, info[x := r], ns) == Total(f, info, ns) + if x in ns then f(r) - f(info[x]) else 0
  {
    if ns != [] {
      TotalUpdate(f, info, x, r, ns[1..]);
      assert x in ns <==> x == ns[0] || x in ns[1..];
    }
  }

  lemma {:induction false} TotalOrder(f: Info -> int, g: Info -> int, info: map<Node, Info>, ns: seq<Node>)
    requires forall n <- ns :: n in info && f(info[n]) <= g(info[n])
    ensures Total(f, info, ns) <= Total(g, info, ns)
    ensures (exists n <- ns :: f(info[n]) < g(info[n])) ==> Total(f, info, ns) < Total(g, info, ns)
  {
    if ns != [] {
      TotalOrder(f, g, info, ns[1..]);
    }
  }

  lemma {:induction false} TotalNonNegative(f: Info -> int, info: map<Node, Info>, ns: seq<Node>)
    requires forall n <- ns :: n in info && f(info[n]) >= 0
    ensures Total(f, info, ns) >= 0
  {
    if ns != [] {
      TotalNonNegative(f, info, ns[1..]);
    }
  }

  // Non-negative weights: (unvisited nodes, weighted distances, indirect nodes).

  const Unvisited: Info -> int := (i: Info) => if i.visited then 0 else 1
  const Weighted: Info -> int := (i: Info) => if i.visited then i.weighted else 0
  const Indirect: Info -> int := (i: Info) => if i.visited && i.indirect then 1 else 0

  ghost predicate Less(s: Search, t: Search, ns: seq<Node>)
    requires forall n <- ns :: n in s.info && n in t.info
  {
    var u, u' := Total(Unvisited, s.info, ns), Total(Unvisited, t.info, ns);
    var w, w' := Total(Weighted, s.info, ns), Total(Weighted, t.info, ns);
    u < u' || (u == u' && (w < w' || (w == w' && Total(Indirect, s.info, ns) < Total(Indirect, t.info, ns))))
  }

  lemma ScanLess(g: Graph, me: Node, s: Search, e: Edge)
    requires Basic(g, me, s) && AtEdge(g, me, s, e) && Scan(g, me, s, e) != s
    ensures forall n <- g.nodes :: n in s.info && n in Scan(g, me, s, e).info
    ensures Less(Scan(g, me, s, e), s, g.nodes)
  {
    var n, to := s.info[e.from], s.info[e.to];
    var r := Updated(me, n, e, to);
    assert e.to in g.nodes;
    TotalUpdate(Unvisited, s.info, e.to, r, g.nodes);
    TotalUpdate(Weighted, s.info, e.to, r, g.nodes);
    TotalUpdate(Indirect, s.info, e.to, r, g.nodes);
  }

  lemma {:induction false} WalkWeight(g: Graph, a: Node, p: seq<Edge>, b: Node)
    requires NonNegative(g) && IsWalk(g, a, p, b)
    ensures Weight(p) >= 0
  {
    if p != [] {
      WalkWeight(g, a, p[..|p| - 1], p[|p| - 1].from);
    }
  }

  lemma WeightedBounded(g: Graph, me: Node, s: Search)
    requires NonNegative(g) && Basic(g, me, s)
    ensures forall n <- g.nodes :: n in s.info
    ensures Total(Weighted, s.info, g.nodes) >= 0 && Total(Unvisited, s.info, g.nodes) >= 0
    ensures Total(Indirect, s.info, g.nodes) >= 0
  {
    forall n <- g.nodes
      ensures n in s.info && Weighted(s.info[n]) >= 0
    {
      if Seen(s, n) {
        assert Sound(g, me, n, s.info[n]);
        var p :| Routed(g, me, n, s.info[n], p);
        WalkWeight(g, me, p, n);
      }
    }
    TotalNonNegative(Weighted, s.info, g.nodes);
    TotalNonNegative(Unvisited, s.info, g.nodes);
    TotalNonNegative(Indirect, s.info, g.nodes);
  }

  // No OPTION_INDIRECT, any weights: (nodes beyond the current level, entries left in it).

  /** 1 for a node that is not yet known to be within d hops. */
  function Beyond(d: int): (f: Info -> int) {
    (i: Info) => if i.visited && i.distance <= d then 0 else 1
  }

  function Level(s: Search): (d: int)
    requires s.todo != [] && s.todo[0] in s.info
  {
    s.info[s.todo[0]].distance
  }

  ghost function InLevel(info: map<Node, Info>, todo: seq<Node>, d: int): (k: nat)
    requires forall x <- todo :: x in info
  {
    if todo == [] then 0 else (if info[todo[0]].distance == d then 1 else 0) + InLevel(info, todo[1..], d)
  }

  /** What scanning edges of the head of t, at distance d, may have done. */
  ghost predicate Grown(t: Search, s: Search, d: int) {
    && t.todo <= s.todo && t.info.Keys == s.info.Keys
    && (forall x <- s.todo :: x in s.info)
    && (forall x | Seen(t, x) :: Seen(s, x) && s.info[x].distance == t.info[x].distance)
    && (forall x | Seen(s, x) && !Seen(t, x) :: s.info[x].distance == d + 1)
    && (forall i | |t.todo| <= i < |s.todo| :: s.info[s.todo[i]].distance == d + 1)
  }

  lemma ScanGrown(g: Graph, me: Node, t: Search, s: Search, e: Edge)
    requires NoIndirect(g) && Basic(g, me, s) && AtEdge(g, me, s, e) && Levelled(g, me, s)
    requires Grown(t, s, s.info[e.from].distance)
    ensures Grown(t, Scan(g, me, s, e), s.info[e.from].distance)
  {
    hide Sound;
    hide Exact;
    hide WellFormed;
    hide NoIndirect;
    hide HasReverse;
    DirectUpdate(g, me, s, e);
    ScanGrows(g, me, s, e);
    hide Basic;
    hide Levelled;
  }

  lemma {:induction false} TotalSame(f: Info -> int, info: map<Node, Info>, info': map<Node, Info>, ns: seq<Node>)
    requires forall n <- ns :: n in info && n in info' && f(info[n]) == f(info'[n])
    ensures Total(f, info, ns) == Total(f, info', ns)
  {
    if ns != [] {
      TotalSame(f, info, info', ns[1..]);
    }
  }

  lemma {:induction false} InLevelSame(t: Search, s: Search, d: int, todo: seq<Node>, more: seq<Node>)
    requires forall x <- todo :: x in t.info && x in s.info && s.info[x].distance == t.info[x].distance
    requires forall x <- more :: x in s.info && s.info[x].distance == d + 1
    requires forall x <- todo + more :: x in s.info
    ensures InLevel(s.info, todo + more, d) == InLevel(t.info, todo, d)
    decreases |todo| + |more|
  {
    if todo != [] {
      assert (todo + more)[1..] == todo[1..] + more;
      InLevelSame(t, s, d, todo[1..], more);
    } else if more != [] {
      assert (todo + more)[1..] == [] + more[1..];
      InLevelSame(t, s, d, [], more[1..]);
    }
  }

  ghost predicate Known(g: Graph, s: Search) {
    (forall n <- g.nodes :: n in s.info) && (forall x <- s.todo :: x in s.info && x in g.nodes)
  }

  ghost function LevelsLeft(g: Graph, s: Search): (r: int)
    requires Known(g, s)
  {
    if s.todo == [] then 0 else 1 + Total(Beyond(Level(s)), s.info, g.nodes)
  }

  ghost function LevelEntries(g: Graph, s: Search): (r: nat)
    requires Known(g, s)
  {
    if s.todo == [] then 0 else InLevel(s.info, s.todo, Level(s))
  }

  /** Nothing at the head's own distance is gained or lost but the head. */
  lemma LevelStays(g: Graph, t: Search, s: Search)
    requires Known(g, t) && Known(g, s) && t.todo != [] && Grown(t, s, Level(t))
    requires forall x <- t.todo :: Seen(t, x)
    ensures Total(Beyond(Level(t)), s.info, g.nodes) == Total(Beyond(Level(t)), t.info, g.nodes)
    ensures forall x <- s.todo[1..] :: x in s.info
    ensures InLevel(s.info, s.todo[1..], Level(t)) == InLevel(t.info, t.todo, Level(t)) - 1
  {
    var d := Level(t);
    forall n <- g.nodes
      ensures Beyond(d)(t.info[n]) == Beyond(d)(s.info[n])
    {
      assert Seen(t, n) ==> Seen(s, n) && s.info[n].distance == t.info[n].distance;
    }
    TotalSame(Beyond(d), t.info, s.info, g.nodes);
    var more := s.todo[|t.todo|..];
    assert s.todo[1..] == t.todo[1..] + more;
    forall x <- more
      ensures x in s.info && s.info[x].distance == d + 1
    {
      var i :| 0 <= i < |more| && more[i] == x;
      assert s.todo[|t.todo| + i] == x;
    }
    InLevelSame(t, s, d, t.todo[1..], more);
  }

  ghost predicate LevelLess(g: Graph, s: Search, t: Search)
    requires Known(g, s) && Known(g, t)
  {
    LevelsLeft(g, s) < LevelsLeft(g, t) || (LevelsLeft(g, s) == LevelsLeft(g, t) && LevelEntries(g, s) < LevelEntries(g, t))
  }

  /** Scanning the head and dropping it makes progress. */
  lemma LevelProgress(g: Graph, t: Search, s: Search)
    requires Known(g, t) && Known(g, s) && t.todo != [] && Grown(t, s, Level(t))
    requires forall x <- t.todo :: Seen(t, x)
    requires |s.todo| > 1 ==> Seen(s, s.todo[1]) && Level(t) <= s.info[s.todo[1]].distance <= Level(t) + 1
    ensures var s' := s.(todo := s.todo[1..]);
            Known(g, s') && LevelsLeft(g, t) >= 0 && LevelLess(g, s', t)
  {
    var d := Level(t);
    var s' := s.(todo := s.todo[1..]);
    LevelStays(g, t, s);
    TotalNonNegative(Beyond(d), t.info, g.nodes);
    assert forall x <- s'.todo :: x in s.todo;
    hide Grown;
    hide Seen;
    hide InLevel;
    if s'.todo != [] && Level(s') != d {
      assert s'.todo[0] == s.todo[1];
      LevelMoves(g, s, d, s.todo[1]);
      hide Total;
    }
  }

  lemma LevelMoves(g: Graph, s: Search, d: int, x: Node)
    requires Known(g, s) && Seen(s, x) && x in g.nodes && s.info[x].distance == d + 1
    ensures Total(Beyond(d + 1), s.info, g.nodes) < Total(Beyond(d), s.info, g.nodes)
  {
    assert Beyond(d + 1)(s.info[x]) < Beyond(d)(s.info[x]);
    TotalOrder(Beyond(d + 1), Beyond(d), s.info, g.nodes);
  }

  // Both measures together.

  lemma BasicKnown(g: Graph, me: Node, s: Search)
    requires Basic(g, me, s)
    ensures Known(g, s)
  {
    hide Sound;
  }

  /** What the scans of one outer iteration, begun in t, have achieved so far. */
  ghost predicate Advanced(g: Graph, t: Search, s: Search) {
    && Known(g, t) && Known(g, s)
    && (t == s || Less(s, t, g.nodes))
    && (NoIndirect(g) ==> t.todo != [] && Grown(t, s, Level(t)))
  }

  lemma ScanAdvances(g: Graph, me: Node, t: Search, s: Search, e: Edge)
    requires Basic(g, me, s) && (NoIndirect(g) ==> Levelled(g, me, s)) && AtEdge(g, me, s, e) && Advanced(g, t, s)
    requires e.from in s.info && e.to in s.info && Basic(g, me, Scan(g, me, s, e))
    requires NoIndirect(g) ==> Level(t) == s.info[e.from].distance
    ensures Advanced(g, t, Scan(g, me, s, e))
  {
    hide Basic;
    hide Levelled;
    hide Grown;
    hide Total;
    hide AtEdge;
    hide NoIndirect;
    BasicKnown(g, me, s);
    BasicKnown(g, me, Scan(g, me, s, e));
    if Scan(g, me, s, e) != s {
      ScanLess(g, me, s, e);
    }
    if NoIndirect(g) {
      ScanGrown(g, me, t, s, e);
    }
    hide Scan;
  }

  /** One turn of the inner loop, for the invariant and for the measures. */
  lemma ScanStep(g: Graph, me: Node, t: Search, s: Search, k: nat)
    requires s.todo != [] && s.todo[0] in g.out && k < |g.out[s.todo[0]]|
    requires Scanned(g, me, s, k) && Advanced(g, t, s)
    requires t.todo != [] && t.todo[0] == s.todo[0] && Seen(t, t.todo[0])
    ensures var e := g.out[s.todo[0]][k];
            && e.from == s.todo[0] && e.from in s.info && e.to in s.info
            && var s' := Scan(g, me, s, e);
               s'.todo != [] && s'.todo[0] == s.todo[0] && Scanned(g, me, s', k + 1) && Advanced(g, t, s')
  {
    hide WellFormed;
    hide Sound;
    hide AllFollowed;
    hide AllRelaxed;
    hide Followed;
    hide Relaxed;
    hide Less;
    hide NoIndirect;
    var e := g.out[s.todo[0]][k];
    ScanKeeps(g, me, s, k);
    ScanAdvances(g, me, t, s, e);
  }

  /** The measure of the outer loop: which of the two applies is fixed by the graph. */
  ghost predicate Decreased(g: Graph, t: Search, s: Search)
    requires Known(g, t) && Known(g, s)
  {
    if NonNegative(g) then
      && Total(Unvisited, t.info, g.nodes) >= 0 && Total(Weighted, t.info, g.nodes) >= 0
      && Total(Indirect, t.info, g.nodes) >= 0
      && (Less(s, t, g.nodes) || (s.info == t.info && |s.todo| < |t.todo|))
    else LevelsLeft(g, t) >= 0 && LevelLess(g, s, t)
  }

  lemma Progress(g: Graph, me: Node, t: Search, s: Search)
    requires Inv(g, me, t) && Inv(g, me, s) && Advanced(g, t, s) && t.todo != [] && s.todo != []
    requires NonNegative(g) || NoIndirect(g)
    ensures var s' := s.(todo := s.todo[1..]);
            Known(g, s') && Decreased(g, t, s')
  {
    hide AllFollowed;
    hide AllRelaxed;
    hide WellFormed;
    hide Sound;
    hide Exact;
    hide Total;
    if NonNegative(g) {
      hide Levelled;
      hide Grown;
      WeightedBounded(g, me, t);
      DropKnown(g, s);
    } else {
      hide Less;
      assert forall x <- t.todo :: Seen(t, x);
      LevelProgress(g, t, s);
    }
  }

  lemma DropKnown(g: Graph, s: Search)
    requires Known(g, s) && s.todo != []
    ensures Known(g, s.(todo := s.todo[1..]))
  {
    assert forall x <- s.todo[1..] :: x in s.todo;
  }

  /** Entering the inner loop. */
  lemma StartScan(g: Graph, me: Node, s: Search)
    requires Inv(g, me, s) && s.todo != []
    ensures s.todo[0] in g.out && Seen(s, s.todo[0]) && s.info.Keys == g.out.Keys
    ensures Scanned(g, me, s, 0) && Advanced(g, s, s)
  {
    hide Sound;
    hide AllFollowed;
    hide AllRelaxed;
    BasicKnown(g, me, s);
    hide WellFormed;
  }

  lemma InvKnown(g: Graph, me: Node, s: Search)
    requires Inv(g, me, s)
    ensures Known(g, s)
  {
    BasicKnown(g, me, s);
  }

  lemma ScannedInv(g: Graph, me: Node, s: Search)
    requires s.todo != [] && s.todo[0] in g.out && Scanned(g, me, s, |g.out[s.todo[0]]|)
    ensures Inv(g, me, s)
  {
  }
}
