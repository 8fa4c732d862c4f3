/** sssp_bfs turn by turn, and when the turns come to an end. */
module SsspTurns {
  import opened MeshGraph
  import opened Sssp
  import opened SsspTermination

  /** Fields for exactly the nodes there are, and only those on the list. */
  ghost predicate Fit(g: Graph, s: Search) {
    WellFormed(g) && s.info.Keys == g.out.Keys && forall x <- s.todo :: x in g.out
  }

  /** The inner loop: one edge after the other. */
  function ScanAll(g: Graph, me: Node, s: Search, es: seq<Edge>): (r: Search)
    requires forall e <- es :: e.from in s.info && e.to in s.info
    ensures r.info.Keys == s.info.Keys && |s.todo| <= |r.todo| && r.todo[..|s.todo|] == s.todo
    ensures forall x <- r.todo :: x in s.todo || x in s.info
  {
    if es == [] then s else Scan(g, me, ScanAll(g, me, s, es[..|es| - 1]), es[|es| - 1])
  }

  /** One turn of the outer loop: the head is examined and leaves the list. */
  function Turn(g: Graph, me: Node, s: Search): (r: Search)
    requires Fit(g, s) && s.todo != []
    ensures Fit(g, r)
  {
    var t := ScanAll(g, me, s, g.out[s.todo[0]]);
    Search(t.info, t.todo[1..])
  }

  /** k turns, or as many as there are. */
  function Turns(g: Graph, me: Node, s: Search, k: nat): (r: Search)
    requires Fit(g, s)
    decreases k
  {
    if k == 0 || s.todo == [] then s else Turns(g, me, Turn(g, me, s), k - 1)
  }

  ghost predicate EndsFrom(g: Graph, me: Node, s: Search)
    requires Fit(g, s)
  {
    exists k: nat :: Turns(g, me, s, k).todo == []
  }

  /** The search from me stops. */
  ghost predicate Ends(g: Graph, me: Node)
    requires WellFormed(g) && me in g.out
  {
    EndsFrom(g, me, Begin(g, me))
  }

  lemma InvFit(g: Graph, me: Node, s: Search)
    requires Inv(g, me, s)
    ensures Fit(g, s)
  {
    hide WellFormed;
    hide Sound;
  }

  /** The inner loop keeps the invariant and what the measures need. */
  lemma {:induction false} ScanAllKeeps(g: Graph, me: Node, t: Search, k: nat)
    requires Inv(g, me, t) && t.todo != [] && t.todo[0] in g.out && k <= |g.out[t.todo[0]]|
    ensures forall e <- g.out[t.todo[0]][..k] :: e.from in t.info && e.to in t.info
    ensures var s := ScanAll(g, me, t, g.out[t.todo[0]][..k]);
            s.todo != [] && s.todo[0] == t.todo[0] && Scanned(g, me, s, k) && Advanced(g, t, s)
  {
    hide *;
    StartScan(g, me, t);
    EdgesKnown(g, me, t);
    var es := g.out[t.todo[0]];
    assert forall e <- es[..k] :: e in es;
    if k == 0 {
      ScanNone(g, me, t);
      assert es[..0] == [];
    } else {
      ScanAllKeeps(g, me, t, k - 1);
      var s := ScanAll(g, me, t, es[..k - 1]);
      ScanStep(g, me, t, s, k - 1);
      ScanOne(g, me, t, es, k);
    }
  }

  lemma EdgesKnown(g: Graph, me: Node, t: Search)
    requires Inv(g, me, t) && t.todo != [] && t.todo[0] in g.out
    ensures forall e <- g.out[t.todo[0]] :: e.from in t.info && e.to in t.info
  {
  }

  lemma ScanNone(g: Graph, me: Node, t: Search)
    ensures ScanAll(g, me, t, []) == t
  {
  }

  lemma ScanOne(g: Graph, me: Node, t: Search, es: seq<Edge>, k: nat)
    requires 0 < k <= |es| && forall e <- es :: e.from in t.info && e.to in t.info
    ensures ScanAll(g, me, t, es[..k]) == Scan(g, me, ScanAll(g, me, t, es[..k - 1]), es[k - 1])
  {
    hide Scan;
    assert es[..k][..k - 1] == es[..k - 1];
  }

  /** A turn keeps the invariant, and lowers the measure where there is one. */
  lemma TurnKeeps(g: Graph, me: Node, s: Search)
    requires Inv(g, me, s) && s.todo != []
    ensures Fit(g, s) && Inv(g, me, Turn(g, me, s)) && Known(g, s) && Known(g, Turn(g, me, s))
    ensures NonNegative(g) || NoIndirect(g) ==> Decreased(g, s, Turn(g, me, s))
  {
    hide *;
    InvFit(g, me, s);
    InvKnown(g, me, s);
    StartScan(g, me, s);
    var es := g.out[s.todo[0]];
    ScanAllKeeps(g, me, s, |es|);
    assert es[..|es|] == es;
    var t := ScanAll(g, me, s, es);
    TurnIs(g, me, s);
    ScannedInv(g, me, t);
    DropHead(g, me, t);
    InvKnown(g, me, t);
    DropKnown(g, t);
    if NonNegative(g) || NoIndirect(g) {
      Progress(g, me, s, t);
    }
  }

  lemma TurnIs(g: Graph, me: Node, s: Search)
    requires Fit(g, s) && s.todo != []
    ensures forall e <- g.out[s.todo[0]] :: e.from == s.todo[0] && e.from in s.info && e.to in s.info
    ensures var t := ScanAll(g, me, s, g.out[s.todo[0]]);
            t.todo != [] && Turn(g, me, s) == t.(todo := t.todo[1..])
  {
    hide ScanAll;
  }

  lemma {:induction false} Finishes(g: Graph, me: Node, s: Search) returns (k: nat)
    requires Inv(g, me, s) && Known(g, s) && Fit(g, s) && (NonNegative(g) || NoIndirect(g))
    ensures Turns(g, me, s, k).todo == []
    decreases if NonNegative(g) then Total(Unvisited, s.info, g.nodes) else LevelsLeft(g, s),
              if NonNegative(g) then Total(Weighted, s.info, g.nodes) else LevelEntries(g, s),
              if NonNegative(g) then Total(Indirect, s.info, g.nodes) else 0,
              |s.todo|
  {
    hide Inv;
    hide WellFormed;
    hide Total;
    hide LevelsLeft;
    hide LevelEntries;
    hide Turn;
    k := 0;
    if s.todo != [] {
      TurnKeeps(g, me, s);
      k := Finishes(g, me, Turn(g, me, s));
      k := k + 1;
    }
  }

  /** Without negative weights, or without OPTION_INDIRECT, the search stops. */
  lemma EndsWhen(g: Graph, me: Node)
    requires WellFormed(g) && me in g.out && (NonNegative(g) || NoIndirect(g))
    ensures Ends(g, me)
  {
    hide *;
    BeginInv(g, me);
    var s := Begin(g, me);
    InvFit(g, me, s);
    InvKnown(g, me, s);
    var k := Finishes(g, me, s);
    EndsBy(g, me, k);
  }

  lemma EndsBy(g: Graph, me: Node, k: nat)
    requires WellFormed(g) && me in g.out && Fit(g, Begin(g, me)) && Turns(g, me, Begin(g, me), k).todo == []
    ensures Ends(g, me)
  {
    hide Turns;
  }
}
