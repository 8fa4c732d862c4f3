/** A mesh of six nodes, with one negative weight, on which sssp_bfs never stops. */
module SsspDivergence {
  import opened MeshGraph
  import opened Sssp
  import opened SsspTurns

  /** The edge trees of the nodes; node 0 is where the search starts. */
  function Row(n: Node): (es: seq<Edge>) {
    if n == 0 then [Edge(0, 1, 0, false), Edge(0, 2, 1, true), Edge(0, 3, 0, false), Edge(0, 5, 0, true)]
    else if n == 1 then [Edge(1, 0, 0, false), Edge(1, 2, 0, false)]
    else if n == 2 then [Edge(2, 0, 0, false), Edge(2, 1, 0, false), Edge(2, 3, 0, false), Edge(2, 4, 0, true), Edge(2, 5, -1, false)]
    else if n == 3 then [Edge(3, 0, 0, false), Edge(3, 2, 0, true)]
    else if n == 4 then [Edge(4, 2, 0, false), Edge(4, 5, 0, true)]
    else [Edge(5, 0, 0, false), Edge(5, 2, 0, true), Edge(5, 4, 0, false)]
  }

  function ByWeight(): (es: seq<Edge>) {
    [Edge(2, 5, -1, false), Edge(0, 1, 0, false), Edge(0, 3, 0, false), Edge(0, 5, 0, true), Edge(1, 0, 0, false), Edge(1, 2, 0, false),
     Edge(2, 0, 0, false), Edge(2, 1, 0, false), Edge(2, 3, 0, false), Edge(2, 4, 0, true), Edge(3, 0, 0, false), Edge(3, 2, 0, true),
     Edge(4, 2, 0, false), Edge(4, 5, 0, true), Edge(5, 0, 0, false), Edge(5, 2, 0, true), Edge(5, 4, 0, false), Edge(0, 2, 1, true)]
  }

  function Mesh(): (g: Graph) { Graph(seq(6, i => i), map n: Node | 0 <= n < 6 :: Row(n), ByWeight()) }

  lemma MeshIs()
    ensures Mesh().out.Keys == {0, 1, 2, 3, 4, 5} && Mesh().byWeight == ByWeight()
    ensures forall n: Node :: n in Mesh().out <==> n < 6
    ensures forall n: Node | n < 6 :: Mesh().out[n] == Row(n)
    ensures forall n: Node :: n in Mesh().nodes <==> n < 6
    ensures forall i, j :: 0 <= i < j < |Mesh().nodes| ==> Mesh().nodes[i] != Mesh().nodes[j]
  {
    hide Row;
    hide ByWeight;
    var g := Mesh();
    forall n: Node
      ensures n in g.nodes <==> n < 6
    {
      if n < 6 {
        assert g.nodes[n] == n;
      }
    }
  }

  lemma Listed(e: Edge)
    ensures e in ByWeight() <==> e.from < 6 && e in Row(e.from)
  {
  }

  lemma Sorted(i: nat, j: nat)
    requires i < j < |ByWeight()|
    ensures Lighter(ByWeight()[i], ByWeight()[j])
    decreases j - i
  {
    Adjacent(i);
    hide ByWeight;
    if i + 1 < j {
      Sorted(i + 1, j);
    }
  }

  lemma Adjacent(i: nat)
    requires i + 1 < |ByWeight()|
    ensures Lighter(ByWeight()[i], ByWeight()[i + 1])
  {
  }

  lemma Rows(n: Node, e: Edge)
    requires n < 6 && e in Row(n)
    ensures e.from == n && e.to < 6 && e.to != n && e.weight >= -1
  {
  }

  lemma OneEach(n: Node, e: Edge, f: Edge)
    requires n < 6 && e in Row(n) && f in Row(n) && e.to == f.to
    ensures e == f
  {
  }

  ghost predicate AtLeast(g: Graph, m: int) {
    forall n, e :: n in g.out && e in g.out[n] ==> e.weight >= m
  }

  lemma MeshWellFormed()
    ensures WellFormed(Mesh()) && 0 in Mesh().out && AtLeast(Mesh(), -1)
  {
    hide *;
    var g := Mesh();
    MeshIs();
    forall n, e | n in g.out && e in g.out[n]
      ensures e.from == n && e.to in g.out && e.to != n && e.weight >= -1
    {
      Rows(n, e);
    }
    forall e, f, n | n in g.out && e in g.out[n] && f in g.out[n] && e.to == f.to
      ensures e == f
    {
      OneEach(n, e, f);
    }
    forall e: Edge
      ensures e in g.byWeight <==> e.from in g.out && e in g.out[e.from]
    {
      Listed(e);
    }
    forall i, j | 0 <= i < j < |g.byWeight|
      ensures Lighter(g.byWeight[i], g.byWeight[j])
    {
      Sorted(i, j);
    }
    WellFormedBy(g);
  }

  lemma WellFormedBy(g: Graph)
    requires forall i, j :: 0 <= i < j < |g.nodes| ==> g.nodes[i] != g.nodes[j]
    requires forall n :: n in g.nodes <==> n in g.out
    requires forall n, e :: n in g.out && e in g.out[n] ==> e.from == n && e.to in g.out && e.to != n && e.weight >= -1
    requires forall e, f, n :: n in g.out && e in g.out[n] && f in g.out[n] && e.to == f.to ==> e == f
    requires forall e :: e in g.byWeight <==> e.from in g.out && e in g.out[e.from]
    requires forall i, j :: 0 <= i < j < |g.byWeight| ==> Lighter(g.byWeight[i], g.byWeight[j])
    ensures WellFormed(g) && AtLeast(g, -1)
  {
  }

  // The part of a node's fields that the course of the search depends on.

  datatype Mark = Mark(visited: bool, indirect: bool, distance: int, weighted: int)

  function MarkOf(i: Info): (m: Mark) { Mark(i.visited, i.indirect, i.distance, i.weighted) }

  function Direct(distance: int, weighted: int): (m: Mark) { Mark(true, false, distance, weighted) }

  function Around(distance: int, weighted: int): (m: Mark) { Mark(true, true, distance, weighted) }

  /** Improves and Updated on marks. */
  predicate Gains(n: Mark, e: Edge, to: Mark) {
    !to.visited || (to.indirect && !(n.indirect || e.indirect)) || (to.distance == n.distance + 1 && to.weighted > n.weighted + e.weight)
  }

  function After(n: Mark, e: Edge, to: Mark): (r: Mark) {
    if !Gains(n, e, to) then to
    else Mark(true, n.indirect || e.indirect, n.distance + 1,
              if !to.visited || (to.distance == n.distance + 1 && to.weighted > n.weighted + e.weight) then n.weighted + e.weight
              else to.weighted)
  }

  function Queue(todo: seq<Node>, n: Mark, e: Edge, to: Mark): (r: seq<Node>) {
    if Gains(n, e, to) then todo + [e.to] else todo
  }

  /** The marks and the list; nodes 1 and 3 are settled by the first turn. */
  ghost predicate Stands(s: Search, m2: Mark, m4: Mark, m5: Mark, todo: seq<Node>) {
    && s.info.Keys == {0, 1, 2, 3, 4, 5} && s.todo == todo
    && MarkOf(s.info[0]) == Direct(0, 0) && MarkOf(s.info[1]) == MarkOf(s.info[3]) == Direct(1, 0)
    && MarkOf(s.info[2]) == m2 && MarkOf(s.info[4]) == m4 && MarkOf(s.info[5]) == m5
  }

  lemma BackRow(e: Edge) returns (i: nat)
    requires e in ByWeight()
    ensures e.to < 6 && i < |Row(e.to)| && Row(e.to)[i].to == e.from
  {
    var x := e.from;
    i := if e.to == 0 then (if x == 5 then 3 else x - 1) else if e.to == 2 then (if x < 2 then x else x - 1)
         else if e.to == 4 then (if x == 2 then 0 else 1) else x / 2;
  }

  lemma Backs(e: Edge)
    requires e in ByWeight()
    ensures HasReverse(Mesh(), e)
  {
    var i := BackRow(e);
    MeshIs();
    hide Row;
    hide ByWeight;
    hide Mesh;
    assert Mesh().out[e.to][i].to == e.from;
  }

  /** One scanned edge, on marks. */
  lemma ScanMark(s: Search, e: Edge)
    requires e.from < 6 && e in Row(e.from) && e.from in s.info && e.to in s.info && e.to != 0
    ensures var n, to, r := MarkOf(s.info[e.from]), MarkOf(s.info[e.to]), Scan(Mesh(), 0, s, e);
            && r.todo == Queue(s.todo, n, e, to)
            && r.info.Keys == s.info.Keys && MarkOf(r.info[e.to]) == After(n, e, to)
            && forall x | x in s.info && x != e.to :: r.info[x] == s.info[x]
  {
    Listed(e);
    Backs(e);
    hide Row;
    hide Mesh;
    hide HasReverse;
    hide ByWeight;
  }

  lemma ScanMe(s: Search, e: Edge)
    requires e.from in s.info && e.to in s.info && e.to == 0
    ensures Scan(Mesh(), 0, s, e) == s
  {
  }

  /** The next turn, if there is one. */
  ghost function Next(s: Search): (r: Search) {
    if Fit(Mesh(), s) && s.todo != [] then Turn(Mesh(), 0, s) else s
  }

  function Rest(todo: seq<Node>): (r: seq<Node>) { if todo == [] then [] else todo[1..] }

  /** A state of the search on this mesh. */
  ghost predicate Proper(s: Search) { Fit(Mesh(), s) }

  lemma NextBy(s: Search, t: Search)
    requires Proper(s) && s.todo != [] && s.todo[0] < 6
    requires forall e <- Row(s.todo[0]) :: e.from in s.info && e.to in s.info
    requires t == ScanAll(Mesh(), 0, s, Row(s.todo[0]))
    ensures Next(s) == Search(t.info, Rest(t.todo)) && Proper(Next(s))
  {
    MeshIs();
    hide Row;
    hide Mesh;
    hide WellFormed;
    hide ScanAll;
  }

  lemma One(g: Graph, s: Search, e: Edge)
    requires e.from in s.info && e.to in s.info
    ensures ScanAll(g, 0, s, [e]) == Scan(g, 0, s, e)
  {
    hide Scan;
    assert [e][..0] == [];
  }

  lemma More(g: Graph, s: Search, es: seq<Edge>, e: Edge)
    requires e.from in s.info && e.to in s.info && forall f <- es :: f.from in s.info && f.to in s.info
    ensures forall f <- es + [e] :: f.from in s.info && f.to in s.info
    ensures ScanAll(g, 0, s, es + [e]) == Scan(g, 0, ScanAll(g, 0, s, es), e)
  {
    hide Scan;
    assert (es + [e])[..|es|] == es;
  }

  lemma StandsAt(s: Search, m2: Mark, m4: Mark, m5: Mark, todo: seq<Node>)
    requires Stands(s, m2, m4, m5, todo)
    ensures s.info.Keys == {0, 1, 2, 3, 4, 5} && s.todo == todo
    ensures MarkOf(s.info[0]) == Direct(0, 0) && MarkOf(s.info[1]) == MarkOf(s.info[3]) == Direct(1, 0)
    ensures MarkOf(s.info[2]) == m2 && MarkOf(s.info[4]) == m4 && MarkOf(s.info[5]) == m5
  {
  }

  lemma StandsBy(s: Search, t: Search)
    requires s.info.Keys == t.info.Keys == {0, 1, 2, 3, 4, 5}
    requires s.info[0] == t.info[0] && s.info[1] == t.info[1] && s.info[3] == t.info[3]
    requires MarkOf(s.info[0]) == Direct(0, 0) && MarkOf(s.info[1]) == MarkOf(s.info[3]) == Direct(1, 0)
    ensures Stands(Search(t.info, Rest(t.todo)), MarkOf(t.info[2]), MarkOf(t.info[4]), MarkOf(t.info[5]), Rest(t.todo))
  {
  }

  /** Nodes 1 and 3: only node 2 is behind them. */
  lemma SideTurn(s: Search, x: Node, m2: Mark, m4: Mark, m5: Mark, todo: seq<Node>)
    requires Proper(s) && Stands(s, m2, m4, m5, todo) && todo != [] && todo[0] == x && (x == 1 || x == 3)
    ensures Proper(Next(s))
    ensures var e := Edge(x, 2, 0, x == 3);
            Stands(Next(s), After(Direct(1, 0), e, m2), m4, m5, Rest(Queue(todo, Direct(1, 0), e, m2)))
  {
    hide *;
    var a, b := Edge(x, 0, 0, false), Edge(x, 2, 0, x == 3);
    SideRow(x);
    StandsAt(s, m2, m4, m5, todo);
    One(Mesh(), s, a);
    ScanMe(s, a);
    More(Mesh(), s, [a], b);
    assert [a] + [b] == [a, b];
    ScanMark(s, b);
    var t := Scan(Mesh(), 0, s, b);
    NextBy(s, t);
    StandsBy(s, t);
  }

  lemma SideRow(x: Node)
    requires x == 1 || x == 3
    ensures Row(x) == [Edge(x, 0, 0, false), Edge(x, 2, 0, x == 3)]
  {
  }

  lemma Turn4(s: Search, m2: Mark, m4: Mark, m5: Mark, todo: seq<Node>)
    requires Proper(s) && Stands(s, m2, m4, m5, todo) && todo != [] && todo[0] == 4
    ensures Proper(Next(s))
    ensures var a, b := Edge(4, 2, 0, false), Edge(4, 5, 0, true);
            Stands(Next(s), After(m4, a, m2), m4, After(m4, b, m5), Rest(Queue(Queue(todo, m4, a, m2), m4, b, m5)))
  {
    hide *;
    var a, b := Edge(4, 2, 0, false), Edge(4, 5, 0, true);
    Rows45();
    StandsAt(s, m2, m4, m5, todo);
    One(Mesh(), s, a);
    ScanMark(s, a);
    More(Mesh(), s, [a], b);
    assert [a] + [b] == [a, b];
    var u := Scan(Mesh(), 0, s, a);
    ScanMark(u, b);
    var t := Scan(Mesh(), 0, u, b);
    NextBy(s, t);
    StandsBy(s, t);
  }

  lemma Turn5(s: Search, m2: Mark, m4: Mark, m5: Mark, todo: seq<Node>)
    requires Proper(s) && Stands(s, m2, m4, m5, todo) && todo != [] && todo[0] == 5
    ensures Proper(Next(s))
    ensures var a, b := Edge(5, 2, 0, true), Edge(5, 4, 0, false);
            Stands(Next(s), After(m5, a, m2), After(m5, b, m4), m5, Rest(Queue(Queue(todo, m5, a, m2), m5, b, m4)))
  {
    hide *;
    var z, a, b := Edge(5, 0, 0, false), Edge(5, 2, 0, true), Edge(5, 4, 0, false);
    Rows45();
    StandsAt(s, m2, m4, m5, todo);
    One(Mesh(), s, z);
    ScanMe(s, z);
    More(Mesh(), s, [z], a);
    ScanMark(s, a);
    var u := Scan(Mesh(), 0, s, a);
    More(Mesh(), s, [z] + [a], b);
    assert [z] + [a] + [b] == [z, a, b];
    ScanMark(u, b);
    var t := Scan(Mesh(), 0, u, b);
    NextBy(s, t);
    StandsBy(s, t);
  }

  lemma Rows45()
    ensures Row(4) == [Edge(4, 2, 0, false), Edge(4, 5, 0, true)]
    ensures Row(5) == [Edge(5, 0, 0, false), Edge(5, 2, 0, true), Edge(5, 4, 0, false)]
  {
  }

  /** Node 2 has nothing to offer to 1 and 3 once it is at a distance. */
  lemma Turn2(s: Search, m2: Mark, m4: Mark, m5: Mark, todo: seq<Node>)
    requires Proper(s) && Stands(s, m2, m4, m5, todo) && todo != [] && todo[0] == 2 && m2.distance > 0
    ensures Proper(Next(s))
    ensures var a, b := Edge(2, 4, 0, true), Edge(2, 5, -1, false);
            Stands(Next(s), m2, After(m2, a, m4), After(m2, b, m5), Rest(Queue(Queue(todo, m2, a, m4), m2, b, m5)))
  {
    hide *;
    var z, x, y, a, b := Edge(2, 0, 0, false), Edge(2, 1, 0, false), Edge(2, 3, 0, false), Edge(2, 4, 0, true), Edge(2, 5, -1, false);
    Row2();
    StandsAt(s, m2, m4, m5, todo);
    One(Mesh(), s, z);
    ScanMe(s, z);
    More(Mesh(), s, [z], x);
    Idle(s, x);
    More(Mesh(), s, [z] + [x], y);
    Idle(s, y);
    More(Mesh(), s, [z] + [x] + [y], a);
    ScanMark(s, a);
    var u := Scan(Mesh(), 0, s, a);
    More(Mesh(), s, [z] + [x] + [y] + [a], b);
    assert [z] + [x] + [y] + [a] + [b] == [z, x, y, a, b];
    ScanMark(u, b);
    var t := Scan(Mesh(), 0, u, b);
    NextBy(s, t);
    StandsBy(s, t);
  }

  lemma Row2()
    ensures Row(2) == [Edge(2, 0, 0, false), Edge(2, 1, 0, false), Edge(2, 3, 0, false), Edge(2, 4, 0, true), Edge(2, 5, -1, false)]
  {
  }

  lemma Idle(s: Search, e: Edge)
    requires e.from in s.info && e.to in s.info && MarkOf(s.info[e.to]) == Direct(1, 0) && MarkOf(s.info[e.from]).distance > 0
    ensures Scan(Mesh(), 0, s, e) == s
  {
    hide HasReverse;
    hide Mesh;
  }

  const UNSEEN_MARK: Mark := Mark(false, true, -1, 0)

  lemma Row0()
    ensures Row(0) == [Edge(0, 1, 0, false), Edge(0, 2, 1, true), Edge(0, 3, 0, false), Edge(0, 5, 0, true)]
  {
  }

  lemma BeginIs()
    ensures 0 in Mesh().out && Proper(Begin(Mesh(), 0))
    ensures var s := Begin(Mesh(), 0);
            && s.info.Keys == {0, 1, 2, 3, 4, 5} && s.todo == [0] && MarkOf(s.info[0]) == Direct(0, 0)
            && forall n | 1 <= n < 6 :: MarkOf(s.info[n]) == UNSEEN_MARK
  {
    MeshIs();
    MeshWellFormed();
    hide Mesh;
    hide WellFormed;
  }

  lemma FirstTurn()
    ensures 0 in Mesh().out && Proper(Next(Begin(Mesh(), 0)))
    ensures Stands(Next(Begin(Mesh(), 0)), Around(1, 1), UNSEEN_MARK, Around(1, 0), [1, 2, 3, 5])
  {
    hide *;
    BeginIs();
    Row0();
    var a, b, c, d := Edge(0, 1, 0, false), Edge(0, 2, 1, true), Edge(0, 3, 0, false), Edge(0, 5, 0, true);
    var g, s := Mesh(), Begin(Mesh(), 0);
    One(g, s, a);
    var t1 := Scan(g, 0, s, a);
    NewMark(s, a);
    More(g, s, [a], b);
    var t2 := Scan(g, 0, t1, b);
    NewMark(t1, b);
    More(g, s, [a] + [b], c);
    var t3 := Scan(g, 0, t2, c);
    NewMark(t2, c);
    More(g, s, [a] + [b] + [c], d);
    var t4 := Scan(g, 0, t3, d);
    NewMark(t3, d);
    assert [a] + [b] + [c] + [d] == [a, b, c, d];
    NextBy(s, t4);
    assert t4.todo == [0, 1, 2, 3, 5];
    FirstStands(t4);
  }

  lemma FirstStands(t: Search)
    requires t.info.Keys == {0, 1, 2, 3, 4, 5} && t.todo == [0, 1, 2, 3, 5] && MarkOf(t.info[0]) == Direct(0, 0)
    requires MarkOf(t.info[1]) == MarkOf(t.info[3]) == Mark(true, false, 1, 0) && MarkOf(t.info[2]) == Mark(true, true, 1, 1)
    requires MarkOf(t.info[4]) == UNSEEN_MARK && MarkOf(t.info[5]) == Mark(true, true, 1, 0)
    ensures Stands(Search(t.info, Rest(t.todo)), Around(1, 1), UNSEEN_MARK, Around(1, 0), [1, 2, 3, 5])
  {
  }

  lemma NewMark(s: Search, e: Edge)
    requires e.from == 0 && e in Row(0) && 0 in s.info && e.to in s.info && e.to != 0
    requires MarkOf(s.info[0]) == Direct(0, 0) && MarkOf(s.info[e.to]) == UNSEEN_MARK
    ensures var r := Scan(Mesh(), 0, s, e);
            && r.todo == s.todo + [e.to] && r.info.Keys == s.info.Keys && MarkOf(r.info[e.to]) == Mark(true, e.indirect, 1, e.weight)
            && forall x | x in s.info && x != e.to :: r.info[x] == s.info[x]
  {
    ScanMark(s, e);
    hide Scan;
    hide Mesh;
    hide Row;
  }

  /** The search goes through six opening states and then round and round through six
      more, each time three hops further out and one unit lighter. */
  ghost predicate Phase(s: Search, k: nat, d: int, w: int, x: int) {
    && Proper(s) && k < 12 && d >= 2 && x >= w
    && if k == 0 then 0 in Mesh().out && s == Begin(Mesh(), 0)
       else if k == 1 then Stands(s, Around(1, 1), UNSEEN_MARK, Around(1, 0), [1, 2, 3, 5])
       else if k == 2 then Stands(s, Direct(2, 1), UNSEEN_MARK, Around(1, 0), [2, 3, 5, 2])
       else if k == 3 then Stands(s, Direct(2, 1), Around(3, 1), Direct(3, 0), [3, 5, 2, 4, 5])
       else if k == 4 then Stands(s, Around(2, 0), Around(3, 1), Direct(3, 0), [5, 2, 4, 5, 2])
       else if k == 5 then Stands(s, Around(2, 0), Direct(4, 1), Direct(3, 0), [2, 4, 5, 2, 4])
       else if k == 6 then Stands(s, Around(d, w), Direct(d + 2, x), Around(d + 1, w - 1), [4, 5, 2, 4, 5])
       else if k == 7 then Stands(s, Direct(d + 3, w), Direct(d + 2, x), Around(d + 1, w - 1), [5, 2, 4, 5, 2])
       else if k == 8 then Stands(s, Direct(d + 3, w), Around(d + 2, w - 1), Around(d + 1, w - 1), [2, 4, 5, 2, 4])
       else if k == 9 then Stands(s, Direct(d + 3, w), Around(d + 2, w - 1), Direct(d + 4, w - 1), [4, 5, 2, 4, 5])
       else if k == 10 then Stands(s, Around(d + 3, w - 1), Around(d + 2, w - 1), Direct(d + 4, w - 1), [5, 2, 4, 5, 2])
       else Stands(s, Around(d + 3, w - 1), Direct(d + 5, w - 1), Direct(d + 4, w - 1), [2, 4, 5, 2, 4])
  }

  lemma Lists()
    ensures Rest([1, 2, 3, 5] + [2]) == [2, 3, 5, 2] && Rest([2, 3, 5, 2] + [4] + [5]) == [3, 5, 2, 4, 5]
    ensures Rest([3, 5, 2, 4, 5] + [2]) == [5, 2, 4, 5, 2] && Rest([5, 2, 4, 5, 2] + [4]) == [2, 4, 5, 2, 4]
    ensures Rest([2, 4, 5, 2, 4] + [5]) == [4, 5, 2, 4, 5] && Rest([4, 5, 2, 4, 5] + [2]) == [5, 2, 4, 5, 2]
  {
  }

  lemma Opening(s: Search, k: nat, d: int, w: int, x: int)
    requires Phase(s, k, d, w, x) && k < 6
    ensures if k < 5 then Phase(Next(s), k + 1, d, w, x) else Phase(Next(s), 6, 2, 0, 1)
  {
    hide Proper;
    hide Next;
    hide Stands;
    Lists();
    hide Rest;
    if k == 0 {
      FirstTurn();
    } else if k == 1 {
      SideTurn(s, 1, Around(1, 1), UNSEEN_MARK, Around(1, 0), [1, 2, 3, 5]);
    } else if k == 2 {
      Turn2(s, Direct(2, 1), UNSEEN_MARK, Around(1, 0), [2, 3, 5, 2]);
    } else if k == 3 {
      SideTurn(s, 3, Direct(2, 1), Around(3, 1), Direct(3, 0), [3, 5, 2, 4, 5]);
    } else if k == 4 {
      Turn5(s, Around(2, 0), Around(3, 1), Direct(3, 0), [5, 2, 4, 5, 2]);
    } else {
      Turn2(s, Around(2, 0), Direct(4, 1), Direct(3, 0), [2, 4, 5, 2, 4]);
    }
  }

  lemma Round(s: Search, k: nat, d: int, w: int, x: int)
    requires Phase(s, k, d, w, x) && k >= 6
    ensures if k < 11 then Phase(Next(s), k + 1, d, w, x) else Phase(Next(s), 6, d + 3, w - 1, w - 1)
  {
    hide Proper;
    hide Next;
    hide Stands;
    Lists();
    hide Rest;
    if k == 6 {
      Turn4(s, Around(d, w), Direct(d + 2, x), Around(d + 1, w - 1), [4, 5, 2, 4, 5]);
    } else if k == 7 {
      Turn5(s, Direct(d + 3, w), Direct(d + 2, x), Around(d + 1, w - 1), [5, 2, 4, 5, 2]);
    } else if k == 8 {
      Turn2(s, Direct(d + 3, w), Around(d + 2, w - 1), Around(d + 1, w - 1), [2, 4, 5, 2, 4]);
    } else if k == 9 {
      Turn4(s, Direct(d + 3, w), Around(d + 2, w - 1), Direct(d + 4, w - 1), [4, 5, 2, 4, 5]);
    } else if k == 10 {
      Turn5(s, Around(d + 3, w - 1), Around(d + 2, w - 1), Direct(d + 4, w - 1), [5, 2, 4, 5, 2]);
    } else {
      Turn2(s, Around(d + 3, w - 1), Direct(d + 5, w - 1), Direct(d + 4, w - 1), [2, 4, 5, 2, 4]);
    }
  }

  /** In none of them is the list empty. */
  lemma PhaseWaits(s: Search, k: nat, d: int, w: int, x: int)
    requires Phase(s, k, d, w, x)
    ensures Fit(Mesh(), s) && s.todo != [] && Next(s) == Turn(Mesh(), 0, s)
  {
    if k == 0 {
      BeginIs();
    }
    hide Mesh;
    hide WellFormed;
    hide Turn;
  }

  lemma {:induction false} NeverEmpty(s: Search, k: nat, d: int, w: int, x: int, n: nat)
    requires Phase(s, k, d, w, x)
    ensures Fit(Mesh(), s) && Turns(Mesh(), 0, s, n).todo != []
    decreases n
  {
    hide Phase;
    hide Next;
    hide Turn;
    hide Mesh;
    hide Fit;
    PhaseWaits(s, k, d, w, x);
    if n > 0 {
      if k < 6 {
        Opening(s, k, d, w, x);
        if k < 5 {
          NeverEmpty(Next(s), k + 1, d, w, x, n - 1);
        } else {
          NeverEmpty(Next(s), 6, 2, 0, 1, n - 1);
        }
      } else {
        PhaseBelow(s, k, d, w, x);
        Round(s, k, d, w, x);
        if k < 11 {
          NeverEmpty(Next(s), k + 1, d, w, x, n - 1);
        } else {
          NeverEmpty(Next(s), 6, d + 3, w - 1, w - 1, n - 1);
        }
      }
    }
  }

  lemma PhaseBelow(s: Search, k: nat, d: int, w: int, x: int)
    requires Phase(s, k, d, w, x)
    ensures k < 12
  {
  }

  /** On this mesh the search does not end. */
  lemma NeverEnds()
    ensures WellFormed(Mesh()) && 0 in Mesh().out && AtLeast(Mesh(), -1) && !Ends(Mesh(), 0)
  {
    MeshWellFormed();
    BeginIs();
    hide Mesh;
    hide WellFormed;
    forall n: nat
      ensures Turns(Mesh(), 0, Begin(Mesh(), 0), n).todo != []
    {
      NeverEmpty(Begin(Mesh(), 0), 0, 2, 0, 0, n);
    }
    hide Turns;
  }

  /** Main result on termination: sssp_bfs stops on every mesh whose weights are at least m,
      with or without edges that carry OPTION_INDIRECT, exactly if m is not negative or
      there are no such edges. */
  lemma EndsIff(m: int, indirect: bool)
    ensures (forall g: Graph, me: Node | WellFormed(g) && me in g.out && AtLeast(g, m) && (indirect || NoIndirect(g)) :: Ends(g, me))
            <==> m >= 0 || !indirect
  {
    if m >= 0 || !indirect {
      forall g: Graph, me: Node | WellFormed(g) && me in g.out && AtLeast(g, m) && (indirect || NoIndirect(g))
        ensures Ends(g, me)
      {
        assert m >= 0 ==> NonNegative(g) by {
          hide WellFormed;
        }
        EndsWhen(g, me);
      }
    } else {
      NeverEnds();
      LowerBound(Mesh(), -1, m);
      hide *;
      assert !Ends(Mesh(), 0);
    }
  }

  lemma LowerBound(g: Graph, a: int, b: int)
    requires AtLeast(g, a) && b <= a
    ensures AtLeast(g, b)
  {
  }
}
