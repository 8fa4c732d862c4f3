/** edge.c and the state updates of protocol_edge.c: the per-node edge trees, the weight
    tree and the reverse pointers. */
module Edges {
  import opened Basics
  import opened OrderedIndex
  import MeshGraph

  /** Addresses of edge records. */
  type Id = nat
  const NULL: Id := 0

  type Node = MeshGraph.Node
  type Address = nat

  /** Address families that say that there is no local address. */
  const NO_FAMILY: Address := 0
  const UNKNOWN: Address := 1

  /** edge_t. */
  datatype EdgeRec = EdgeRec(from: Node, to: Node, weight: int, options: nat, address: Address, local: Address, reverse: Id)

  type Mem = map<Id, EdgeRec>

  /** What an edge carries. */
  datatype Attr = Attr(weight: int, options: nat, address: Address, local: Address)

  function AttrOf(e: EdgeRec): (a: Attr) { Attr(e.weight, e.options, e.address, e.local) }

  /** edge_compare: the order within the tree of one node. */
  function ByTo(m: Mem): (f: (Id, Id) -> bool) {
    (a, b) => a in m && b in m && m[a].to < m[b].to
  }

  /** The edge as the graph algorithms see it; OPTION_INDIRECT is the lowest option bit. */
  function EdgeOf(e: EdgeRec): (r: MeshGraph.Edge) { MeshGraph.Edge(e.from, e.to, e.weight, e.options % 2 == 1) }

  /** edge_weight_compare. */
  function ByWeight(m: Mem): (f: (Id, Id) -> bool) {
    (a, b) => a in m && b in m && MeshGraph.Lighter(EdgeOf(m[a]), EdgeOf(m[b]))
  }

  function FindIn(m: Mem, s: seq<Id>, to: Node, i: nat): (e: Id)
    requires i <= |s|
    ensures e != NULL ==> e in s && e in m && m[e].to == to
    ensures e == NULL && NULL !in s ==> forall j :: i <= j < |s| ==> !(s[j] in m && m[s[j]].to == to)
    decreases |s| - i
  {
    if i == |s| then NULL else if s[i] in m && m[s[i]].to == to then s[i] else FindIn(m, s, to, i + 1)
  }

  /** lookup_edge. */
  function Find(m: Mem, out: map<Node, seq<Id>>, from: Node, to: Node): (e: Id) {
    if from in out then FindIn(m, out[from], to, 0) else NULL
  }

  /** e is in the tree of its source. */
  predicate Live(m: Mem, out: map<Node, seq<Id>>, e: Id) {
    e in m && m[e].from in out && e in out[m[e].from]
  }

  ghost predicate TreeOk(m: Mem, out: map<Node, seq<Id>>, n: Node)
    requires n in out
  {
    && NULL !in out[n] && Increasing(ByTo(m), out[n])
    && (forall e :: e in out[n] ==> e in m && m[e].from == n && m[e].to in out && m[e].to != n)
  }

  ghost predicate OutOk(m: Mem, out: map<Node, seq<Id>>) {
    forall n :: n in out ==> TreeOk(m, out, n)
  }

  ghost predicate WeightOk(m: Mem, out: map<Node, seq<Id>>, byWeight: seq<Id>) {
    Increasing(ByWeight(m), byWeight) && (forall e :: e in byWeight <==> Live(m, out, e))
  }

  ghost predicate ReverseOk(m: Mem, out: map<Node, seq<Id>>) {
    forall e :: Live(m, out, e) ==> m[e].reverse == Find(m, out, m[e].to, m[e].from)
  }

  lemma {:induction false} FindUnique(m: Mem, s: seq<Id>, e: Id, i: nat)
    requires Increasing(ByTo(m), s) && NULL !in s && i <= |s| && e in m && e in s[i..]
    ensures FindIn(m, s, m[e].to, i) == e
    decreases |s| - i
  {
    if s[i] != e {
      var k :| i < k < |s| && s[k] == e;
      assert s[i + 1..][k - i - 1] == e;
      assert ByTo(m)(s[i], s[k]);
      FindUnique(m, s, e, i + 1);
    }
  }

  /** A live edge is what looking for its ends finds. */
  lemma FindLive(m: Mem, out: map<Node, seq<Id>>, e: Id)
    requires OutOk(m, out) && Live(m, out, e)
    ensures Find(m, out, m[e].from, m[e].to) == e
  {
    assert TreeOk(m, out, m[e].from);
    FindUnique(m, out[m[e].from], e, 0);
  }

  lemma FoundLive(m: Mem, out: map<Node, seq<Id>>, from: Node, to: Node)
    requires OutOk(m, out)
    ensures var e := Find(m, out, from, to);
            e != NULL ==> Live(m, out, e) && m[e].from == from && m[e].to == to
  {
    if from in out {
      assert TreeOk(m, out, from);
    }
  }

  /** A reverse is set exactly if the opposite edge is there, and then points back. */
  lemma ReversePointsBack(m: Mem, out: map<Node, seq<Id>>, e: Id)
    requires OutOk(m, out) && ReverseOk(m, out) && Live(m, out, e)
    ensures var r := m[e].reverse;
            && (r != NULL <==> exists x :: Live(m, out, x) && m[x].from == m[e].to && m[x].to == m[e].from)
            && (r != NULL ==> Live(m, out, r) && m[r].reverse == e)
  {
    FoundLive(m, out, m[e].to, m[e].from);
    FindLive(m, out, e);
    forall x | Live(m, out, x) && m[x].from == m[e].to && m[x].to == m[e].from
      ensures m[e].reverse == x && x != NULL
    {
      FindLive(m, out, x);
      assert TreeOk(m, out, m[x].from);
    }
  }

  // Adding to the trees.

  lemma FitsTo(m: Mem, out: map<Node, seq<Id>>, e: Id)
    requires OutOk(m, out) && e in m && m[e].from in out
    requires forall x :: x in out[m[e].from] && x != e ==> m[x].to != m[e].to
    ensures Fits(ByTo(m), out[m[e].from], e)
  {
    assert TreeOk(m, out, m[e].from);
  }

  /** The edge is in, and everything else is as before. */
  lemma AddOut(m: Mem, out: map<Node, seq<Id>>, e: Id)
    requires OutOk(m, out) && e in m && e != NULL && !Live(m, out, e)
    requires m[e].from in out && m[e].to in out && m[e].from != m[e].to && Find(m, out, m[e].from, m[e].to) == NULL
    ensures var out' := out[m[e].from := Insert(ByTo(m), out[m[e].from], e)];
            OutOk(m, out') && (forall x :: Live(m, out', x) <==> Live(m, out, x) || x == e)
  {
    var n := m[e].from;
    var s := out[n];
    assert TreeOk(m, out, n);
    FitsTo(m, out, e);
    InsertIs(ByTo(m), s, e);
    var out' := out[n := Insert(ByTo(m), s, e)];
    hide Insert;
    forall k | k in out'
      ensures TreeOk(m, out', k)
    {
      assert TreeOk(m, out, k);
    }
  }

  lemma DropOut(m: Mem, out: map<Node, seq<Id>>, e: Id)
    requires OutOk(m, out) && Live(m, out, e)
    ensures var out' := out[m[e].from := Delete(ByTo(m), out[m[e].from], e)];
            OutOk(m, out') && (forall x :: Live(m, out', x) <==> Live(m, out, x) && x != e)
  {
    var n := m[e].from;
    var s := out[n];
    assert TreeOk(m, out, n);
    forall x | x in s && x != e
      ensures m[x].to != m[e].to
    {
      FindLive(m, out, x);
      FindLive(m, out, e);
    }
    FitsTo(m, out, e);
    DeleteIs(ByTo(m), s, e);
    var out' := out[n := Delete(ByTo(m), s, e)];
    hide Delete;
    forall k | k in out'
      ensures TreeOk(m, out', k)
    {
      assert TreeOk(m, out, k);
    }
  }

  /** Looking an edge up, after others have come and gone. */
  lemma FindSame(m: Mem, out: map<Node, seq<Id>>, m': Mem, out': map<Node, seq<Id>>, from: Node, to: Node)
    requires OutOk(m, out) && OutOk(m', out')
    requires forall x :: x in m && x in m' && m[x].from == from && m[x].to == to ==> m'[x].from == from && m'[x].to == to
    requires forall x :: x in m' && x in m && m'[x].from == from && m'[x].to == to ==> m[x].from == from && m[x].to == to
    requires forall x :: Live(m, out, x) && m[x].from == from && m[x].to == to ==> Live(m', out', x)
    requires forall x :: Live(m', out', x) && m'[x].from == from && m'[x].to == to ==> Live(m, out, x)
    ensures Find(m', out', from, to) == Find(m, out, from, to)
  {
    FoundLive(m, out, from, to);
    FoundLive(m', out', from, to);
    var x, y := Find(m, out, from, to), Find(m', out', from, to);
    if x != NULL {
      FindLive(m', out', x);
    } else if y != NULL {
      FindLive(m, out, y);
    }
  }

  /** The same edges; only where they point back to may differ. */
  ghost predicate SameButReverse(m: Mem, m': Mem) {
    m'.Keys == m.Keys && forall x <- m :: m'[x].(reverse := NULL) == m[x].(reverse := NULL)
  }

  /** The same edges between the same nodes. */
  ghost predicate SameEnds(m: Mem, m': Mem) {
    m'.Keys == m.Keys && forall x <- m :: m'[x].from == m[x].from && m'[x].to == m[x].to
  }

  lemma SameTo(m: Mem, m': Mem)
    requires SameEnds(m, m')
    ensures forall x, y :: ByTo(m)(x, y) == ByTo(m')(x, y)
  {
  }

  lemma SameOrders(m: Mem, m': Mem)
    requires SameButReverse(m, m')
    ensures SameEnds(m, m')
    ensures forall x | x in m :: AttrOf(m'[x]) == AttrOf(m[x])
    ensures forall x, y :: ByWeight(m)(x, y) == ByWeight(m')(x, y)
  {
    assert forall x | x in m :: EdgeOf(m'[x]) == EdgeOf(m[x]) && m'[x].from == m[x].from && m'[x].to == m[x].to;
  }

  lemma EndsOnly(m: Mem, m': Mem, out: map<Node, seq<Id>>)
    requires SameEnds(m, m') && OutOk(m, out)
    ensures OutOk(m', out)
    ensures forall x :: Live(m', out, x) <==> Live(m, out, x)
  {
    SameTo(m, m');
    hide ByTo;
    hide Increasing;
    forall n | n in out
      ensures TreeOk(m', out, n)
    {
      assert TreeOk(m, out, n);
      IncreasingSame(ByTo(m), ByTo(m'), out[n]);
    }
    hide TreeOk;
    assert OutOk(m', out);
  }

  lemma ReverseOnly(m: Mem, m': Mem, out: map<Node, seq<Id>>, s: seq<Id>)
    requires SameButReverse(m, m') && OutOk(m, out) && Increasing(ByWeight(m), s)
    ensures OutOk(m', out) && Increasing(ByWeight(m'), s)
    ensures forall x :: Live(m', out, x) <==> Live(m, out, x)
  {
    SameOrders(m, m');
    hide ByWeight;
    hide OutOk;
    hide Live;
    EndsOnly(m, m', out);
    IncreasingSame(ByWeight(m), ByWeight(m'), s);
  }

  lemma FindReverseOnly(m: Mem, m': Mem, out: map<Node, seq<Id>>, from: Node, to: Node)
    requires SameButReverse(m, m') && OutOk(m, out) && OutOk(m', out)
    ensures Find(m', out, from, to) == Find(m, out, from, to)
  {
    SameOrders(m, m');
    hide Find;
    hide OutOk;
    FindSame(m, out, m', out, from, to);
  }

  lemma FitsWeight(m: Mem, s: seq<Id>, e: Id)
    requires e in m && (forall x :: x in s ==> x in m)
    requires forall x :: x in s && x != e ==> m[x].from != m[e].from || m[x].to != m[e].to
    ensures Fits(ByWeight(m), s, e)
  {
    var before := ByWeight(m);
    WeightIs(m, e, e);
    forall x | x in s
      ensures x != e ==> before(x, e) || before(e, x)
      ensures before(x, e) ==> !before(e, x)
    {
      WeightIs(m, x, e);
      WeightIs(m, e, x);
    }
    forall x, y | x in s && y in s && before(e, x) && before(x, y)
      ensures before(e, y)
    {
      WeightIs(m, e, x);
      WeightIs(m, x, y);
      WeightIs(m, e, y);
    }
  }

  lemma WeightIs(m: Mem, a: Id, b: Id)
    requires a in m && b in m
    ensures ByWeight(m)(a, b) == MeshGraph.Lighter(EdgeOf(m[a]), EdgeOf(m[b]))
  {
  }

  /** What is known about the edge from one node to another. */
  function Entry(m: Mem, out: map<Node, seq<Id>>, from: Node, to: Node): (a: Option<Attr>) {
    var e := Find(m, out, from, to);
    if e == NULL || e !in m then None else Some(AttrOf(m[e]))
  }

  /** All three indices agree. */
  ghost predicate Consistent(m: Mem, out: map<Node, seq<Id>>, byWeight: seq<Id>) {
    OutOk(m, out) && WeightOk(m, out, byWeight) && ReverseOk(m, out)
  }

  /** edge_add on the three indices. */
  function Linked(m: Mem, e: Id, r: Id): (m': Mem)
    requires e in m
  {
    var m1 := m[e := m[e].(reverse := r)];
    if r in m1 then m1[r := m1[r].(reverse := e)] else m1
  }

  lemma AddReverse(m: Mem, out: map<Node, seq<Id>>, out': map<Node, seq<Id>>, e: Id)
    requires OutOk(m, out) && ReverseOk(m, out) && OutOk(m, out') && Live(m, out', e) && !Live(m, out, e) && NULL !in m
    requires forall x :: Live(m, out', x) <==> Live(m, out, x) || x == e
    ensures var r := Find(m, out', m[e].to, m[e].from);
            var m' := Linked(m, e, r);
            SameButReverse(m, m') && ReverseOk(m', out')
  {
    var r := Find(m, out', m[e].to, m[e].from);
    var m' := Linked(m, e, r);
    hide Linked;
    hide Find;
    hide OutOk;
    LinkedIs(m, e, r);
    ReverseOnly(m, m', out', []);
    forall x | Live(m', out', x)
      ensures m'[x].reverse == Find(m', out', m'[x].to, m'[x].from)
    {
      FindReverseOnly(m, m', out', m[x].to, m[x].from);
      AddReverseAt(m, out, out', e, x);
    }
  }

  lemma LinkedIs(m: Mem, e: Id, r: Id)
    requires e in m
    ensures SameButReverse(m, Linked(m, e, r))
  {
  }

  lemma AddReverseAt(m: Mem, out: map<Node, seq<Id>>, out': map<Node, seq<Id>>, e: Id, x: Id)
    requires OutOk(m, out) && ReverseOk(m, out) && OutOk(m, out') && Live(m, out', e) && !Live(m, out, e) && NULL !in m
    requires (forall x :: Live(m, out', x) <==> Live(m, out, x) || x == e) && Live(m, out', x)
    ensures var r := Find(m, out', m[e].to, m[e].from);
            Linked(m, e, r)[x].reverse == Find(m, out', m[x].to, m[x].from)
  {
    var r := Find(m, out', m[e].to, m[e].from);
    FoundLive(m, out', m[e].to, m[e].from);
    assert m[e].from != m[e].to by { assert TreeOk(m, out', m[e].from); }
    hide Find;
    hide OutOk;
    if x == r {
      FindLive(m, out', e);
    } else if x != e {
      FindLive(m, out', x);
      FindSame(m, out, m, out', m[x].to, m[x].from);
    }
  }

  lemma AddWeight(m: Mem, m': Mem, out: map<Node, seq<Id>>, out': map<Node, seq<Id>>, s: seq<Id>, e: Id)
    requires OutOk(m, out) && WeightOk(m, out, s) && SameButReverse(m, m') && OutOk(m', out') && Live(m', out', e) && !Live(m, out, e)
    requires forall x :: Live(m', out', x) <==> Live(m, out, x) || x == e
    ensures WeightOk(m', out', Insert(ByWeight(m'), s, e))
  {
    ReverseOnly(m, m', out, s);
    forall x | x in s && x != e
      ensures m'[x].from != m'[e].from || m'[x].to != m'[e].to
    {
      FindLive(m', out', x);
      FindLive(m', out', e);
    }
    FitsWeight(m', s, e);
    InsertIs(ByWeight(m'), s, e);
  }

  // Taking an edge out.

  /** Whoever points back to the edge no longer does. */
  function Unlinked(m: Mem, r: Id): (m': Mem) {
    if r in m then m[r := m[r].(reverse := NULL)] else m
  }

  lemma UnlinkedIs(m: Mem, r: Id)
    ensures SameButReverse(m, Unlinked(m, r))
  {
  }

  lemma DropReverseAt(m: Mem, out: map<Node, seq<Id>>, out': map<Node, seq<Id>>, e: Id, x: Id)
    requires OutOk(m, out) && ReverseOk(m, out) && OutOk(m, out') && Live(m, out, e) && NULL !in m
    requires (forall x :: Live(m, out', x) <==> Live(m, out, x) && x != e) && Live(m, out', x)
    ensures Unlinked(m, m[e].reverse)[x].reverse == Find(m, out', m[x].to, m[x].from)
  {
    var r := m[e].reverse;
    ReversePointsBack(m, out, e);
    ReversePointsBack(m, out, x);
    FoundLive(m, out', m[x].to, m[x].from);
    FindLive(m, out, x);
    FindLive(m, out, e);
    hide Find;
    hide OutOk;
    if x == r {
      var y := Find(m, out', m[x].to, m[x].from);
      if y != NULL {
        FindLive(m, out, y);
      }
    } else {
      FindSame(m, out, m, out', m[x].to, m[x].from);
    }
  }

  lemma DropReverse(m: Mem, out: map<Node, seq<Id>>, out': map<Node, seq<Id>>, e: Id)
    requires OutOk(m, out) && ReverseOk(m, out) && OutOk(m, out') && Live(m, out, e) && NULL !in m
    requires forall x :: Live(m, out', x) <==> Live(m, out, x) && x != e
    ensures ReverseOk(Unlinked(m, m[e].reverse), out')
  {
    var m' := Unlinked(m, m[e].reverse);
    UnlinkedIs(m, m[e].reverse);
    hide Unlinked;
    hide Find;
    hide OutOk;
    ReverseOnly(m, m', out', []);
    forall x | Live(m', out', x)
      ensures m'[x].reverse == Find(m', out', m'[x].to, m'[x].from)
    {
      FindReverseOnly(m, m', out', m[x].to, m[x].from);
      DropReverseAt(m, out, out', e, x);
    }
  }

  lemma FitsAll(m: Mem, out: map<Node, seq<Id>>, s: seq<Id>, e: Id)
    requires OutOk(m, out) && WeightOk(m, out, s) && Live(m, out, e)
    ensures Fits(ByWeight(m), s, e)
  {
    forall x | x in s && x != e
      ensures m[x].from != m[e].from || m[x].to != m[e].to
    {
      FindLive(m, out, x);
      FindLive(m, out, e);
    }
    FitsWeight(m, s, e);
  }

  lemma DropEntry(m: Mem, m': Mem, out: map<Node, seq<Id>>, out': map<Node, seq<Id>>, e: Id)
    requires OutOk(m, out) && SameButReverse(m, m') && OutOk(m', out') && Live(m, out, e)
    requires forall x :: Live(m', out', x) <==> Live(m, out, x) && x != e
    ensures forall f, t :: Entry(m', out', f, t) == if f == m[e].from && t == m[e].to then None else Entry(m, out, f, t)
  {
    SameOrders(m, m');
    FindLive(m, out, e);
    hide Find;
    hide OutOk;
    forall f, t
      ensures Entry(m', out', f, t) == if f == m[e].from && t == m[e].to then None else Entry(m, out, f, t)
    {
      FoundLive(m', out', f, t);
      FoundLive(m, out, f, t);
      if f == m[e].from && t == m[e].to {
        var y := Find(m', out', f, t);
        if y != NULL {
          FindLive(m, out, y);
        }
      } else {
        FindSame(m, out, m', out', f, t);
      }
    }
  }

  // Changing what an edge carries.

  /** e carries a; the rest is the same. */
  function Carrying(m: Mem, e: Id, a: Attr): (m': Mem)
    requires e in m
  {
    m[e := m[e].(weight := a.weight, options := a.options, address := a.address, local := a.local)]
  }

  lemma CarryingOut(m: Mem, out: map<Node, seq<Id>>, e: Id, a: Attr)
    requires OutOk(m, out) && e in m
    ensures var m' := Carrying(m, e, a);
            SameEnds(m, m') && OutOk(m', out) && (forall x :: Live(m', out, x) <==> Live(m, out, x))
  {
    EndsOnly(m, Carrying(m, e, a), out);
  }

  lemma CarryingFind(m: Mem, out: map<Node, seq<Id>>, e: Id, a: Attr, f: Node, t: Node)
    requires OutOk(m, out) && Live(m, out, e) && e != NULL
    ensures var m' := Carrying(m, e, a);
            && Find(m', out, f, t) == Find(m, out, f, t)
            && Entry(m', out, f, t) == if f == m[e].from && t == m[e].to then Some(a) else Entry(m, out, f, t)
  {
    var m' := Carrying(m, e, a);
    CarryingOut(m, out, e, a);
    FindLive(m, out, e);
    hide Find;
    hide OutOk;
    FindSame(m, out, m', out, f, t);
    FoundLive(m, out, f, t);
    hide Live;
    assert Entry(m', out, f, t) == if f == m[e].from && t == m[e].to then Some(a) else Entry(m, out, f, t);
  }

  lemma CarryingReverse(m: Mem, out: map<Node, seq<Id>>, e: Id, a: Attr)
    requires OutOk(m, out) && ReverseOk(m, out) && Live(m, out, e) && e != NULL
    ensures ReverseOk(Carrying(m, e, a), out)
  {
    hide Find;
    hide OutOk;
    var m' := Carrying(m, e, a);
    CarryingOut(m, out, e, a);
    forall x | Live(m', out, x)
      ensures m'[x].reverse == Find(m', out, m'[x].to, m'[x].from)
    {
      assert Live(m, out, x);
      CarryingFind(m, out, e, a, m[x].to, m[x].from);
    }
  }

  lemma WeightElsewhere(m: Mem, m': Mem, s: seq<Id>)
    requires Increasing(ByWeight(m), s) && (forall x :: x in s ==> x in m && x in m' && m'[x] == m[x])
    ensures Increasing(ByWeight(m'), s)
  {
    hide ByWeight;
    forall x, y | x in s && y in s
      ensures ByWeight(m)(x, y) == ByWeight(m')(x, y)
    {
      WeightIs(m, x, y);
      WeightIs(m', x, y);
    }
    IncreasingSame(ByWeight(m), ByWeight(m'), s);
  }

  lemma CarryingWeight(m: Mem, out: map<Node, seq<Id>>, s: seq<Id>, e: Id, a: Attr)
    requires OutOk(m, out) && ReverseOk(m, out) && WeightOk(m, out, s) && Live(m, out, e)
    ensures var m' := Carrying(m, e, a);
            WeightOk(m', out, Insert(ByWeight(m'), Delete(ByWeight(m), s, e), e))
  {
    hide OutOk;
    hide ReverseOk;
    hide ByWeight;
    hide Increasing;
    hide Fits;
    hide Insert;
    hide Delete;
    var m' := Carrying(m, e, a);
    CarryingOut(m, out, e, a);
    FitsAll(m, out, s, e);
    DeleteIs(ByWeight(m), s, e);
    var s' := Delete(ByWeight(m), s, e);
    WeightElsewhere(m, m', s');
    forall x | x in s' && x != e
      ensures m'[x].from != m'[e].from || m'[x].to != m'[e].to
    {
      FindLive(m, out, x);
      FindLive(m, out, e);
    }
    FitsWeight(m', s', e);
    InsertIs(ByWeight(m'), s', e);
    hide Carrying;
    hide Live;
    assert WeightOk(m', out, Insert(ByWeight(m'), s', e));
  }

  /** If the weight stays, the weight tree stays. */
  lemma CarryingSameWeight(m: Mem, out: map<Node, seq<Id>>, s: seq<Id>, e: Id, a: Attr)
    requires OutOk(m, out) && WeightOk(m, out, s) && Live(m, out, e) && a.weight == m[e].weight
    ensures WeightOk(Carrying(m, e, a), out, s)
  {
    hide OutOk;
    hide ByWeight;
    hide Increasing;
    var m' := Carrying(m, e, a);
    CarryingOut(m, out, e, a);
    assert forall x | x in m :: m'[x].weight == m[x].weight;
    hide Carrying;
    SameLighter(m, m', s);
    hide Live;
    IncreasingSame(ByWeight(m), ByWeight(m'), s);
    assert WeightOk(m', out, s);
  }

  lemma SameLighter(m: Mem, m': Mem, s: seq<Id>)
    requires SameEnds(m, m') && (forall x | x in m :: m'[x].weight == m[x].weight) && (forall x :: x in s ==> x in m)
    ensures forall x, y :: x in s && y in s ==> ByWeight(m)(x, y) == ByWeight(m')(x, y)
  {
    hide ByWeight;
    forall x, y | x in s && y in s
      ensures ByWeight(m)(x, y) == ByWeight(m')(x, y)
    {
      WeightIs(m, x, y);
      WeightIs(m', x, y);
    }
  }

  // ADD_EDGE and DEL_EDGE messages.

  /** What the handler answers: drop the connection, nothing, a correction, or forwarding
      the message. */
  datatype Reply = Bad | Quiet | SendAdd | SendDel | Forward

  predicate NewLocal(known: Attr, a: Attr) { a.local != NO_FAMILY && a.local != UNKNOWN && known.local != a.local }

  /** The message does not match the existing entry. */
  predicate Differs(known: Attr, a: Attr) {
    known.weight != a.weight || known.options != a.options || known.address != a.address || NewLocal(known, a)
  }

  function Revised(known: Attr, a: Attr): (r: Attr) {
    a.(local := if NewLocal(known, a) then a.local else known.local)
  }

  /** The entry after an ADD_EDGE message that is taken. */
  function Merged(known: Option<Attr>, a: Attr): (r: Attr) { if known == None then a else Revised(known.value, a) }

  /** It is the message's, field by field, but a missing local address leaves a known one. */
  lemma MergedIs(known: Option<Attr>, a: Attr)
    ensures var r := Merged(known, a);
            && r.weight == a.weight && r.options == a.options && r.address == a.address
            && (a.local != 0 && a.local != 1 ==> r.local == a.local)
            && ((a.local == 0 || a.local == 1) && known.Some? ==> r.local == known.value.local)
            && (known == None ==> r.local == a.local)
  {
  }

  /** The answers, case by case: an edge to oneself is an error, what is known already or
      ignored is passed over, a claim about our own edges is corrected, and the rest is
      taken and passed on. */
  lemma AddReplies(known: Option<Attr>, a: Attr, loop: bool, ignored: bool, mine: bool)
    ensures var r := AddReply(known, a, loop, ignored, mine);
            var same := known.Some? && known.value.weight == a.weight && known.value.options == a.options && known.value.address == a.address
                        && (a.local == 0 || a.local == 1 || known.value.local == a.local);
            && (r == Bad <==> loop)
            && (r == Quiet <==> !loop && (ignored || same))
            && (r == SendAdd <==> !loop && !ignored && !same && mine && known.Some?)
            && (r == SendDel <==> !loop && !ignored && mine && known == None)
            && (r == Forward <==> !loop && !ignored && !same && !mine)
  {
  }

  lemma DelReplies(known: Option<Attr>, loop: bool, ignored: bool, mine: bool)
    ensures var r := DelReply(known, loop, ignored, mine);
            && (r == Bad <==> loop)
            && (r == Quiet <==> !loop && (ignored || known == None))
            && (r == SendAdd <==> !loop && !ignored && known.Some? && mine)
            && (r == Forward <==> !loop && !ignored && known.Some? && !mine)
  {
  }

  /** Repeating a message that was taken is passed over and would change nothing: the flood
      of an announcement dies out. */
  lemma RepeatQuiet(known: Option<Attr>, a: Attr)
    ensures AddReply(Some(Merged(known, a)), a, false, false, false) == Quiet
    ensures Merged(Some(Merged(known, a)), a) == Merged(known, a)
  {
  }

  function AddReply(known: Option<Attr>, a: Attr, loop: bool, ignored: bool, mine: bool): (r: Reply) {
    if loop then Bad
    else if ignored || (known.Some? && !Differs(known.value, a)) then Quiet
    else if mine then if known.Some? then SendAdd else SendDel
    else Forward
  }

  function DelReply(known: Option<Attr>, loop: bool, ignored: bool, mine: bool): (r: Reply) {
    if loop then Bad else if ignored || known == None then Quiet else if mine then SendAdd else Forward
  }

  lemma KnownOut(m: Mem, out: map<Node, seq<Id>>, s: seq<Id>, n: Node)
    requires Consistent(m, out, s) && n !in out
    ensures var out' := out[n := []];
            && Consistent(m, out', s) && (forall e :: Live(m, out', e) <==> Live(m, out, e))
            && (forall f, t :: Find(m, out', f, t) == Find(m, out, f, t))
  {
    var out' := out[n := []];
    forall k | k in out'
      ensures TreeOk(m, out', k)
    {
      if k != n {
        assert TreeOk(m, out, k);
      }
    }
    forall e
      ensures Live(m, out', e) <==> Live(m, out, e)
    {
    }
  }

  lemma GrownOut(m: Mem, out: map<Node, seq<Id>>, addr: Id, e: EdgeRec)
    requires OutOk(m, out) && addr !in m
    ensures var m' := m[addr := e];
            OutOk(m', out) && !Live(m', out, addr) && (forall x :: Live(m', out, x) <==> Live(m, out, x))
  {
    var m' := m[addr := e];
    forall n | n in out
      ensures TreeOk(m', out, n) && addr !in out[n]
    {
      assert TreeOk(m, out, n);
      IncreasingSame(ByTo(m), ByTo(m'), out[n]);
    }
  }

  lemma GrownMem(m: Mem, out: map<Node, seq<Id>>, s: seq<Id>, addr: Id, e: EdgeRec)
    requires Consistent(m, out, s) && addr !in m
    ensures var m' := m[addr := e];
            && Consistent(m', out, s) && !Live(m', out, addr)
            && (forall f, t :: Entry(m', out, f, t) == Entry(m, out, f, t))
  {
    var m' := m[addr := e];
    GrownOut(m, out, addr, e);
    hide OutOk;
    hide Find;
    assert addr !in s && (forall x :: x in s ==> x in m);
    assert Increasing(ByWeight(m'), s) by {
      IncreasingSame(ByWeight(m), ByWeight(m'), s);
    }
    hide ByWeight;
    forall f, t
      ensures Find(m', out, f, t) == Find(m, out, f, t) && Entry(m', out, f, t) == Entry(m, out, f, t)
    {
      FindSame(m, out, m', out, f, t);
      FoundLive(m, out, f, t);
    }
    assert Consistent(m', out, s);
  }

  /** The three indices, updated together. */
  class EdgeTables {
    var mem: Mem
    var out: map<Node, seq<Id>>
    var byWeight: seq<Id>

    ghost predicate Valid()
      reads this
    {
      NULL !in mem && Consistent(mem, out, byWeight)
    }

    constructor ()
      ensures Valid() && mem == map[] && out == map[]
    {
      mem, out, byWeight := map[], map[], [];
    }

    /** edge_add: no effect if there is such an edge already. */
    method EdgeAdd(e: Id)
      requires Valid() && e in mem && !Live(mem, out, e)
      requires mem[e].from in out && mem[e].to in out && mem[e].from != mem[e].to
      modifies this
      ensures Valid() && SameButReverse(old(mem), mem) && out.Keys == old(out).Keys
      ensures forall f, t :: Entry(mem, out, f, t) ==
                if f == mem[e].from && t == mem[e].to && Entry(old(mem), old(out), f, t) == None then Some(AttrOf(mem[e]))
                else Entry(old(mem), old(out), f, t)
    {
      hide Insert;
      hide Find;
      hide OutOk;
      hide WeightOk;
      hide ReverseOk;
      hide Linked;
      var from, to := mem[e].from, mem[e].to;
      FoundLive(mem, out, from, to);
      if Find(mem, out, from, to) != NULL {
        return;
      }
      AddOut(mem, out, e);
      out := out[from := Insert(ByTo(mem), out[from], e)];
      var r := Find(mem, out, to, from);
      AddReverse(mem, old(out), out, e);
      ReverseOnly(mem, Linked(mem, e, r), out, []);
      mem := Linked(mem, e, r);
      AddWeight(old(mem), mem, old(out), out, byWeight, e);
      byWeight := Insert(ByWeight(mem), byWeight, e);
      AddEntry(old(mem), mem, old(out), out, e);
    }

    /** edge_del. */
    method EdgeDel(e: Id)
      requires Valid() && Live(mem, out, e)
      modifies this
      ensures Valid() && SameButReverse(old(mem), mem) && out.Keys == old(out).Keys && !Live(mem, out, e)
      ensures forall f, t :: Entry(mem, out, f, t) ==
                if f == mem[e].from && t == mem[e].to then None else Entry(old(mem), old(out), f, t)
    {
      hide Insert;
      hide Delete;
      hide Find;
      hide OutOk;
      hide ReverseOk;
      hide Unlinked;
      var r, from := mem[e].reverse, mem[e].from;
      ghost var m := mem;
      UnlinkedIs(m, r);
      SameOrders(m, Unlinked(m, r));
      ReverseOnly(m, Unlinked(m, r), out, byWeight);
      FitsAll(Unlinked(m, r), out, byWeight, e);
      DropOut(Unlinked(m, r), out, e);
      DeleteIs(ByWeight(Unlinked(m, r)), byWeight, e);
      mem := Unlinked(mem, r);
      byWeight := Delete(ByWeight(mem), byWeight, e);
      out := out[from := Delete(ByTo(mem), out[from], e)];
      ReverseOnly(mem, m, out, []);
      DropReverse(m, old(out), out, e);
      DropEntry(m, mem, old(out), out, e);
    }

    /** add_edge_h on a known edge: it carries a from now on. A new weight takes it out of
        the weight tree and puts it back in. */
    method Update(e: Id, a: Attr)
      requires Valid() && Live(mem, out, e)
      modifies this
      ensures Valid() && mem == Carrying(old(mem), e, a) && out == old(out)
      ensures forall f, t :: Entry(mem, out, f, t) ==
                if f == mem[e].from && t == mem[e].to then Some(a) else Entry(old(mem), old(out), f, t)
    {
      hide Insert;
      hide Delete;
      hide Find;
      hide OutOk;
      hide ReverseOk;
      hide WeightOk;
      assert e != NULL;
      ghost var m := mem;
      CarryingOut(m, out, e, a);
      CarryingReverse(m, out, e, a);
      forall f, t
        ensures Entry(Carrying(m, e, a), out, f, t) == if f == m[e].from && t == m[e].to then Some(a) else Entry(m, out, f, t)
      {
        CarryingFind(m, out, e, a, f, t);
      }
      hide Entry;
      if mem[e].weight != a.weight {
        CarryingWeight(m, out, byWeight, e, a);
        byWeight := Delete(ByWeight(mem), byWeight, e);
        mem := Carrying(mem, e, a);
        byWeight := Insert(ByWeight(mem), byWeight, e);
      } else {
        CarryingSameWeight(m, out, byWeight, e, a);
        mem := Carrying(mem, e, a);
      }
    }

    /** node_add of a node that is not known yet. */
    method KnowNode(n: Node)
      requires Valid()
      modifies this`out
      ensures Valid() && out.Keys == old(out).Keys + {n}
      ensures forall f, t :: Entry(mem, out, f, t) == Entry(mem, old(out), f, t)
      ensures forall e :: Live(mem, out, e) <==> Live(mem, old(out), e)
    {
      if n !in out {
        KnownOut(mem, out, byWeight, n);
        out := out[n := []];
      }
    }

    /** add_edge_h after parsing; addr is where a new edge would be allocated, and ignored
        is the tunnelserver test. */
    method AddEdge(myself: Node, from: Node, to: Node, a: Attr, ignored: bool, addr: Id) returns (reply: Reply)
      requires Valid() && addr !in mem && addr != NULL
      modifies this
      ensures Valid() && out.Keys == if from == to || ignored then old(out).Keys else old(out).Keys + {from, to}
      ensures reply == AddReply(Entry(old(mem), old(out), from, to), a, from == to, ignored, from == myself)
      ensures forall f, t :: Entry(mem, out, f, t) ==
                if reply == Forward && f == from && t == to then Some(Merged(Entry(old(mem), old(out), f, t), a))
                else Entry(old(mem), old(out), f, t)
      ensures reply == Forward ==>
                var e := Entry(mem, out, from, to);
                && e.Some? && e.value.weight == a.weight && e.value.options == a.options && e.value.address == a.address
                && (a.local != NO_FAMILY && a.local != UNKNOWN ==> e.value.local == a.local)
    {
      hide Valid;
      hide Find;
      if from == to {
        return Bad;
      }
      if ignored {
        return Quiet;
      }
      KnowNode(from);
      KnowNode(to);
      FoundHere(from, to);
      hide Live;
      var e := Find(mem, out, from, to);
      if e != NULL {
        var known := AttrOf(mem[e]);
        if !Differs(known, a) {
          return Quiet;
        }
        if from == myself {
          return SendAdd;
        }
        Update(e, Revised(known, a));
        return Forward;
      } else if from == myself {
        return SendDel;
      } else {
        NewEdge(addr, EdgeRec(from, to, a.weight, a.options, a.address, a.local, NULL));
        EdgeAdd(addr);
        return Forward;
      }
    }

    /** del_edge_h after parsing; up is what graph() finds reachable once the edge is gone. */
    method DelEdge(myself: Node, from: Node, to: Node, ignored: bool, up: set<Node>) returns (reply: Reply)
      requires Valid()
      modifies this
      ensures Valid() && out.Keys == old(out).Keys
      ensures reply == DelReply(Entry(old(mem), old(out), from, to), from == to, ignored, from == myself)
      ensures forall f, t :: Entry(mem, out, f, t) ==
                if reply == Forward && ((f == from && t == to) || (to !in up && f == to && t == myself)) then None
                else Entry(old(mem), old(out), f, t)
    {
      hide Valid;
      hide Find;
      if from == to {
        return Bad;
      }
      if ignored {
        return Quiet;
      }
      FoundHere(from, to);
      var e := Find(mem, out, from, to);
      if e == NULL {
        return Quiet;
      }
      if from == myself {
        return SendAdd;
      }
      EdgeDel(e);
      reply := Forward;
      if to !in up {
        FoundHere(to, myself);
        e := Find(mem, out, to, myself);
        if e != NULL {
          EdgeDel(e);
        }
      }
    }

    lemma FoundHere(from: Node, to: Node)
      requires Valid()
      ensures var e := Find(mem, out, from, to);
              if e == NULL then Entry(mem, out, from, to) == None
              else e in mem && Live(mem, out, e) && mem[e].from == from && mem[e].to == to && Entry(mem, out, from, to) == Some(AttrOf(mem[e]))
    {
      FoundLive(mem, out, from, to);
    }

    /** new_edge, and the fields set before edge_add. */
    method NewEdge(addr: Id, e: EdgeRec)
      requires Valid() && addr !in mem && addr != NULL
      modifies this`mem
      ensures Valid() && mem == old(mem)[addr := e] && !Live(mem, out, addr)
      ensures forall f, t :: Entry(mem, out, f, t) == Entry(old(mem), out, f, t)
    {
      GrownMem(mem, out, byWeight, addr, e);
      mem := mem[addr := e];
    }
  }

  lemma AddEntry(m: Mem, m': Mem, out: map<Node, seq<Id>>, out': map<Node, seq<Id>>, e: Id)
    requires OutOk(m, out) && SameButReverse(m, m') && OutOk(m', out') && Live(m', out', e) && !Live(m, out, e)
    requires forall x :: Live(m', out', x) <==> Live(m, out, x) || x == e
    requires Find(m, out, m[e].from, m[e].to) == NULL && e != NULL
    ensures forall f, t :: Entry(m', out', f, t) ==
              if f == m[e].from && t == m[e].to then Some(AttrOf(m'[e])) else Entry(m, out, f, t)
  {
    hide Find;
    hide OutOk;
    SameOrders(m, m');
    forall f, t
      ensures Entry(m', out', f, t) ==
              if f == m[e].from && t == m[e].to then Some(AttrOf(m'[e])) else Entry(m, out, f, t)
    {
      if f == m[e].from && t == m[e].to {
        FindLive(m', out', e);
      } else {
        FindSame(m, out, m', out', f, t);
        FoundLive(m, out, f, t);
      }
    }
  }

  // The indices as the graph algorithms see them.

  function Records(m: Mem, s: seq<Id>): (r: seq<MeshGraph.Edge>)
    requires forall i :: 0 <= i < |s| ==> s[i] in m
    ensures |r| == |s| && forall i :: 0 <= i < |s| ==> r[i] == EdgeOf(m[s[i]])
  {
    seq(|s|, i requires 0 <= i < |s| => EdgeOf(m[s[i]]))
  }

  lemma Stored(m: Mem, out: map<Node, seq<Id>>, s: seq<Id>)
    requires Consistent(m, out, s)
    ensures forall n :: n in out ==> forall i :: 0 <= i < |out[n]| ==> out[n][i] in m
    ensures forall i :: 0 <= i < |s| ==> s[i] in m
  {
    forall n | n in out
      ensures forall i :: 0 <= i < |out[n]| ==> out[n][i] in m
    {
      assert TreeOk(m, out, n);
    }
    forall i | 0 <= i < |s|
      ensures s[i] in m
    {
      assert Live(m, out, s[i]);
    }
  }

  ghost function View(m: Mem, out: map<Node, seq<Id>>, s: seq<Id>, nodes: seq<Node>): (g: MeshGraph.Graph)
    requires Consistent(m, out, s)
  {
    Stored(m, out, s);
    MeshGraph.Graph(nodes, map n | n in out :: Records(m, out[n]), Records(m, s))
  }

  lemma ViewTree(m: Mem, out: map<Node, seq<Id>>, s: seq<Id>, nodes: seq<Node>, n: Node)
    requires Consistent(m, out, s) && n in out
    ensures var g := View(m, out, s, nodes);
            && n in g.out
            && (forall e :: e in g.out[n] ==> e.from == n && e.to in g.out && e.to != n)
            && (forall e, f :: e in g.out[n] && f in g.out[n] && e.to == f.to ==> e == f)
  {
    var g := View(m, out, s, nodes);
    assert TreeOk(m, out, n);
    forall e, f | e in g.out[n] && f in g.out[n] && e.to == f.to
      ensures e == f
    {
      var i :| 0 <= i < |out[n]| && e == EdgeOf(m[out[n][i]]);
      var j :| 0 <= j < |out[n]| && f == EdgeOf(m[out[n][j]]);
      FindLive(m, out, out[n][i]);
      FindLive(m, out, out[n][j]);
    }
  }

  lemma ViewWeight(m: Mem, out: map<Node, seq<Id>>, s: seq<Id>, nodes: seq<Node>, e: MeshGraph.Edge)
    requires Consistent(m, out, s)
    ensures var g := View(m, out, s, nodes);
            e in g.byWeight <==> e.from in g.out && e in g.out[e.from]
  {
    var g := View(m, out, s, nodes);
    Stored(m, out, s);
    if e in g.byWeight {
      var i :| 0 <= i < |s| && e == EdgeOf(m[s[i]]);
      assert Live(m, out, s[i]);
      var k :| 0 <= k < |out[e.from]| && out[e.from][k] == s[i];
      assert g.out[e.from][k] == e;
    }
    if e.from in g.out && e in g.out[e.from] {
      var k :| 0 <= k < |out[e.from]| && e == EdgeOf(m[out[e.from][k]]);
      var x := out[e.from][k];
      assert TreeOk(m, out, e.from);
      assert Live(m, out, x);
      var i :| 0 <= i < |s| && s[i] == x;
      assert g.byWeight[i] == e;
    }
  }

  /** Consistent indices are a well-formed graph. */
  lemma ViewWellFormed(m: Mem, out: map<Node, seq<Id>>, s: seq<Id>, nodes: seq<Node>)
    requires Consistent(m, out, s) && (forall n :: n in nodes <==> n in out)
    requires forall i, j :: 0 <= i < j < |nodes| ==> nodes[i] != nodes[j]
    ensures MeshGraph.WellFormed(View(m, out, s, nodes))
  {
    var g := View(m, out, s, nodes);
    forall n | n in out {
      ViewTree(m, out, s, nodes, n);
    }
    forall e {
      ViewWeight(m, out, s, nodes, e);
    }
    forall i, j | 0 <= i < j < |g.byWeight|
      ensures MeshGraph.Lighter(g.byWeight[i], g.byWeight[j])
    {
      assert ByWeight(m)(s[i], s[j]);
    }
    hide View;
    hide Consistent;
    assert MeshGraph.WellFormed(g);
  }

  /** Its edges are the entries: same weight, and OPTION_INDIRECT if the options are odd. */
  lemma ViewEntries(m: Mem, out: map<Node, seq<Id>>, s: seq<Id>, nodes: seq<Node>, from: Node, to: Node, weight: int, indirect: bool)
    requires Consistent(m, out, s) && NULL !in m
    ensures var g, a := View(m, out, s, nodes), Entry(m, out, from, to);
            from in g.out && MeshGraph.Edge(from, to, weight, indirect) in g.out[from] <==>
            a.Some? && a.value.weight == weight && (a.value.options % 2 == 1 <==> indirect)
  {
    var g, e := View(m, out, s, nodes), Find(m, out, from, to);
    Stored(m, out, s);
    FoundLive(m, out, from, to);
    if e != NULL {
      var k :| 0 <= k < |out[from]| && out[from][k] == e;
      assert g.out[from][k] == EdgeOf(m[e]);
    }
    if from in g.out && MeshGraph.Edge(from, to, weight, indirect) in g.out[from] {
      var k :| 0 <= k < |out[from]| && EdgeOf(m[out[from][k]]) == MeshGraph.Edge(from, to, weight, indirect);
      assert TreeOk(m, out, from);
      assert Live(m, out, out[from][k]);
      FindLive(m, out, out[from][k]);
    }
  }

  /** ... in which an edge has a reverse exactly if its reverse pointer is set. */
  lemma ViewReverse(m: Mem, out: map<Node, seq<Id>>, s: seq<Id>, nodes: seq<Node>, e: Id)
    requires Consistent(m, out, s) && Live(m, out, e)
    ensures MeshGraph.HasReverse(View(m, out, s, nodes), EdgeOf(m[e])) <==> m[e].reverse != NULL
  {
    var g, a := View(m, out, s, nodes), EdgeOf(m[e]);
    assert TreeOk(m, out, m[e].from);
    assert TreeOk(m, out, m[e].to);
    ReversePointsBack(m, out, e);
    var r := m[e].reverse;
    if r != NULL {
      FoundLive(m, out, m[e].to, m[e].from);
      var k :| 0 <= k < |out[m[e].to]| && out[m[e].to][k] == r;
      assert g.out[a.to][k].to == a.from;
    }
    if MeshGraph.HasReverse(g, a) {
      var k :| 0 <= k < |g.out[a.to]| && g.out[a.to][k].to == a.from;
      var x := out[a.to][k];
      assert Live(m, out, x) && m[x].from == m[e].to && m[x].to == m[e].from;
    }
  }
}
