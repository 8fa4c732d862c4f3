/** The comparisons that tinc gives its splay trees, and the trees as the indices of edges
    and subnets. */
module TreeOrders {
  import opened Basics
  import opened SplayOrder
  import opened SplayIndex
  import I = OrderedIndex
  import MeshGraph
  import E = Edges
  import S = SubnetOrder

  /** edge_compare. */
  function EdgeCompare(a: E.EdgeRec, b: E.EdgeRec): (c: int) { a.to - b.to }

  /** edge_weight_compare. */
  function EdgeWeightCompare(a: E.EdgeRec, b: E.EdgeRec): (c: int) {
    if a.weight != b.weight then a.weight - b.weight else if a.from != b.from then a.from - b.from else a.to - b.to
  }

  lemma Lighter(a: E.EdgeRec, b: E.EdgeRec)
    ensures Under(EdgeWeightCompare)(a, b) <==> MeshGraph.Lighter(E.EdgeOf(a), E.EdgeOf(b))
  {
    assert EdgeWeightCompare(a, b) < 0 <==> MeshGraph.Lighter(E.EdgeOf(a), E.EdgeOf(b));
  }

  lemma EdgesLawful()
    ensures Lawful(EdgeCompare) && Even(EdgeCompare) && Lawful(EdgeWeightCompare) && Even(EdgeWeightCompare)
  {
  }

  /** The record at an address. */
  ghost function RecordAt(m: E.Mem): (f: E.Id -> E.EdgeRec)
    requires m != map[]
  {
    var a :| a in m;
    e => if e in m then m[e] else m[a]
  }

  /** The edge indices, read as records, are what insertion into and deletion from the two
      splay trees make of them. */
  lemma EdgeIndices(m: E.Mem, s: seq<E.Id>, e: E.Id)
    requires e in m && forall x :: x in s ==> x in m
    ensures I.Image(RecordAt(m), I.Insert(E.ByTo(m), s, e)) == I.Insert(Under(EdgeCompare), I.Image(RecordAt(m), s), m[e])
    ensures I.Image(RecordAt(m), I.Delete(E.ByTo(m), s, e)) == I.Delete(Under(EdgeCompare), I.Image(RecordAt(m), s), m[e])
    ensures I.Image(RecordAt(m), I.Insert(E.ByWeight(m), s, e)) == I.Insert(Under(EdgeWeightCompare), I.Image(RecordAt(m), s), m[e])
    ensures I.Image(RecordAt(m), I.Delete(E.ByWeight(m), s, e)) == I.Delete(Under(EdgeWeightCompare), I.Image(RecordAt(m), s), m[e])
  {
    I.ImageInsert(E.ByTo(m), Under(EdgeCompare), RecordAt(m), s, e);
    forall x | x in s
      ensures E.ByWeight(m)(x, e) == Under(EdgeWeightCompare)(RecordAt(m)(x), RecordAt(m)(e))
      ensures E.ByWeight(m)(e, x) == Under(EdgeWeightCompare)(RecordAt(m)(e), RecordAt(m)(x))
    {
      E.WeightIs(m, x, e);
      E.WeightIs(m, e, x);
      Lighter(m[x], m[e]);
      Lighter(m[e], m[x]);
    }
    I.ImageInsert(E.ByWeight(m), Under(EdgeWeightCompare), RecordAt(m), s, e);
  }

  /** An ownerless subnet may compare equal to several, so that equal ones need not compare
      alike; the order is strict all the same. */
  lemma SubnetsLawful()
    ensures Lawful(S.Compare) && !Even(S.Compare)
    ensures forall a, b :: S.Before()(a, b) == Under(S.Compare)(a, b)
  {
    hide S.Compare;
    forall a, b
      ensures S.Compare(a, b) < 0 <==> S.Compare(b, a) > 0
    {
      S.CompareFlip(a, b);
    }
    forall a, b, c | S.Compare(a, b) < 0 && S.Compare(b, c) < 0
      ensures S.Compare(a, c) < 0
    {
      S.CompareChain(a, b, c);
    }
    NotEven();
  }

  lemma NotEven()
    ensures !Even(S.Compare)
  {
    var x := S.Subnet(None, S.Ipv4, 32, [10, 0, 0, 1], 10);
    var a, b := x.(owner := Some([97])), x.(owner := Some([98]));
    assert S.Compare(x, a) == 0 && S.Compare(a, b) < 0 && S.Compare(x, b) == 0;
  }
}
