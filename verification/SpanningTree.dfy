/** Spanning trees of an undirected graph, by cuts: a set of links holds a set of nodes
    together when every proper part of the nodes has a link leaving it. */
module SpanningTree {

  type Node = nat

  /** An undirected link; lo < hi for the links of a graph. */
  datatype Link = Link(lo: Node, hi: Node)

  predicate Inside(l: Link, c: set<Node>) { l.lo in c && l.hi in c }

  predicate Crosses(l: Link, x: set<Node>) { (l.lo in x) != (l.hi in x) }

  ghost predicate CutCrossed(links: set<Link>, c: set<Node>, x: set<Node>) {
    exists l :: l in links && Inside(l, c) && Crosses(l, x)
  }

  ghost predicate Spans(links: set<Link>, c: set<Node>) {
    forall x: set<Node> | x <= c && x != {} && x != c :: CutCrossed(links, c, x)
  }

  ghost predicate AllInside(links: set<Link>, c: set<Node>) {
    forall l <- links :: Inside(l, c)
  }

  ghost predicate IsSpanningTree(links: set<Link>, c: set<Node>) {
    AllInside(links, c) && Spans(links, c) && |links| == |c| - 1
  }

  lemma SingletonSpans(links: set<Link>, n: Node)
    ensures Spans(links, {n})
  {
    forall x: set<Node> | x <= {n} && x != {}
      ensures x == {n}
    {
      assert exists y :: y in x;
    }
  }

  /** A link from a spanned set to one more node spans the larger set. */
  lemma SpanGrows(links: set<Link>, k: set<Node>, l: Link, y: Node)
    requires Spans(links, k) && k != {} && y !in k && l in links
    requires Inside(l, k + {y}) && Crosses(l, k)
    ensures Spans(links, k + {y})
  {
    var c := k + {y};
    forall x: set<Node> | x <= c && x != {} && x != c
      ensures CutCrossed(links, c, x)
    {
      var inner := x * k;
      if inner != {} && inner != k {
        assert CutCrossed(links, k, inner);
        var m :| m in links && Inside(m, k) && Crosses(m, inner);
        assert Inside(m, c) && Crosses(m, x);
      } else if inner == {} {
        assert x == {y};
        assert Crosses(l, x);
      } else {
        assert x == k;
      }
    }
  }

  lemma SpanMonotone(links: set<Link>, more: set<Link>, c: set<Node>)
    requires Spans(links, c) && links <= more
    ensures Spans(more, c)
  {
    forall x: set<Node> | x <= c && x != {} && x != c
      ensures CutCrossed(more, c, x)
    {
      assert CutCrossed(links, c, x);
    }
  }

  /** A spanned part lies on one side of any cut its links do not cross. */
  lemma OneSide(links: set<Link>, k: set<Node>, x: set<Node>, a: Node, b: Node)
    requires Spans(links, k) && a in k && b in k && a in x
    requires forall l | l in links && Inside(l, k) :: !Crosses(l, x)
    ensures b in x
  {
    var inner := x * k;
    assert a in inner;
    assert forall l | Inside(l, k) :: Crosses(l, inner) <==> Crosses(l, x);
    assert !CutCrossed(links, k, inner);
    assert inner == k;
  }

  /** The nodes joined to v by links that stay outside s. */
  lemma Component(links: set<Link>, c: set<Node>, s: set<Node>, v: Node) returns (k: set<Node>)
    requires v in c && v !in s
    ensures v in k && k <= c - s && Spans(links, k)
    ensures forall l | l in links && Inside(l, c) && Crosses(l, k) :: Crosses(l, s)
  {
    k := {v};
    SingletonSpans(links, v);
    while exists l :: l in links && Inside(l, c - s) && Crosses(l, k)
      invariant v in k && k <= c - s && Spans(links, k)
      decreases c - k
    {
      var l :| l in links && Inside(l, c - s) && Crosses(l, k);
      var y := if l.lo in k then l.hi else l.lo;
      SpanGrows(links, k, l, y);
      k := k + {y};
    }
  }

  /** The exchange step. A spanning tree that contains a tree of s can trade one link
      leaving s for any other link leaving s. */
  lemma Exchange(tree: set<Link>, c: set<Node>, a: set<Link>, s: set<Node>, e: Link) returns (f: Link)
    requires IsSpanningTree(tree, c) && a <= tree && AllInside(a, s) && Spans(a, s)
    requires s <= c && s != {} && Inside(e, c) && Crosses(e, s)
    ensures f in tree && Crosses(f, s)
    ensures IsSpanningTree(tree - {f} + {e}, c) && a <= tree - {f} + {e}
  {
    if e in tree {
      f := e;
      assert tree - {f} + {e} == tree;
      return;
    }
    var u, v := if e.lo in s then e.lo else e.hi, if e.lo in s then e.hi else e.lo;
    var k := Component(tree, c, s, v);
    assert CutCrossed(tree, c, k);
    f :| f in tree && Inside(f, c) && Crosses(f, k);
    var tree' := tree - {f} + {e};
    forall x: set<Node> | x <= c && x != {} && x != c
      ensures CutCrossed(tree', c, x)
    {
      ExchangeCut(tree, c, a, s, e, f, k, x);
    }
  }

  lemma ExchangeCut(tree: set<Link>, c: set<Node>, a: set<Link>, s: set<Node>, e: Link, f: Link, k: set<Node>, x: set<Node>)
    requires AllInside(tree, c) && Spans(tree, c) && a <= tree && AllInside(a, s) && Spans(a, s)
    requires s <= c && Inside(e, c) && Crosses(e, s) && (e.lo in k || e.hi in k)
    requires k <= c - s && Spans(tree, k) && f in tree && Crosses(f, k) && Crosses(f, s)
    requires x <= c && x != {} && x != c
    ensures CutCrossed(tree - {f} + {e}, c, x)
  {
    var tree' := tree - {f} + {e};
    assert CutCrossed(tree, c, x);
    if l :| l in tree && l != f && Inside(l, c) && Crosses(l, x) {
      assert l in tree';
    } else {
      assert Crosses(f, x);
      var p, q := if f.lo in s then f.lo else f.hi, if f.lo in k then f.lo else f.hi;
      var u, v := if e.lo in s then e.lo else e.hi, if e.lo in k then e.lo else e.hi;
      var side := if p in x then x else c - x;
      OneSide(a, s, side, p, u);
      OneSide(tree, k, c - side, q, v);
      assert Crosses(e, x) && e in tree';
    }
  }

  // Counting and weighing.

  /** Holding c together takes at least |c| - 1 links. */
  lemma SpanNeedsLinks(links: set<Link>, c: set<Node>)
    requires Spans(links, c) && c != {}
    ensures |links| >= |c| - 1
  {
    var n :| n in c;
    var k, used := {n}, {};
    while k != c
      invariant k <= c && k != {} && used <= links && AllInside(used, k) && |used| == |k| - 1
      decreases c - k
    {
      assert CutCrossed(links, c, k);
      var l :| l in links && Inside(l, c) && Crosses(l, k);
      k, used := k + {if l.lo in k then l.hi else l.lo}, used + {l};
    }
    Cardinality(used, links);
  }

  lemma {:induction false} Cardinality<T>(a: set<T>, b: set<T>)
    requires a <= b
    ensures |a| <= |b|
    ensures |a| == |b| ==> a == b
  {
    if a != {} {
      var x :| x in a;
      Cardinality(a - {x}, b - {x});
    }
  }

  /** No link of a spanning tree can be spared: it is acyclic. */
  lemma TreeIsMinimal(tree: set<Link>, c: set<Node>, l: Link)
    requires IsSpanningTree(tree, c) && l in tree
    ensures !Spans(tree - {l}, c)
  {
    if Spans(tree - {l}, c) {
      SpanNeedsLinks(tree - {l}, c);
    }
  }

  ghost function Sum(w: Link -> int, links: set<Link>): (r: int) {
    if links == {} then 0 else var l :| l in links; w(l) + Sum(w, links - {l})
  }

  lemma {:induction false} SumRemove(w: Link -> int, links: set<Link>, l: Link)
    requires l in links
    ensures Sum(w, links) == w(l) + Sum(w, links - {l})
    decreases |links|
  {
    var m :| m in links && Sum(w, links) == w(m) + Sum(w, links - {m});
    if m != l {
      SumRemove(w, links - {m}, l);
      SumRemove(w, links - {l}, m);
      assert links - {m} - {l} == links - {l} - {m};
    }
  }

  lemma SumExchange(w: Link -> int, tree: set<Link>, f: Link, e: Link)
    requires f in tree && (e !in tree || e == f)
    ensures Sum(w, tree - {f} + {e}) == Sum(w, tree) - w(f) + w(e)
  {
    SumRemove(w, tree, f);
    SumRemove(w, tree - {f} + {e}, e);
    assert tree - {f} + {e} - {e} == tree - {f};
  }

  // Growing a minimum spanning tree.

  /** Every spanning tree over `all` can be turned into one that contains `a` and weighs no more. */
  ghost predicate Extends(w: Link -> int, all: set<Link>, c: set<Node>, a: set<Link>) {
    forall tree | tree <= all && IsSpanningTree(tree, c) :: Improvable(w, all, c, a, tree)
  }

  ghost predicate Improvable(w: Link -> int, all: set<Link>, c: set<Node>, a: set<Link>, tree: set<Link>) {
    exists t :: a <= t <= all && IsSpanningTree(t, c) && Sum(w, t) <= Sum(w, tree)
  }

  /** A lightest link leaving s. */
  ghost predicate Lightest(w: Link -> int, all: set<Link>, s: set<Node>, e: Link) {
    e in all && Crosses(e, s) && forall f | f in all && Crosses(f, s) :: w(e) <= w(f)
  }

  lemma Trade(w: Link -> int, all: set<Link>, c: set<Node>, a: set<Link>, s: set<Node>, e: Link, t: set<Link>)
    returns (t': set<Link>)
    requires a <= t <= all && IsSpanningTree(t, c) && AllInside(a, s) && Spans(a, s)
    requires s <= c && s != {} && Inside(e, c) && Lightest(w, all, s, e)
    ensures a + {e} <= t' <= all && IsSpanningTree(t', c) && Sum(w, t') <= Sum(w, t)
  {
    if e in t {
      t' := t;
    } else {
      var f := Exchange(t, c, a, s, e);
      hide IsSpanningTree;
      SumExchange(w, t, f, e);
      t' := t - {f} + {e};
    }
  }

  lemma AddLightest(w: Link -> int, all: set<Link>, c: set<Node>, a: set<Link>, s: set<Node>, e: Link)
    requires Extends(w, all, c, a) && AllInside(all, c) && AllInside(a, s) && Spans(a, s)
    requires s <= c && s != {} && Lightest(w, all, s, e)
    ensures Extends(w, all, c, a + {e})
  {
    hide IsSpanningTree;
    hide Spans;
    hide Sum;
    forall tree | tree <= all && IsSpanningTree(tree, c)
      ensures Improvable(w, all, c, a + {e}, tree)
    {
      assert Improvable(w, all, c, a, tree);
      var t :| a <= t <= all && IsSpanningTree(t, c) && Sum(w, t) <= Sum(w, tree);
      var t' := Trade(w, all, c, a, s, e, t);
      assert a + {e} <= t' <= all;
    }
  }

  /** A tree over all of c that every spanning tree can be turned into is a minimum one. */
  lemma FullTreeIsMinimum(w: Link -> int, all: set<Link>, c: set<Node>, a: set<Link>, tree: set<Link>)
    requires Extends(w, all, c, a) && IsSpanningTree(a, c) && tree <= all && IsSpanningTree(tree, c)
    ensures Sum(w, a) <= Sum(w, tree)
  {
    assert Improvable(w, all, c, a, tree);
    var t :| a <= t <= all && IsSpanningTree(t, c) && Sum(w, t) <= Sum(w, tree);
    Cardinality(a, t);
  }

  // The reading by paths.

  /** p visits links of `links` inside c one after the other, from a to b. */
  ghost predicate IsPath(links: set<Link>, c: set<Node>, a: Node, p: seq<Node>, b: Node) {
    && |p| > 0 && p[0] == a && p[|p| - 1] == b
    && (forall i :: 0 <= i < |p| ==> p[i] in c)
    && (forall i :: 0 < i < |p| ==> Joined(links, p[i - 1], p[i]))
  }

  predicate Joined(links: set<Link>, a: Node, b: Node) { Link(a, b) in links || Link(b, a) in links }

  ghost predicate Connected(links: set<Link>, c: set<Node>, a: Node, b: Node) {
    exists p :: IsPath(links, c, a, p, b)
  }

  lemma PathCrosses(links: set<Link>, c: set<Node>, x: set<Node>, a: Node, p: seq<Node>, b: Node)
    requires IsPath(links, c, a, p, b) && a in x && b !in x
    ensures CutCrossed(links, c, x)
  {
    var i := 0;
    while p[i + 1] in x
      invariant 0 <= i < |p| - 1 && p[i] in x
      decreases |p| - i
    {
      i := i + 1;
    }
    assert Joined(links, p[i], p[i + 1]);
    var l := if Link(p[i], p[i + 1]) in links then Link(p[i], p[i + 1]) else Link(p[i + 1], p[i]);
    assert l in links && Inside(l, c) && Crosses(l, x);
  }

  lemma PathSnoc(links: set<Link>, c: set<Node>, a: Node, b: Node, y: Node)
    requires Connected(links, c, a, b) && y in c && Joined(links, b, y)
    ensures Connected(links, c, a, y)
  {
    var p :| IsPath(links, c, a, p, b);
    assert IsPath(links, c, a, p + [y], y);
  }

  /** Spanning by cuts is connectedness by paths. */
  lemma SpansIffConnected(links: set<Link>, c: set<Node>)
    ensures Spans(links, c) <==> forall a, b | a in c && b in c :: Connected(links, c, a, b)
  {
    if Spans(links, c) {
      forall a, b | a in c && b in c
        ensures Connected(links, c, a, b)
      {
        var x := set y | y in c && Connected(links, c, a, y);
        assert IsPath(links, c, a, [a], a);
        forall l | l in links && Inside(l, c)
          ensures !Crosses(l, x)
        {
          if l.lo in x { PathSnoc(links, c, a, l.lo, l.hi); }
          if l.hi in x { PathSnoc(links, c, a, l.hi, l.lo); }
        }
        OneSide(links, c, x, a, b);
      }
    }
    if forall a, b | a in c && b in c :: Connected(links, c, a, b) {
      forall x: set<Node> | x <= c && x != {} && x != c
        ensures CutCrossed(links, c, x)
      {
        var a :| a in x;
        assert !(c <= x);
        var b :| b in c && b !in x;
        assert Connected(links, c, a, b);
        var p :| IsPath(links, c, a, p, b);
        PathCrosses(links, c, x, a, p, b);
      }
    }
  }
}
