/** Where a descent from the top of a search tree ends. The sign of a node is the
    outcome of comparing the sought key with it. */
module SplaySearch {
  import opened SplayShape
  import opened SplayDown

  /** p, if goal lies in its subtree, sends the descent towards goal and stops it there. */
  ghost predicate OnPath(r: Reading, goal: int, sgn: Ptr -> int, p: Ptr)
    requires In(r, p)
  {
    r.lo[p] <= goal < r.hi[p] ==>
      && (r.pos[p] < goal ==> sgn(p) > 0)
      && (r.pos[p] > goal ==> sgn(p) < 0)
      && (r.pos[p] == goal ==> sgn(p) == 0 || (sgn(p) < 0 && r.lo[p] == goal) || (sgn(p) > 0 && r.hi[p] == goal + 1))
  }

  /** The descent ends at t. */
  ghost predicate EndsAt(r: Reading, sgn: Ptr -> int, t: Ptr) {
    In(r, t) && (forall p :: In(r, p) ==> OnPath(r, r.pos[t], sgn, p))
  }

  /** In the middle part of a tree taken apart. */
  ghost predicate MiddlePath(r: Reading, d: Parts, sgn: Ptr -> int)
    requires In(r, d.root)
  {
    forall p :: In(r, p) && Zone(r, d, p) == 0 ==> OnPath(r, d.goal, sgn, p)
  }

  /** Ranges nest. */
  lemma {:induction false} Within(m: Mem, r: Reading, top: Ptr, q: Ptr, p: Ptr)
    requires Shape(m, r, top) && In(r, q) && In(r, p) && r.lo[q] <= r.pos[p] < r.hi[q]
    ensures r.lo[q] <= r.lo[p] && r.hi[p] <= r.hi[q]
    decreases r.hi[q] - r.lo[q]
  {
    assert Local(m, r, q);
    if r.pos[p] < r.pos[q] {
      assert Local(m, r, m[q].left);
      Within(m, r, top, m[q].left, p);
    } else if r.pos[p] > r.pos[q] {
      assert Local(m, r, m[q].right);
      Within(m, r, top, m[q].right, p);
    } else {
      assert p == q;
    }
  }

  /** A place in the subtree of q at which the descent from q ends. */
  lemma {:induction false} DescentFrom(m: Mem, r: Reading, top: Ptr, sgn: Ptr -> int, q: Ptr) returns (goal: int)
    requires Shape(m, r, top) && In(r, q)
    ensures r.lo[q] <= goal < r.hi[q]
    ensures forall p :: In(r, p) && r.lo[q] <= r.lo[p] && r.hi[p] <= r.hi[q] ==> OnPath(r, goal, sgn, p)
    decreases r.hi[q] - r.lo[q]
  {
    assert Local(m, r, q);
    if sgn(q) < 0 && m[q].left != NULL {
      assert Local(m, r, m[q].left);
      goal := DescentFrom(m, r, top, sgn, m[q].left);
    } else if sgn(q) > 0 && m[q].right != NULL {
      assert Local(m, r, m[q].right);
      goal := DescentFrom(m, r, top, sgn, m[q].right);
    } else {
      goal := r.pos[q];
    }
    forall p | In(r, p) && r.lo[q] <= r.lo[p] && r.hi[p] <= r.hi[q]
      ensures OnPath(r, goal, sgn, p)
    {
      InSubtree(m, r, top, q, p);
    }
  }

  /** A node below q is q or on one side of it. */
  lemma InSubtree(m: Mem, r: Reading, top: Ptr, q: Ptr, p: Ptr)
    requires Shape(m, r, top) && In(r, q) && In(r, p) && r.lo[q] <= r.lo[p] && r.hi[p] <= r.hi[q]
    ensures r.lo[q] <= r.pos[q] < r.hi[q] && r.lo[p] <= r.pos[p] < r.hi[p]
    ensures p == q || r.hi[p] <= r.pos[q] || r.pos[q] < r.lo[p]
  {
    assert Local(m, r, q) && Local(m, r, p);
    if r.pos[p] < r.pos[q] {
      assert Local(m, r, m[q].left);
      Within(m, r, top, m[q].left, p);
    } else if r.pos[p] > r.pos[q] {
      assert Local(m, r, m[q].right);
      Within(m, r, top, m[q].right, p);
    }
  }

  /** Every descent ends somewhere. */
  lemma DescentEnds(m: Mem, r: Reading, top: Ptr, sgn: Ptr -> int) returns (t: Ptr)
    requires Shape(m, r, top) && r.ns != []
    ensures EndsAt(r, sgn, t)
  {
    var goal := DescentFrom(m, r, top, sgn, top);
    t := r.ns[goal];
    forall p | In(r, p)
      ensures OnPath(r, r.pos[t], sgn, p)
    {
      assert Local(m, r, p);
    }
  }

  lemma {:induction false} EndUnique(m: Mem, r: Reading, top: Ptr, sgn: Ptr -> int, t: Ptr, u: Ptr, q: Ptr)
    requires Shape(m, r, top) && EndsAt(r, sgn, t) && EndsAt(r, sgn, u) && In(r, q)
    requires r.lo[q] <= r.pos[t] < r.hi[q] && r.lo[q] <= r.pos[u] < r.hi[q]
    ensures t == u
    decreases r.hi[q] - r.lo[q]
  {
    assert Local(m, r, q);
    assert OnPath(r, r.pos[t], sgn, q) && OnPath(r, r.pos[u], sgn, q);
    if r.pos[t] < r.pos[q] && r.pos[u] < r.pos[q] {
      assert Local(m, r, m[q].left);
      EndUnique(m, r, top, sgn, t, u, m[q].left);
    } else if r.pos[t] > r.pos[q] && r.pos[u] > r.pos[q] {
      assert Local(m, r, m[q].right);
      EndUnique(m, r, top, sgn, t, u, m[q].right);
    } else {
      assert r.pos[t] == r.pos[u];
    }
  }

  /** ... and at one node only: whatever ends where the plain descent does ends at the
      same node. */
  lemma EndsOnce(m: Mem, r: Reading, top: Ptr, sgn: Ptr -> int, t: Ptr, u: Ptr)
    requires Shape(m, r, top) && EndsAt(r, sgn, t) && EndsAt(r, sgn, u)
    ensures t == u
  {
    EndUnique(m, r, top, sgn, t, u, top);
  }

  /** Of two neighbours, the left one is above the right one unless the right one has a left subtree. */
  lemma {:induction false} LeftNeighbour(m: Mem, r: Reading, top: Ptr, t: Ptr, s: Ptr, q: Ptr)
    requires Shape(m, r, top) && In(r, t) && In(r, s) && In(r, q) && r.pos[s] + 1 == r.pos[t]
    requires r.lo[t] == r.pos[t] && r.lo[q] <= r.pos[s] && r.pos[t] < r.hi[q]
    ensures r.lo[s] <= r.pos[t] < r.hi[s]
    decreases r.hi[q] - r.lo[q]
  {
    assert Local(m, r, q);
    if r.pos[q] < r.pos[s] {
      assert Local(m, r, m[q].right);
      LeftNeighbour(m, r, top, t, s, m[q].right);
    } else if r.pos[q] > r.pos[t] {
      assert Local(m, r, m[q].left);
      LeftNeighbour(m, r, top, t, s, m[q].left);
    } else {
      assert q == s;
    }
  }

  lemma {:induction false} RightNeighbour(m: Mem, r: Reading, top: Ptr, t: Ptr, s: Ptr, q: Ptr)
    requires Shape(m, r, top) && In(r, t) && In(r, s) && In(r, q) && r.pos[t] + 1 == r.pos[s]
    requires r.hi[t] == r.pos[s] && r.lo[q] <= r.pos[t] && r.pos[s] < r.hi[q]
    ensures r.lo[s] <= r.pos[t] < r.hi[s]
    decreases r.hi[q] - r.lo[q]
  {
    assert Local(m, r, q);
    if r.pos[q] < r.pos[t] {
      assert Local(m, r, m[q].right);
      RightNeighbour(m, r, top, t, s, m[q].right);
    } else if r.pos[q] > r.pos[s] {
      assert Local(m, r, m[q].left);
      RightNeighbour(m, r, top, t, s, m[q].left);
    } else {
      assert q == s;
    }
  }

  /** The node at which a descent ends is next to the key: if the key comes before it,
      the node before it comes before the key, and the other way round. */
  lemma EndIsClosest(m: Mem, r: Reading, top: Ptr, sgn: Ptr -> int, t: Ptr)
    requires Shape(m, r, top) && EndsAt(r, sgn, t)
    ensures sgn(t) < 0 && r.pos[t] > 0 ==> sgn(r.ns[r.pos[t] - 1]) > 0
    ensures sgn(t) > 0 && r.pos[t] + 1 < |r.ns| ==> sgn(r.ns[r.pos[t] + 1]) < 0
  {
    assert Local(m, r, t);
    assert OnPath(r, r.pos[t], sgn, t);
    if sgn(t) < 0 && r.pos[t] > 0 {
      var s := r.ns[r.pos[t] - 1];
      LeftNeighbour(m, r, top, t, s, top);
      assert OnPath(r, r.pos[t], sgn, s);
    }
    if sgn(t) > 0 && r.pos[t] + 1 < |r.ns| {
      var s := r.ns[r.pos[t] + 1];
      RightNeighbour(m, r, top, t, s, top);
      assert OnPath(r, r.pos[t], sgn, s);
    }
  }
}
