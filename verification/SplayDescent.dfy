/** The steps of top-down splaying, and where they lead. */
module SplayDescent {
  import opened SplayShape
  import opened SplayDown
  import opened SplaySearch
  import opened SplayMerge
  import opened SplayUp

  /** What comparing with the middle root says about the goal. */
  lemma RootSide(m: Mem, r: Reading, d: Parts, sgn: Ptr -> int)
    requires Apart(m, r, d) && MiddlePath(r, d, sgn)
    ensures d.root in m
    ensures sgn(d.root) < 0 && m[d.root].left != NULL ==> d.goal < r.pos[d.root]
    ensures sgn(d.root) > 0 && m[d.root].right != NULL ==> r.pos[d.root] < d.goal
    ensures sgn(d.root) == 0 || (sgn(d.root) < 0 && m[d.root].left == NULL) || (sgn(d.root) > 0 && m[d.root].right == NULL)
            ==> r.pos[d.root] == d.goal
  {
    assert LocalDown(m, r, d, d.root);
    assert OnPath(r, d.goal, sgn, d.root);
  }

  /** What comparing with a child of the middle root says. */
  lemma ChildSide(m: Mem, r: Reading, d: Parts, sgn: Ptr -> int, side: bool, c: Ptr)
    requires Apart(m, r, d) && MiddlePath(r, d, sgn) && Kid(m[d.root], side) == c && c != NULL
    requires if side then r.pos[d.root] < d.goal else d.goal < r.pos[d.root]
    requires c in m && Kid(m[c], side) != NULL && (if side then sgn(c) > 0 else sgn(c) < 0)
    ensures In(r, c) && if side then r.pos[c] < d.goal else d.goal < r.pos[c]
  {
    InMiddle(m, r, d, side, c);
    assert LocalDown(m, r, d, c);
    assert OnPath(r, d.goal, sgn, c);
  }

  lemma CutPath(m: Mem, r: Reading, d: Parts, sgn: Ptr -> int, side: bool, c: Ptr)
    requires Apart(m, r, d) && MiddlePath(r, d, sgn) && Kid(m[d.root], side) == c && c != NULL
    requires if side then r.pos[d.root] < d.goal else d.goal < r.pos[d.root]
    ensures In(Cut(r, d, side), c) && MiddlePath(Cut(r, d, side), Shifted(d, side, c), sgn)
  {
    InMiddle(m, r, d, side, c);
    var r', d' := Cut(r, d, side), Shifted(d, side, c);
    forall p | In(r', p) && Zone(r', d', p) == 0
      ensures OnPath(r', d'.goal, sgn, p)
    {
      assert In(r, p) && p != d.root && Zone(r, d, p) == 0;
      assert OnPath(r, d.goal, sgn, p);
    }
  }

  lemma TurnPath(m: Mem, r: Reading, d: Parts, sgn: Ptr -> int, side: bool, c: Ptr)
    requires Apart(m, r, d) && MiddlePath(r, d, sgn) && Kid(m[d.root], side) == c && c != NULL && In(r, c)
    requires if side then r.pos[c] < d.goal && sgn(c) > 0 else d.goal < r.pos[c] && sgn(c) < 0
    ensures In(Turned(r, d, side, c), c) && MiddlePath(Turned(r, d, side, c), d.(root := c), sgn)
  {
    InMiddle(m, r, d, side, c);
    var r', d' := Turned(r, d, side, c), d.(root := c);
    forall p | In(r', p) && Zone(r', d', p) == 0
      ensures OnPath(r', d'.goal, sgn, p)
    {
      assert In(r, p) && Zone(r, d, p) == 0;
      assert OnPath(r, d.goal, sgn, p);
    }
  }

  /** The stores of a zig-zig step, in the order of the code. */
  function ZigZigDown(m: Mem, side: bool, root: Ptr, child: Ptr, grandchild: Ptr, b: Ptr): (r: Mem)
    requires root in m && child in m && grandchild in m && b in m
  {
    var m1 := SetParent(SetKid(m, b, side, child), child, b);
    var m2 := SetKid(m1, root, side, Kid(m1[child], !side));
    var m3 := SetParent(m2, Kid(m2[child], !side), root);
    var m4 := SetParent(SetKid(m3, child, !side, root), root, child);
    SetParent(SetKid(m4, child, side, NULL), grandchild, NULL)
  }

  /** The stores of a zig-zag step, in the order of the code; child goes below c, root below b. */
  function ZigZagDown(m: Mem, side: bool, root: Ptr, child: Ptr, grandchild: Ptr, c: Ptr, b: Ptr): (r: Mem)
    requires root in m && child in m && grandchild in m && b in m && c in m
  {
    var m1 := SetParent(SetKid(m, c, !side, child), child, c);
    var m2 := SetParent(SetKid(m1, child, !side, NULL), grandchild, NULL);
    var m3 := SetParent(SetKid(m2, b, side, root), root, b);
    SetKid(m3, root, side, NULL)
  }

  ghost predicate Distinct(m: Mem, root: Ptr, child: Ptr, grandchild: Ptr, c: Ptr, b: Ptr) {
    && NULL !in m && root in m && child in m && grandchild in m && b in m && c in m
    && root != child && root != grandchild && root != b && root != c && child != grandchild
    && child != b && child != c && grandchild != b && grandchild != c && b != c
  }

  lemma ZigZigAt(m: Mem, side: bool, root: Ptr, child: Ptr, grandchild: Ptr, c: Ptr, b: Ptr, x: Ptr)
    requires Distinct(m, root, child, grandchild, c, b) && x in m
    requires var a := Kid(m[child], !side); a != root && a != child && a != b && a != grandchild
    ensures var t := Turn(m, side, root, child);
            t.Keys == m.Keys && Move(t, side, child, grandchild, b).Keys == m.Keys == ZigZigDown(m, side, root, child, grandchild, b).Keys
            && Move(t, side, child, grandchild, b)[x] == ZigZigDown(m, side, root, child, grandchild, b)[x]
  {
  }

  lemma ZigZagAt(m: Mem, side: bool, root: Ptr, child: Ptr, grandchild: Ptr, c: Ptr, b: Ptr, x: Ptr)
    requires Distinct(m, root, child, grandchild, c, b) && x in m
    ensures var t := Move(m, side, root, child, b);
            t.Keys == m.Keys && Move(t, !side, child, grandchild, c).Keys == m.Keys == ZigZagDown(m, side, root, child, grandchild, c, b).Keys
            && Move(t, !side, child, grandchild, c)[x] == ZigZagDown(m, side, root, child, grandchild, c, b)[x]
  {
  }

  lemma FamilyDown(m: Mem, r: Reading, d: Parts, side: bool, other: bool, child: Ptr, grandchild: Ptr)
    requires Apart(m, r, d) && Kid(m[d.root], side) == child && child != NULL && child in m
    requires Kid(m[child], other) == grandchild && grandchild != NULL
    ensures Distinct(m, d.root, child, grandchild, Bottom(d, !side), Bottom(d, side))
    ensures var a := Kid(m[child], !other); a != d.root && a != child && a != grandchild && a != Bottom(d, side)
    ensures In(r, child) && In(r, grandchild)
    ensures r.lo[d.root] <= r.lo[child] <= r.lo[grandchild] < r.hi[grandchild] <= r.hi[child] <= r.hi[d.root]
    ensures r.hi[child] - r.lo[child] < r.hi[d.root] - r.lo[d.root]
  {
    assert LocalDown(m, r, d, d.root);
    assert LocalDown(m, r, d, child);
    assert LocalDown(m, r, d, grandchild);
    BottomIs(m, r, d, true);
    BottomIs(m, r, d, false);
    var a := Kid(m[child], !other);
    if a != NULL {
      assert LocalDown(m, r, d, a);
    }
    hide Numbered;
    hide LeftPart;
    hide RightPart;
  }

  /** The bottoms are outside the middle part. */
  lemma BottomIs(m: Mem, r: Reading, d: Parts, side: bool)
    requires Apart(m, r, d)
    ensures Bottom(d, side) in m && (In(r, Bottom(d, side)) ==> if side then Zone(r, d, d.lb) < 0 else Zone(r, d, d.rb) > 0)
    ensures d.lb != d.rb
  {
    if In(r, d.lb) {
      assert LocalDown(m, r, d, d.lb);
    }
    if In(r, d.rb) {
      assert LocalDown(m, r, d, d.rb);
    }
  }

  lemma ZigZigIs(m: Mem, side: bool, root: Ptr, child: Ptr, grandchild: Ptr, c: Ptr, b: Ptr)
    requires Distinct(m, root, child, grandchild, c, b)
    requires var a := Kid(m[child], !side); a != root && a != child && a != b && a != grandchild
    ensures Turn(m, side, root, child).Keys == m.Keys
    ensures Move(Turn(m, side, root, child), side, child, grandchild, b) == ZigZigDown(m, side, root, child, grandchild, b)
  {
    ZigZigAt(m, side, root, child, grandchild, c, b, root);
    forall x | x in m {
      ZigZigAt(m, side, root, child, grandchild, c, b, x);
    }
    hide *;
  }

  lemma ZigZagIs(m: Mem, side: bool, root: Ptr, child: Ptr, grandchild: Ptr, c: Ptr, b: Ptr)
    requires Distinct(m, root, child, grandchild, c, b)
    ensures Move(m, side, root, child, b).Keys == m.Keys
    ensures Move(Move(m, side, root, child, b), !side, child, grandchild, c) == ZigZagDown(m, side, root, child, grandchild, c, b)
  {
    ZigZagAt(m, side, root, child, grandchild, c, b, root);
    forall x | x in m {
      ZigZagAt(m, side, root, child, grandchild, c, b, x);
    }
    hide *;
  }

  lemma ZigZigStep(m: Mem, r: Reading, d: Parts, sgn: Ptr -> int, side: bool, child: Ptr, grandchild: Ptr) returns (r': Reading)
    requires Apart(m, r, d) && MiddlePath(r, d, sgn) && Kid(m[d.root], side) == child && child != NULL && child in m
    requires if side then sgn(d.root) > 0 && sgn(child) > 0 else sgn(d.root) < 0 && sgn(child) < 0
    requires Kid(m[child], side) == grandchild && grandchild != NULL
    ensures Distinct(m, d.root, child, grandchild, Bottom(d, !side), Bottom(d, side))
    ensures Apart(ZigZigDown(m, side, d.root, child, grandchild, Bottom(d, side)), r', Shifted(d.(root := child), side, grandchild))
    ensures MiddlePath(r', Shifted(d.(root := child), side, grandchild), sgn)
    ensures r'.ns == r.ns && r'.pos == r.pos && r'.hi[grandchild] - r'.lo[grandchild] < r.hi[d.root] - r.lo[d.root]
  {
    RootSide(m, r, d, sgn);
    FamilyDown(m, r, d, side, side, child, grandchild);
    ChildSide(m, r, d, sgn, side, child);
    TurnApart(m, r, d, side, child);
    TurnPath(m, r, d, sgn, side, child);
    ZigZigIs(m, side, d.root, child, grandchild, Bottom(d, !side), Bottom(d, side));
    var m1, r1, d1 := Turn(m, side, d.root, child), Turned(r, d, side, child), d.(root := child);
    assert Kid(m1[child], side) == grandchild;
    assert Bottom(d1, side) == Bottom(d, side);
    assert r1.pos == r.pos && r1.ns == r.ns && In(r1, grandchild);
    assert r1.lo[grandchild] == r.lo[grandchild] && r1.hi[grandchild] == r.hi[grandchild];
    hide Turn;
    hide Turned;
    hide Apart;
    hide MiddlePath;
    hide Move;
    hide ZigZigDown;
    MoveApart(m1, r1, d1, side, grandchild);
    CutPath(m1, r1, d1, sgn, side, grandchild);
    r' := Cut(r1, d1, side);
  }

  lemma ZigZagStep(m: Mem, r: Reading, d: Parts, sgn: Ptr -> int, side: bool, child: Ptr, grandchild: Ptr) returns (r': Reading)
    requires Apart(m, r, d) && MiddlePath(r, d, sgn) && Kid(m[d.root], side) == child && child != NULL && child in m
    requires if side then sgn(d.root) > 0 && sgn(child) < 0 else sgn(d.root) < 0 && sgn(child) > 0
    requires Kid(m[child], !side) == grandchild && grandchild != NULL
    ensures Distinct(m, d.root, child, grandchild, Bottom(d, !side), Bottom(d, side))
    ensures Apart(ZigZagDown(m, side, d.root, child, grandchild, Bottom(d, !side), Bottom(d, side)), r', Shifted(Shifted(d, side, child), !side, grandchild))
    ensures MiddlePath(r', Shifted(Shifted(d, side, child), !side, grandchild), sgn)
    ensures r'.ns == r.ns && r'.pos == r.pos && r'.hi[grandchild] - r'.lo[grandchild] < r.hi[d.root] - r.lo[d.root]
  {
    RootSide(m, r, d, sgn);
    FamilyDown(m, r, d, side, !side, child, grandchild);
    MoveApart(m, r, d, side, child);
    CutPath(m, r, d, sgn, side, child);
    ZigZagIs(m, side, d.root, child, grandchild, Bottom(d, !side), Bottom(d, side));
    var m1, r1, d1 := Move(m, side, d.root, child, Bottom(d, side)), Cut(r, d, side), Shifted(d, side, child);
    assert Kid(m1[child], !side) == grandchild;
    assert Bottom(d1, !side) == Bottom(d, !side) && d1.root == child;
    assert r1.pos == r.pos && r1.ns == r.ns && In(r1, grandchild);
    assert r1.lo[grandchild] == r.lo[grandchild] && r1.hi[grandchild] == r.hi[grandchild];
    hide Apart;
    hide MiddlePath;
    hide Move;
    hide ZigZagDown;
    RootSide(m1, r1, d1, sgn);
    MoveApart(m1, r1, d1, !side, grandchild);
    CutPath(m1, r1, d1, sgn, !side, grandchild);
    r' := Cut(r1, d1, !side);
  }

  lemma Kept(m0: Mem, m: Mem, p: Ptr, side: bool, x: Ptr)
    requires SameThreads(m0, m)
    ensures SameThreads(m0, SetParent(m, p, x)) && (p in m ==> SameThreads(m0, SetKid(m, p, side, x)))
  {
  }

  lemma ZigZigThreads(m: Mem, side: bool, root: Ptr, child: Ptr, grandchild: Ptr, b: Ptr)
    requires root in m && child in m && grandchild in m && b in m
    ensures SameThreads(m, ZigZigDown(m, side, root, child, grandchild, b))
  {
    hide SetParent;
    hide SetKid;
    hide Kid;
    Kept(m, m, b, side, child);
    var n1 := SetKid(m, b, side, child);
    Kept(m, n1, child, side, b);
    var m1 := SetParent(n1, child, b);
    Kept(m, m1, root, side, Kid(m1[child], !side));
    var m2 := SetKid(m1, root, side, Kid(m1[child], !side));
    Kept(m, m2, Kid(m2[child], !side), side, root);
    var m3 := SetParent(m2, Kid(m2[child], !side), root);
    Kept(m, m3, child, !side, root);
    var n4 := SetKid(m3, child, !side, root);
    Kept(m, n4, root, side, child);
    var m4 := SetParent(n4, root, child);
    Kept(m, m4, child, side, NULL);
    Kept(m, SetKid(m4, child, side, NULL), grandchild, side, NULL);
  }

  lemma ZigZagThreads(m: Mem, side: bool, root: Ptr, child: Ptr, grandchild: Ptr, c: Ptr, b: Ptr)
    requires root in m && child in m && grandchild in m && b in m && c in m
    ensures SameThreads(m, ZigZagDown(m, side, root, child, grandchild, c, b))
  {
    hide SetParent;
    hide SetKid;
    Kept(m, m, c, !side, child);
    var n1 := SetKid(m, c, !side, child);
    Kept(m, n1, child, side, c);
    var m1 := SetParent(n1, child, c);
    Kept(m, m1, child, !side, NULL);
    var n2 := SetKid(m1, child, !side, NULL);
    Kept(m, n2, grandchild, side, NULL);
    var m2 := SetParent(n2, grandchild, NULL);
    Kept(m, m2, b, side, root);
    var n3 := SetKid(m2, b, side, root);
    Kept(m, n3, root, side, b);
    Kept(m, SetParent(n3, root, b), root, side, NULL);
  }

  lemma MoveThreads(m: Mem, side: bool, root: Ptr, c: Ptr, b: Ptr)
    requires root in m && c in m && b in m
    ensures SameThreads(m, Move(m, side, root, c, b))
  {
    hide SetParent;
    hide SetKid;
    Kept(m, m, b, side, root);
    var n1 := SetKid(m, b, side, root);
    Kept(m, n1, root, side, b);
    var m1 := SetParent(n1, root, b);
    Kept(m, m1, root, side, NULL);
    Kept(m, SetKid(m1, root, side, NULL), c, side, NULL);
  }

  lemma MergeThreads(m: Mem, side: bool, h: Ptr, root: Ptr, b: Ptr)
    requires h in m && root in m && b in m
    ensures SameThreads(m, Merge(m, side, h, root, b))
  {
    hide SetParent;
    hide SetKid;
    hide Kid;
    var s, a := Kid(m[h], !side), Kid(m[root], side);
    Kept(m, m, b, !side, a);
    var n1 := SetKid(m, b, !side, a);
    Kept(m, n1, a, side, b);
    var m1 := if a == NULL then m else SetParent(n1, a, b);
    Kept(m, m1, root, side, s);
    Kept(m, SetKid(m1, root, side, s), s, side, root);
  }

  /** The last step: the search ends at a child of the middle root. */
  lemma ZigStep(m: Mem, r: Reading, d: Parts, sgn: Ptr -> int, side: bool, child: Ptr)
    requires Apart(m, r, d) && MiddlePath(r, d, sgn) && Kid(m[d.root], side) == child && child != NULL && child in m
    requires if side then sgn(d.root) > 0 else sgn(d.root) < 0
    requires sgn(child) == 0 || (sgn(child) < 0 && m[child].left == NULL) || (sgn(child) > 0 && m[child].right == NULL)
    ensures Bottom(d, side) in m
    ensures Apart(Move(m, side, d.root, child, Bottom(d, side)), Cut(r, d, side), Shifted(d, side, child))
    ensures In(r, child) && r.pos[child] == d.goal
  {
    RootSide(m, r, d, sgn);
    InMiddle(m, r, d, side, child);
    assert LocalDown(m, r, d, child);
    assert OnPath(r, d.goal, sgn, child);
    hide *;
    MoveApart(m, r, d, side, child);
  }

  lemma StartPath(m: Mem, r: Reading, top: Ptr, sgn: Ptr -> int, d: Parts, t: Ptr)
    requires Shape(m, r, top) && EndsAt(r, sgn, t) && d.root == top && d.goal == r.pos[t]
    ensures In(r, d.root) && MiddlePath(r, d, sgn)
  {
  }
}
