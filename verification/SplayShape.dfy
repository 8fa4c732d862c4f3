/** The memory of a splay tree, its in-order reading, and rotations. */
module SplayShape {

  /** A node address; NULL is the null pointer. */
  type Ptr = nat
  const NULL: Ptr := 0

  /** The pointer fields of splay_node_t. */
  datatype Cell = Cell(next: Ptr, prev: Ptr, parent: Ptr, left: Ptr, right: Ptr)

  type Mem = map<Ptr, Cell>

  /** The in-order reading: the nodes in order, each node's place in it, and the range
      [lo, hi) of places that its subtree holds. */
  datatype Reading = Reading(ns: seq<Ptr>, pos: map<Ptr, int>, lo: map<Ptr, int>, hi: map<Ptr, int>)

  predicate In(r: Reading, p: Ptr) {
    p in r.pos && 0 <= r.pos[p] < |r.ns| && r.ns[r.pos[p]] == p && p in r.lo && p in r.hi
  }

  ghost predicate Numbered(m: Mem, r: Reading) {
    forall i :: 0 <= i < |r.ns| ==> In(r, r.ns[i]) && r.pos[r.ns[i]] == i && r.ns[i] in m && r.ns[i] != NULL
  }

  /** The subtree at p, hanging from q, holds exactly the places lo up to hi. */
  predicate Holds(m: Mem, r: Reading, p: Ptr, q: Ptr, lo: int, hi: int) {
    if lo == hi then p == NULL
    else In(r, p) && p in m && m[p].parent == q && r.lo[p] == lo && r.hi[p] == hi
  }

  /** The links of p agree with the ranges around it. */
  predicate Local(m: Mem, r: Reading, p: Ptr) {
    && In(r, p) && p in m
    && 0 <= r.lo[p] <= r.pos[p] < r.hi[p] <= |r.ns|
    && Holds(m, r, m[p].left, p, r.lo[p], r.pos[p])
    && Holds(m, r, m[p].right, p, r.pos[p] + 1, r.hi[p])
  }

  /** p is linked from its parent; only top has none. */
  predicate Hung(m: Mem, r: Reading, top: Ptr, p: Ptr) {
    p in m &&
    if p == top then m[p].parent == NULL
    else var q := m[p].parent; In(r, q) && q in m && (m[q].left == p || m[q].right == p)
  }

  /** A search tree over r.ns whose topmost node is top. */
  ghost predicate Shape(m: Mem, r: Reading, top: Ptr) {
    && Numbered(m, r)
    && (forall p {:trigger Local(m, r, p)} :: In(r, p) ==> Local(m, r, p) && Hung(m, r, top, p))
    && (if r.ns == [] then top == NULL else In(r, top) && r.lo[top] == 0 && r.hi[top] == |r.ns|)
  }

  function SetLeft(m: Mem, p: Ptr, x: Ptr): (r: Mem)
    requires p in m
  { m[p := m[p].(left := x)] }

  function SetRight(m: Mem, p: Ptr, x: Ptr): (r: Mem)
    requires p in m
  { m[p := m[p].(right := x)] }

  function SetParent(m: Mem, p: Ptr, x: Ptr): (r: Mem) {
    if p in m then m[p := m[p].(parent := x)] else m
  }

  predicate IsLeft(m: Mem, p: Ptr) { p in m && m[p].parent in m && m[m[p].parent].left == p }

  predicate IsRight(m: Mem, p: Ptr) { p in m && m[p].parent in m && m[m[p].parent].right == p }

  /** p takes the place of its parent q, whose left child it is. */
  function RotateRight(m: Mem, p: Ptr): (r: Mem)
    requires p in m && m[p].parent in m
  {
    var q := m[p].parent;
    var b, up := m[p].right, m[q].parent;
    var m1 := SetParent(SetLeft(m, q, b), b, q);
    var m2 := SetParent(SetParent(SetRight(m1, p, q), q, p), p, up);
    if up !in m2 then m2 else if m2[up].left == q then SetLeft(m2, up, p) else SetRight(m2, up, p)
  }

  /** Node by node, what rotating p over its parent q does. */
  ghost predicate RotatedRight(m: Mem, m': Mem, p: Ptr, q: Ptr, b: Ptr, up: Ptr) {
    && m'.Keys == m.Keys && p in m && q in m
    && m'[p] == m[p].(right := q, parent := up)
    && m'[q] == m[q].(left := b, parent := p)
    && (b in m ==> m'[b] == m[b].(parent := q))
    && (up in m ==> m'[up] == if m[up].left == q then m[up].(left := p) else m[up].(right := p))
    && (forall x | x in m && x != p && x != q && x != b && x != up :: m'[x] == m[x])
  }

  /** p is the left child of q, b its own right child and up the parent of q. */
  ghost predicate LeftChild(m: Mem, r: Reading, top: Ptr, p: Ptr, q: Ptr, b: Ptr, up: Ptr) {
    && Local(m, r, p) && Local(m, r, q) && Hung(m, r, top, q) && NULL !in m
    && m[p].parent == q && m[q].left == p && m[p].right == b && m[q].parent == up
    && p != top && p != q && b != p && b != q && up != p && up != q && (b != NULL ==> b != up && b in m && m[b].parent == p)
    && (up != NULL ==> Local(m, r, up) && (m[up].left == q) != (m[up].right == q))
    && (up == NULL <==> q == top)
  }

  lemma AroundLeft(m: Mem, r: Reading, top: Ptr, p: Ptr)
    requires NULL !in m && Shape(m, r, top) && In(r, p) && p != top && IsLeft(m, p)
    ensures var q := m[p].parent;
            q in m && LeftChild(m, r, top, p, q, m[p].right, m[q].parent)
  {
    assert Local(m, r, p);
    var q := m[p].parent;
    assert Local(m, r, q);
    var up := m[q].parent;
    if q != top {
      assert Local(m, r, up);
    }
  }

  lemma RotateRightCells(m: Mem, r: Reading, top: Ptr, p: Ptr, q: Ptr, b: Ptr, up: Ptr)
    requires LeftChild(m, r, top, p, q, b, up)
    ensures RotatedRight(m, RotateRight(m, p), p, q, b, up)
  {
    assert up != NULL ==> up in m;
    assert b !in m ==> b == NULL;
    hide Local;
    hide Hung;
    hide In;
  }

  lemma MovedLocal(m: Mem, m': Mem, r: Reading, r': Reading, top: Ptr, p: Ptr, q: Ptr, b: Ptr, up: Ptr)
    requires LeftChild(m, r, top, p, q, b, up) && RotatedRight(m, m', p, q, b, up)
    requires r' == r.(hi := r.hi[p := r.hi[q]], lo := r.lo[q := r.pos[p] + 1])
    ensures Local(m', r', p) && Local(m', r', q) && (up != NULL ==> Local(m', r', up))
  {
    hide Hung;
    assert m[q].right != p && m[q].right != q;
  }

  lemma OtherLocal(m: Mem, m': Mem, r: Reading, r': Reading, top: Ptr, p: Ptr, q: Ptr, b: Ptr, up: Ptr, x: Ptr)
    requires LeftChild(m, r, top, p, q, b, up) && RotatedRight(m, m', p, q, b, up)
    requires r' == r.(hi := r.hi[p := r.hi[q]], lo := r.lo[q := r.pos[p] + 1])
    requires Local(m, r, x) && x != p && x != q && x != up
    ensures Local(m', r', x)
  {
    hide Hung;
    assert m[x].left != p && m[x].left != q && m[x].right != p && m[x].right != q;
    assert b != NULL ==> m[x].left != b && m[x].right != b;
  }

  lemma RotatedHung(m: Mem, m': Mem, r: Reading, r': Reading, top: Ptr, p: Ptr, q: Ptr, b: Ptr, up: Ptr, x: Ptr)
    requires LeftChild(m, r, top, p, q, b, up) && RotatedRight(m, m', p, q, b, up)
    requires r' == r.(hi := r.hi[p := r.hi[q]], lo := r.lo[q := r.pos[p] + 1])
    requires x != NULL && Hung(m, r, top, x)
    ensures Hung(m', r', if q == top then p else top, x)
  {
    var y := m[x].parent;
    assert y == up && up != NULL && x != q ==> (m[up].left == q) != (m[up].right == q);
  }

  lemma RotatedFacts(m: Mem, m': Mem, r: Reading, r': Reading, top: Ptr, p: Ptr, q: Ptr, b: Ptr, up: Ptr)
    requires LeftChild(m, r, top, p, q, b, up) && RotatedRight(m, m', p, q, b, up)
    requires r' == r.(hi := r.hi[p := r.hi[q]], lo := r.lo[q := r.pos[p] + 1])
    ensures m'.Keys == m.Keys && p != top && (up == NULL <==> q == top) && (up != NULL ==> In(r, up))
    ensures In(r, p) && In(r, q) && In(r', p) && r'.hi[p] == r.hi[q] && r'.lo[p] == r.lo[q]
  {
  }

  /** The whole reading after the rotation. */
  lemma RotatedShape(m: Mem, m': Mem, r: Reading, r': Reading, top: Ptr, p: Ptr, q: Ptr, b: Ptr, up: Ptr)
    requires Shape(m, r, top) && LeftChild(m, r, top, p, q, b, up) && RotatedRight(m, m', p, q, b, up)
    requires r' == r.(hi := r.hi[p := r.hi[q]], lo := r.lo[q := r.pos[p] + 1])
    ensures Shape(m', r', if q == top then p else top)
  {
    hide Local;
    hide Hung;
    hide LeftChild;
    hide RotatedRight;
    RotatedFacts(m, m', r, r', top, p, q, b, up);
    MovedLocal(m, m', r, r', top, p, q, b, up);
    forall x | In(r', x)
      ensures Local(m', r', x) && Hung(m', r', if q == top then p else top, x)
    {
      assert Local(m, r, x) && Hung(m, r, top, x);
      if x != p && x != q && x != up {
        OtherLocal(m, m', r, r', top, p, q, b, up, x);
      }
      RotatedHung(m, m', r, r', top, p, q, b, up, x);
    }
  }

  /** Rotating a left child over its parent keeps a search tree of the same sequence. */
  lemma RotateRightShape(m: Mem, r: Reading, top: Ptr, p: Ptr) returns (r': Reading)
    requires NULL !in m && Shape(m, r, top) && In(r, p) && p != top && IsLeft(m, p)
    ensures In(r, m[p].parent)
    ensures Shape(RotateRight(m, p), r', if m[p].parent == top then p else top)
    ensures r'.ns == r.ns && r'.pos == r.pos && In(r', p)
    ensures r'.lo[p] == r.lo[m[p].parent] && r'.hi[p] == r.hi[m[p].parent]
  {
    AroundLeft(m, r, top, p);
    var q := m[p].parent;
    var b, up := m[p].right, m[q].parent;
    r' := r.(hi := r.hi[p := r.hi[q]], lo := r.lo[q := r.pos[p] + 1]);
    RotateRightCells(m, r, top, p, q, b, up);
    RotatedShape(m, RotateRight(m, p), r, r', top, p, q, b, up);
    hide RotateRight;
    hide Shape;
  }

  // The other direction, by reflection.

  function Swap(c: Cell): (d: Cell) { c.(left := c.right, right := c.left) }

  function Mirror(m: Mem): (r: Mem) { map p | p in m :: Swap(m[p]) }

  function MirrorReading(r: Reading): (s: Reading) {
    var n := |r.ns|;
    Reading(seq(n, i requires 0 <= i < n => r.ns[n - 1 - i]), map p | p in r.pos :: n - 1 - r.pos[p],
            map p | p in r.hi :: n - r.hi[p], map p | p in r.lo :: n - r.lo[p])
  }

  lemma MirrorLocal(m: Mem, r: Reading, top: Ptr, p: Ptr)
    requires Local(m, r, p) && Hung(m, r, top, p)
    ensures Local(Mirror(m), MirrorReading(r), p) && Hung(Mirror(m), MirrorReading(r), top, p)
  {
  }

  /** The reflection of a search tree is one of the reversed sequence. */
  lemma MirrorShape(m: Mem, r: Reading, top: Ptr)
    requires Shape(m, r, top)
    ensures Shape(Mirror(m), MirrorReading(r), top)
  {
    var m', r' := Mirror(m), MirrorReading(r);
    MirrorNumbered(m, r);
    hide Numbered;
    hide Local;
    hide Hung;
    assert r.ns == [] <==> r'.ns == [];
    assert |r'.ns| == |r.ns|;
    if r.ns != [] {
      MirrorIn(r, top);
    }
    hide Mirror;
    hide MirrorReading;
    hide In;
    forall p | In(r', p)
      ensures Local(m', r', p) && Hung(m', r', top, p)
    {
      MirrorIn(r, p);
      assert Local(m, r, p) && Hung(m, r, top, p);
      MirrorLocal(m, r, top, p);
    }
  }

  lemma MirrorIn(r: Reading, p: Ptr)
    ensures In(MirrorReading(r), p) <==> In(r, p)
    ensures In(r, p) ==> MirrorReading(r).lo[p] == |r.ns| - r.hi[p] && MirrorReading(r).hi[p] == |r.ns| - r.lo[p]
    ensures In(r, p) ==> MirrorReading(r).pos[p] == |r.ns| - 1 - r.pos[p]
  {
  }

  lemma MirrorNumbered(m: Mem, r: Reading)
    requires Numbered(m, r)
    ensures Numbered(Mirror(m), MirrorReading(r))
  {
    var r' := MirrorReading(r);
    forall i | 0 <= i < |r'.ns|
      ensures In(r', r'.ns[i]) && r'.pos[r'.ns[i]] == i && r'.ns[i] in m && r'.ns[i] != NULL
    {
      var k := |r.ns| - 1 - i;
      assert r'.ns[i] == r.ns[k];
      assert In(r, r.ns[k]);
    }
  }

  /** p takes the place of its parent q, whose right child it is. */
  function RotateLeft(m: Mem, p: Ptr): (r: Mem)
    requires p in m && m[p].parent in m
  {
    var q := m[p].parent;
    var b, up := m[p].left, m[q].parent;
    var m1 := SetParent(SetRight(m, q, b), b, q);
    var m2 := SetParent(SetParent(SetLeft(m1, p, q), q, p), p, up);
    if up !in m2 then m2 else if m2[up].left == q then SetLeft(m2, up, p) else SetRight(m2, up, p)
  }

  lemma MirrorSets(m: Mem, p: Ptr, x: Ptr)
    ensures Mirror(SetParent(m, p, x)) == SetParent(Mirror(m), p, x)
    ensures p in m ==> Mirror(SetLeft(m, p, x)) == SetRight(Mirror(m), p, x)
    ensures p in m ==> Mirror(SetRight(m, p, x)) == SetLeft(Mirror(m), p, x)
    ensures Mirror(Mirror(m)) == m
  {
  }

  lemma RotateLeftIs(m: Mem, r: Reading, top: Ptr, p: Ptr)
    requires NULL !in m && Shape(m, r, top) && In(r, p) && p != top && IsRight(m, p)
    ensures IsLeft(Mirror(m), p)
    ensures RotateLeft(m, p) == Mirror(RotateRight(Mirror(m), p))
  {
    MirrorShape(m, r, top);
    MirrorIn(r, p);
    var mm := Mirror(m);
    AroundLeft(mm, MirrorReading(r), top, p);
    hide Shape;
    hide Local;
    hide In;
    var q := m[p].parent;
    var b, up := m[p].left, m[q].parent;
    assert mm[p].parent == q && mm[p].right == b && mm[q].parent == up;
    var a1 := SetRight(m, q, b);
    var a2 := SetParent(a1, b, q);
    var a3 := SetLeft(a2, p, q);
    var a4 := SetParent(a3, q, p);
    var a5 := SetParent(a4, p, up);
    MirrorSets(m, q, b);
    MirrorSets(a1, b, q);
    MirrorSets(a2, p, q);
    MirrorSets(a3, q, p);
    MirrorSets(a4, p, up);
    MirrorSets(a5, up, p);
    var b5 := Mirror(a5);
    assert b5 == SetParent(SetParent(SetRight(SetParent(SetLeft(mm, q, b), b, q), p, q), q, p), p, up);
    assert up in m ==> b5[up] == Swap(a5[up]) && (a5[up].left == q) != (a5[up].right == q);
    if up in m {
      MirrorSets(SetLeft(a5, up, p), up, p);
      MirrorSets(SetRight(a5, up, p), up, p);
    }
  }

  /** Rotating a right child over its parent keeps a search tree of the same sequence. */
  lemma RotateLeftShape(m: Mem, r: Reading, top: Ptr, p: Ptr) returns (r': Reading)
    requires NULL !in m && Shape(m, r, top) && In(r, p) && p != top && IsRight(m, p)
    ensures In(r, m[p].parent)
    ensures Shape(RotateLeft(m, p), r', if m[p].parent == top then p else top)
    ensures r'.ns == r.ns && r'.pos == r.pos && In(r', p)
    ensures r'.lo[p] == r.lo[m[p].parent] && r'.hi[p] == r.hi[m[p].parent]
  {
    hide Shape;
    hide RotateRight;
    hide RotateLeft;
    hide In;
    hide MirrorReading;
    var mm, rr := Mirror(m), MirrorReading(r);
    var q := m[p].parent;
    assert mm[p].parent == q && NULL !in mm;
    MirrorShape(m, r, top);
    MirrorIn(r, p);
    MirrorIn(r, q);
    RotateLeftIs(m, r, top, p);
    hide Mirror;
    var s := RotateRightShape(mm, rr, top, p);
    MirrorShape(RotateRight(mm, p), s, if q == top then p else top);
    r' := MirrorReading(s);
    MirrorIn(s, p);
    MirrorBack(r, s);
  }

  lemma MirrorBack(r: Reading, s: Reading)
    requires s.ns == MirrorReading(r).ns && s.pos == MirrorReading(r).pos
    ensures MirrorReading(s).ns == r.ns && MirrorReading(s).pos == r.pos && |s.ns| == |r.ns|
  {
  }

  // Both directions at once; the side is false for left and true for right.

  function Kid(c: Cell, side: bool): (p: Ptr) { if side then c.right else c.left }

  function WithKid(c: Cell, side: bool, p: Ptr): (d: Cell) { if side then c.(right := p) else c.(left := p) }

  function SetKid(m: Mem, p: Ptr, side: bool, x: Ptr): (r: Mem)
    requires p in m
  {
    m[p := WithKid(m[p], side, x)]
  }

  /** Which child of its parent p is. */
  function SideOf(m: Mem, p: Ptr): (side: bool)
    requires p in m
  {
    m[p].parent in m && m[m[p].parent].left != p
  }

  /** p takes the place of its parent. */
  function Rotate(m: Mem, p: Ptr): (r: Mem)
    requires p in m && m[p].parent in m
  {
    if SideOf(m, p) then RotateLeft(m, p) else RotateRight(m, p)
  }

  /** Node by node, what rotating p over its parent q does, p being the child of q on
      the given side, b its own child on the other and up the parent of q. */
  ghost predicate Rotated(m: Mem, m': Mem, side: bool, p: Ptr, q: Ptr, b: Ptr, up: Ptr) {
    && m'.Keys == m.Keys && p in m && q in m
    && m'[p] == WithKid(m[p], !side, q).(parent := up)
    && m'[q] == WithKid(m[q], side, b).(parent := p)
    && (b in m ==> m'[b] == m[b].(parent := q))
    && (up in m ==> m'[up] == WithKid(m[up], m[up].left != q, p))
    && (forall x | x in m && x != p && x != q && x != b && x != up :: m'[x] == m[x])
  }

  /** The nodes around p that a rotation touches are different ones. */
  ghost predicate Around(m: Mem, r: Reading, top: Ptr, side: bool, p: Ptr, q: Ptr, b: Ptr, up: Ptr) {
    && p in m && q in m && NULL !in m && In(r, p) && In(r, q) && p != top
    && m[p].parent == q && Kid(m[q], side) == p && Kid(m[q], !side) != p
    && b == Kid(m[p], !side) && up == m[q].parent
    && p != q && b != p && b != q && up != p && up != q
    && (b != NULL ==> b != up && b in m && m[b].parent == p)
    && (up == NULL <==> q == top)
    && (up != NULL ==> In(r, up) && up in m && (m[up].left == q) != (m[up].right == q) && m[up].left != p && m[up].right != p)
  }

  lemma RotateCells(m: Mem, r: Reading, top: Ptr, p: Ptr)
    requires NULL !in m && Shape(m, r, top) && In(r, p) && p != top
    ensures p in m && m[p].parent in m
    ensures var q, side := m[p].parent, SideOf(m, p);
            var b, up := Kid(m[p], !side), m[q].parent;
            Around(m, r, top, side, p, q, b, up) && Rotated(m, Rotate(m, p), side, p, q, b, up)
  {
    assert Local(m, r, p) && Hung(m, r, top, p);
    var q := m[p].parent;
    if m[q].left == p {
      AroundLeft(m, r, top, p);
      RotateRightCells(m, r, top, p, q, m[p].right, m[q].parent);
      hide RotateRight;
    } else {
      RotateLeftCells(m, r, top, p);
      hide RotateLeft;
    }
  }

  lemma RotateLeftCells(m: Mem, r: Reading, top: Ptr, p: Ptr)
    requires NULL !in m && Shape(m, r, top) && In(r, p) && p != top && IsRight(m, p) && !IsLeft(m, p)
    ensures var q := m[p].parent;
            var b, up := m[p].left, m[q].parent;
            Around(m, r, top, true, p, q, b, up) && Rotated(m, RotateLeft(m, p), true, p, q, b, up)
  {
    hide Shape;
    hide RotateRight;
    hide RotateLeft;
    hide MirrorReading;
    hide In;
    var mm, rr := Mirror(m), MirrorReading(r);
    var q := m[p].parent;
    var b, up := m[p].left, m[q].parent;
    MirrorShape(m, r, top);
    MirrorIn(r, p);
    RotateLeftIs(m, r, top, p);
    AroundLeft(mm, rr, top, p);
    assert mm[p].parent == q && mm[p].right == b && mm[q].parent == up;
    RotateRightCells(mm, rr, top, p, q, b, up);
    UnmirrorAround(m, r, top, p, q, b, up);
    UnmirrorRotated(m, RotateRight(mm, p), p, q, b, up);
  }

  lemma UnmirrorAround(m: Mem, r: Reading, top: Ptr, p: Ptr, q: Ptr, b: Ptr, up: Ptr)
    requires LeftChild(Mirror(m), MirrorReading(r), top, p, q, b, up)
    ensures Around(m, r, top, true, p, q, b, up)
  {
    hide MirrorReading;
    MirrorIn(r, p);
    MirrorIn(r, q);
    MirrorIn(r, up);
  }

  lemma UnmirrorRotated(m: Mem, t: Mem, p: Ptr, q: Ptr, b: Ptr, up: Ptr)
    requires RotatedRight(Mirror(m), t, p, q, b, up)
    requires up in m ==> (m[up].left == q) != (m[up].right == q)
    ensures Rotated(m, Mirror(t), true, p, q, b, up)
  {
  }

  /** Rotating any node over its parent keeps a search tree of the same sequence, and the
      node's subtree becomes what its parent's was. */
  lemma RotateShape(m: Mem, r: Reading, top: Ptr, p: Ptr) returns (r': Reading)
    requires NULL !in m && Shape(m, r, top) && In(r, p) && p != top
    ensures p in m && m[p].parent in m && In(r, m[p].parent)
    ensures Shape(Rotate(m, p), r', if m[p].parent == top then p else top)
    ensures r'.ns == r.ns && r'.pos == r.pos && In(r', p)
    ensures r'.lo[p] == r.lo[m[p].parent] && r'.hi[p] == r.hi[m[p].parent]
    ensures r.hi[m[p].parent] - r.lo[m[p].parent] > r.hi[p] - r.lo[p]
  {
    assert Local(m, r, p) && Hung(m, r, top, p);
    var q := m[p].parent;
    assert Local(m, r, q);
    hide Shape;
    hide RotateRight;
    hide RotateLeft;
    if m[q].left == p {
      r' := RotateRightShape(m, r, top, p);
    } else {
      r' := RotateLeftShape(m, r, top, p);
    }
  }
}