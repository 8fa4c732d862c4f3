/** Bottom-up splaying: the fused pointer surgery of each step is a pair of rotations. */
module SplayUp {
  import opened SplayShape

  /** node, parent and grandparent with the other nodes a double step touches: the two
      children x and y of node, its sibling c, and the node above. */
  ghost predicate Family(m: Mem, node: Ptr, parent: Ptr, gp: Ptr, x: Ptr, y: Ptr, c: Ptr, up: Ptr) {
    && NULL !in m && node in m && parent in m && gp in m
    && m[node].parent == parent && m[parent].parent == gp && m[gp].parent == up
    && node != parent && node != gp && parent != gp
    && up !in {node, parent, gp} && x !in {node, parent, gp} && y !in {node, parent, gp} && c !in {node, parent, gp}
    && (up == NULL || up in m) && (x == NULL || x in m) && (y == NULL || y in m) && (c == NULL || c in m)
    && (x != NULL ==> x != y && x != c && x != up) && (y != NULL ==> y != c && y != up) && (c != NULL ==> c != up)
  }

  /** A child holds fewer places than its parent, and is below nobody else. */
  lemma Below(m: Mem, r: Reading, top: Ptr, p: Ptr, x: Ptr)
    requires NULL !in m && Shape(m, r, top) && In(r, p) && x != NULL && p in m && (m[p].left == x || m[p].right == x)
    ensures In(r, x) && x in m && m[x].parent == p && r.hi[x] - r.lo[x] < r.hi[p] - r.lo[p]
  {
    assert Local(m, r, p);
  }

  lemma FamilyOf(m: Mem, r: Reading, top: Ptr, node: Ptr)
    requires NULL !in m && Shape(m, r, top) && In(r, node) && node != top && node in m && m[node].parent != top
    ensures var parent := m[node].parent;
            && parent in m && m[parent].parent in m
            && var gp, side := m[parent].parent, SideOf(m, node);
               Family(m, node, parent, gp, m[node].left, m[node].right, Kid(m[parent], !side), m[gp].parent)
  {
    assert Local(m, r, node) && Hung(m, r, top, node);
    var parent, side := m[node].parent, SideOf(m, node);
    assert Local(m, r, parent) && Hung(m, r, top, parent);
    var gp := m[parent].parent;
    assert Local(m, r, gp) && Hung(m, r, top, gp);
    var up, c := m[gp].parent, Kid(m[parent], !side);
    Below(m, r, top, parent, node);
    Below(m, r, top, gp, parent);
    if gp != top { Below(m, r, top, up, gp); }
    if c != NULL { Below(m, r, top, parent, c); }
    if m[node].left != NULL { Below(m, r, top, node, m[node].left); }
    if m[node].right != NULL { Below(m, r, top, node, m[node].right); }
    assert m[node].left != NULL ==> m[node].left != m[node].right by { assert Local(m, r, node); }
    hide Shape;
    hide In;
  }

  /** Node by node, what a zig-zig step does. */
  ghost predicate ZigZigged(m: Mem, m': Mem, side: bool, node: Ptr, parent: Ptr, gp: Ptr, b: Ptr, c: Ptr, up: Ptr) {
    && m'.Keys == m.Keys && node in m && parent in m && gp in m
    && m'[node] == WithKid(m[node], !side, parent).(parent := up)
    && m'[parent] == WithKid(WithKid(m[parent], !side, gp), side, b).(parent := node)
    && m'[gp] == WithKid(m[gp], side, c).(parent := parent)
    && (b in m ==> m'[b] == m[b].(parent := parent))
    && (c in m ==> m'[c] == m[c].(parent := gp))
    && (up in m ==> m'[up] == WithKid(m[up], m[up].left != gp, node))
    && (forall x | x in m && x !in {node, parent, gp, b, c, up} :: m'[x] == m[x])
  }

  /** Node by node, what a zig-zag step does: parent is the child of gp on the given side
      and node the child of parent on the other. */
  ghost predicate ZigZagged(m: Mem, m': Mem, side: bool, node: Ptr, parent: Ptr, gp: Ptr, a: Ptr, c: Ptr, up: Ptr) {
    && m'.Keys == m.Keys && node in m && parent in m && gp in m
    && m'[node] == WithKid(WithKid(m[node], side, parent), !side, gp).(parent := up)
    && m'[parent] == WithKid(m[parent], !side, a).(parent := node)
    && m'[gp] == WithKid(m[gp], side, c).(parent := node)
    && (a in m ==> m'[a] == m[a].(parent := parent))
    && (c in m ==> m'[c] == m[c].(parent := gp))
    && (up in m ==> m'[up] == WithKid(m[up], m[up].left != gp, node))
    && (forall x | x in m && x !in {node, parent, gp, a, c, up} :: m'[x] == m[x])
  }

  lemma ZigZigCells(m: Mem, m1: Mem, m2: Mem, m': Mem, side: bool, node: Ptr, parent: Ptr, gp: Ptr, x: Ptr, y: Ptr, c: Ptr, up: Ptr)
    requires Family(m, node, parent, gp, x, y, c, up)
    requires up in m ==> (m[up].left == gp) != (m[up].right == gp)
    requires var b := if side then x else y;
             && ZigZigged(m, m', side, node, parent, gp, b, c, up)
             && Rotated(m, m1, side, parent, gp, c, up) && Rotated(m1, m2, side, node, parent, b, up)
    requires up in m ==> m[up].left !in {parent, node} && m[up].right !in {parent, node}
    ensures m' == m2
  {
    forall z | z in m
      ensures m'[z] == m2[z]
    {
    }
  }

  lemma ZigZagCells(m: Mem, m1: Mem, m2: Mem, m': Mem, side: bool, node: Ptr, parent: Ptr, gp: Ptr, x: Ptr, y: Ptr, sib: Ptr, up: Ptr)
    requires Family(m, node, parent, gp, x, y, sib, up)
    requires up in m ==> (m[up].left == gp) != (m[up].right == gp)
    requires Kid(m[gp], side) == parent && Kid(m[gp], !side) != parent
    requires var a, c := if side then y else x, if side then x else y;
             && ZigZagged(m, m', side, node, parent, gp, a, c, up)
             && Rotated(m, m1, !side, node, parent, a, gp) && Rotated(m1, m2, side, node, gp, c, up)
    ensures m' == m2
  {
    forall z | z in m
      ensures m'[z] == m2[z]
    {
    }
  }

  /** Only tree links change. */
  ghost predicate SameThreads(m: Mem, m': Mem) {
    m'.Keys == m.Keys && forall p <- m :: m'[p].next == m[p].next && m'[p].prev == m[p].prev
  }

  /** The outcome of one step: the same sequence, node closer to the top. */
  ghost predicate Stepped(m: Mem, m': Mem, r: Reading, r': Reading, top': Ptr, node: Ptr) {
    && Shape(m', r', top') && SameThreads(m, m') && NULL !in m'
    && r'.ns == r.ns && r'.pos == r.pos && In(r, node) && In(r', node)
    && r'.hi[node] - r'.lo[node] > r.hi[node] - r.lo[node]
  }

  lemma ZigShape(m: Mem, m': Mem, r: Reading, node: Ptr, parent: Ptr) returns (r': Reading)
    requires NULL !in m && Shape(m, r, parent) && In(r, node) && node != parent && node in m && m[node].parent == parent
    requires Rotated(m, m', SideOf(m, node), node, parent, Kid(m[node], !SideOf(m, node)), NULL)
    ensures Stepped(m, m', r, r', node, node)
  {
    RotateCells(m, r, parent, node);
    r' := RotateShape(m, r, parent, node);
    assert m' == Rotate(m, node);
    hide Rotate;
    hide Shape;
    hide In;
  }

  /** After the first rotation of a zig-zig, node still hangs from parent on its side. */
  lemma FirstOfZigZig(m: Mem, m1: Mem, side: bool, node: Ptr, parent: Ptr, gp: Ptr, x: Ptr, y: Ptr, c: Ptr, up: Ptr)
    requires Family(m, node, parent, gp, x, y, c, up) && Rotated(m, m1, side, parent, gp, c, up)
    requires Kid(m[parent], side) == node && Kid(m[parent], !side) == c
    ensures m1[node] == m[node] && m1[parent].parent == up && SideOf(m1, node) == side
  {
  }

  /** After the first rotation of a zig-zag, node hangs from gp where parent did. */
  lemma FirstOfZigZag(m: Mem, m1: Mem, side: bool, node: Ptr, parent: Ptr, gp: Ptr, x: Ptr, y: Ptr, c: Ptr, up: Ptr)
    requires Family(m, node, parent, gp, x, y, c, up)
    requires Rotated(m, m1, !side, node, parent, if side then y else x, gp)
    requires Kid(m[gp], side) == parent && Kid(m[gp], !side) != parent && Kid(m[node], !side) == (if side then x else y)
    requires Kid(m[gp], !side) != node
    ensures m1[node].parent == gp && m1[gp].parent == up && SideOf(m1, node) == side
    ensures Kid(m1[node], !side) == if side then x else y
  {
  }

  lemma ZigZiggedThreads(m: Mem, m': Mem, side: bool, node: Ptr, parent: Ptr, gp: Ptr, b: Ptr, c: Ptr, up: Ptr)
    requires ZigZigged(m, m', side, node, parent, gp, b, c, up) || ZigZagged(m, m', side, node, parent, gp, b, c, up)
    ensures SameThreads(m, m')
  {
  }

  /** Both rotations of a double step, the lower or the upper node first. */
  lemma TwoRotations(m: Mem, r: Reading, top: Ptr, node: Ptr, parent: Ptr, gp: Ptr, first: Ptr) returns (m1: Mem, r1: Reading, top1: Ptr)
    requires NULL !in m && Shape(m, r, top) && In(r, node) && node != top && node in m && m[node].parent == parent
    requires parent != top && parent in m && m[parent].parent == gp && gp in m && (first == parent || first == node)
    ensures m1 == Rotate(m, first) && Shape(m1, r1, top1) && NULL !in m1 && In(r1, node)
    ensures top1 == if first == parent && gp == top then parent else top
    ensures r1.ns == r.ns && r1.pos == r.pos
    ensures first == node ==> r1.hi[node] - r1.lo[node] > r.hi[node] - r.lo[node]
    ensures first == parent ==> In(r1, parent) && r1.hi[parent] - r1.lo[parent] > r.hi[node] - r.lo[node]
  {
    RotateCells(m, r, top, node);
    RotateCells(m, r, top, first);
    m1 := Rotate(m, first);
    assert NULL !in m1;
    hide Rotated;
    hide Rotate;
    hide Shape;
    NestedRange(m, r, top, node, parent);
    r1 := RotateShape(m, r, top, first);
    top1 := if first == parent && gp == top then parent else top;
    StillIn(m, r, m1, r1, top1, node);
  }

  lemma ZigZigShape(m: Mem, m': Mem, r: Reading, top: Ptr, node: Ptr, parent: Ptr, gp: Ptr) returns (r': Reading)
    requires NULL !in m && Shape(m, r, top) && In(r, node) && node != top && node in m && m[node].parent == parent
    requires parent != top && parent in m && m[parent].parent == gp && SideOf(m, parent) == SideOf(m, node)
    requires gp in m
    requires var side := SideOf(m, node);
             ZigZigged(m, m', side, node, parent, gp, Kid(m[node], !side), Kid(m[parent], !side), m[gp].parent)
    ensures Stepped(m, m', r, r', if gp == top then node else top, node)
  {
    hide Shape;
    hide Rotate;
    hide In;
    var side := SideOf(m, node);
    var x, y, c, up := m[node].left, m[node].right, Kid(m[parent], !side), m[gp].parent;
    FamilyOf(m, r, top, node);
    RotateCells(m, r, top, node);
    RotateCells(m, r, top, parent);
    var m1, r1, top1 := TwoRotations(m, r, top, node, parent, gp, parent);
    hide SideOf;
    FirstOfZigZig(m, m1, side, node, parent, gp, x, y, c, up);
    RotateCells(m1, r1, top1, node);
    r' := RotateShape(m1, r1, top1, node);
    ZigZigCells(m, m1, Rotate(m1, node), m', side, node, parent, gp, x, y, c, up);
    ZigZiggedThreads(m, m', side, node, parent, gp, Kid(m[node], !side), c, up);
  }

  lemma ZigZagShape(m: Mem, m': Mem, r: Reading, top: Ptr, node: Ptr, parent: Ptr, gp: Ptr) returns (r': Reading)
    requires NULL !in m && Shape(m, r, top) && In(r, node) && node != top && node in m && m[node].parent == parent
    requires parent != top && parent in m && m[parent].parent == gp && SideOf(m, parent) != SideOf(m, node)
    requires gp in m
    requires var side := SideOf(m, parent);
             ZigZagged(m, m', side, node, parent, gp, Kid(m[node], side), Kid(m[node], !side), m[gp].parent)
    ensures Stepped(m, m', r, r', if gp == top then node else top, node)
  {
    hide Shape;
    hide Rotate;
    hide In;
    var side := SideOf(m, parent);
    var x, y, c, up := m[node].left, m[node].right, Kid(m[parent], side), m[gp].parent;
    FamilyOf(m, r, top, node);
    RotateCells(m, r, top, node);
    RotateCells(m, r, top, parent);
    var m1, r1, top1 := TwoRotations(m, r, top, node, parent, gp, node);
    hide SideOf;
    FirstOfZigZag(m, m1, side, node, parent, gp, x, y, c, up);
    RotateCells(m1, r1, top1, node);
    r' := RotateShape(m1, r1, top1, node);
    ZigZagCells(m, m1, Rotate(m1, node), m', side, node, parent, gp, x, y, c, up);
    ZigZiggedThreads(m, m', side, node, parent, gp, Kid(m[node], side), Kid(m[node], !side), up);
  }

  lemma NestedRange(m: Mem, r: Reading, top: Ptr, node: Ptr, parent: Ptr)
    requires NULL !in m && Shape(m, r, top) && In(r, node) && node != top && node in m && m[node].parent == parent
    ensures In(r, parent) && r.hi[node] - r.lo[node] < r.hi[parent] - r.lo[parent]
  {
    assert Local(m, r, node) && Hung(m, r, top, node);
    Below(m, r, top, parent, node);
  }

  lemma StillIn(m: Mem, r: Reading, m1: Mem, r1: Reading, top1: Ptr, node: Ptr)
    requires In(r, node) && Shape(m1, r1, top1) && r1.ns == r.ns && r1.pos == r.pos
    ensures In(r1, node)
  {
    assert r1.ns[r1.pos[node]] == node;
  }

  // The statements of the double steps.

  /** x becomes the child of p on the given side, and p its parent if x is a node. */
  function Linked(m: Mem, p: Ptr, side: bool, x: Ptr): (r: Mem)
    requires p in m
    ensures r.Keys == m.Keys
  {
    SetParent(SetKid(m, p, side, x), x, p)
  }

  /** node takes the place of gp below up. */
  function Reattached(m: Mem, node: Ptr, gp: Ptr, up: Ptr): (r: Mem)
    requires node in m && (up == NULL || up in m)
    ensures r.Keys == m.Keys
  {
    var m1 := SetParent(m, node, up);
    if up == NULL then m1 else SetKid(m1, up, m1[up].left != gp, node)
  }

  lemma LinkedCells(m: Mem, p: Ptr, side: bool, x: Ptr)
    requires p in m && p != x
    ensures var m' := Linked(m, p, side, x);
            && m'[p] == WithKid(m[p], side, x)
            && (x in m ==> m'[x] == m[x].(parent := p))
            && (forall z | z in m && z != p && z != x :: m'[z] == m[z])
  {
  }

  lemma ReattachedCells(m: Mem, node: Ptr, gp: Ptr, up: Ptr)
    requires NULL !in m && node in m && (up == NULL || up in m) && up != node
    ensures var m' := Reattached(m, node, gp, up);
            && m'[node] == m[node].(parent := up)
            && (up in m ==> m'[up] == WithKid(m[up], m[up].left != gp, node))
            && (forall z | z in m && z != node && z != up :: m'[z] == m[z])
  {
  }

  function ZigZigMem(m: Mem, side: bool, node: Ptr, parent: Ptr, gp: Ptr): (r: Mem)
    requires node in m && parent in m && gp in m && (m[gp].parent == NULL || m[gp].parent in m)
  {
    var m1 := Linked(m, gp, side, Kid(m[parent], !side));
    var m2 := Linked(m1, parent, !side, gp);
    var m3 := Linked(m2, parent, side, Kid(m2[node], !side));
    var m4 := Linked(m3, node, !side, parent);
    Reattached(m4, node, gp, m[gp].parent)
  }

  function ZigZagMem(m: Mem, side: bool, node: Ptr, parent: Ptr, gp: Ptr): (r: Mem)
    requires node in m && parent in m && gp in m && (m[gp].parent == NULL || m[gp].parent in m)
  {
    var m1 := Linked(m, parent, !side, Kid(m[node], side));
    var m2 := Linked(m1, node, side, parent);
    var m3 := Linked(m2, gp, side, Kid(m2[node], !side));
    var m4 := Linked(m3, node, !side, gp);
    Reattached(m4, node, gp, m[gp].parent)
  }

  lemma ZigZigMemCells(m: Mem, side: bool, node: Ptr, parent: Ptr, gp: Ptr, x: Ptr, y: Ptr, c: Ptr, up: Ptr)
    requires Family(m, node, parent, gp, x, y, c, up) && Kid(m[parent], !side) == c && Kid(m[node], !side) == (if side then x else y)
    ensures ZigZigged(m, ZigZigMem(m, side, node, parent, gp), side, node, parent, gp, if side then x else y, c, up)
  {
    hide Linked;
    hide Reattached;
    var b := if side then x else y;
    var m1 := Linked(m, gp, side, c);
    LinkedCells(m, gp, side, c);
    var m2 := Linked(m1, parent, !side, gp);
    LinkedCells(m1, parent, !side, gp);
    var m3 := Linked(m2, parent, side, b);
    LinkedCells(m2, parent, side, b);
    var m4 := Linked(m3, node, !side, parent);
    LinkedCells(m3, node, !side, parent);
    ReattachedCells(m4, node, gp, up);
  }

  lemma ZigZagMemCells(m: Mem, side: bool, node: Ptr, parent: Ptr, gp: Ptr, x: Ptr, y: Ptr, c: Ptr, up: Ptr)
    requires Family(m, node, parent, gp, x, y, c, up) && m[node].left == x && m[node].right == y
    ensures ZigZagged(m, ZigZagMem(m, side, node, parent, gp), side, node, parent, gp,
                      Kid(m[node], side), Kid(m[node], !side), up)
  {
    hide Linked;
    hide Reattached;
    var a, b := Kid(m[node], side), Kid(m[node], !side);
    var m1 := Linked(m, parent, !side, a);
    LinkedCells(m, parent, !side, a);
    var m2 := Linked(m1, node, side, parent);
    LinkedCells(m1, node, side, parent);
    var m3 := Linked(m2, gp, side, b);
    LinkedCells(m2, gp, side, b);
    var m4 := Linked(m3, node, !side, gp);
    LinkedCells(m3, node, !side, gp);
    ReattachedCells(m4, node, gp, up);
  }

  lemma ZigMemCells(m: Mem, r: Reading, node: Ptr, parent: Ptr)
    requires NULL !in m && Shape(m, r, parent) && In(r, node) && node != parent && node in m && m[node].parent == parent && parent in m
    ensures var side := SideOf(m, node);
            var b := Kid(m[node], !side);
            Rotated(m, Reattached(Linked(Linked(m, parent, side, b), node, !side, parent), node, NULL, NULL), side, node, parent, b, NULL)
  {
    RotateCells(m, r, parent, node);
    hide Shape;
    hide Rotate;
    hide Linked;
    hide Reattached;
    var side := SideOf(m, node);
    var b := Kid(m[node], !side);
    LinkedCells(m, parent, side, b);
    var m1 := Linked(m, parent, side, b);
    LinkedCells(m1, node, !side, parent);
    ReattachedCells(Linked(m1, node, !side, parent), node, NULL, NULL);
  }

  /** Only the topmost node has no parent. */
  lemma TopOf(m: Mem, r: Reading, top: Ptr, node: Ptr)
    requires NULL !in m && Shape(m, r, top) && In(r, node)
    ensures node in m && (m[node].parent == NULL <==> node == top)
  {
    assert Local(m, r, node) && Hung(m, r, top, node);
    if node != top {
      assert Local(m, r, m[node].parent);
    }
  }

  lemma RangeBound(m: Mem, r: Reading, top: Ptr, node: Ptr)
    requires Shape(m, r, top) && In(r, node)
    ensures r.hi[node] - r.lo[node] <= |r.ns|
  {
    assert Local(m, r, node);
  }
}
