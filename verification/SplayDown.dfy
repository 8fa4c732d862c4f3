/** Top-down splaying: the tree taken apart into a left, a middle and a right part. */
module SplayDown {
  import opened SplayShape

  /** The two header nodes, the root of the middle part, the nodes at which the left and
      the right part are extended, and the place of the node that will end up on top. */
  datatype Parts = Parts(hl: Ptr, hr: Ptr, root: Ptr, lb: Ptr, rb: Ptr, goal: int)

  /** -1 left of the middle part, 0 in it, 1 right of it. */
  function Zone(r: Reading, d: Parts, p: Ptr): (z: int)
    requires In(r, p) && In(r, d.root)
  {
    if r.pos[p] < r.lo[d.root] then -1 else if r.pos[p] < r.hi[d.root] then 0 else 1
  }

  /** Links and ranges of p. Outside the middle part ranges are already those of the
      finished tree, so lb still lacks its right and rb its left subtree. */
  predicate LocalDown(m: Mem, r: Reading, d: Parts, p: Ptr)
    requires In(r, p) && In(r, d.root)
  {
    var z := Zone(r, d, p);
    && p in m && 0 <= r.lo[p] <= r.pos[p] < r.hi[p] <= |r.ns|
    && (if p == d.rb then m[p].left == NULL && r.lo[p] == d.goal + 1 && r.pos[p] == r.hi[d.root]
        else Holds(m, r, m[p].left, p, r.lo[p], r.pos[p]))
    && (if p == d.lb then m[p].right == NULL && r.hi[p] == d.goal && r.pos[p] + 1 == r.lo[d.root]
        else Holds(m, r, m[p].right, p, r.pos[p] + 1, r.hi[p]))
    && (z < 0 ==> r.hi[p] <= d.goal) && (z > 0 ==> d.goal < r.lo[p])
    && (z == 0 ==> r.lo[d.root] <= r.lo[p] && r.hi[p] <= r.hi[d.root])
  }

  /** p hangs from a node of its own part, or from the header of its part. */
  predicate HungDown(m: Mem, r: Reading, d: Parts, p: Ptr)
    requires In(r, p) && In(r, d.root)
  {
    p in m &&
    var q := m[p].parent;
    if p == d.root then q == NULL
    else if q == d.hl then d.hl in m && m[d.hl].right == p && Zone(r, d, p) < 0
    else if q == d.hr then d.hr in m && m[d.hr].left == p && Zone(r, d, p) > 0
    else In(r, q) && q in m && Zone(r, d, q) == Zone(r, d, p) && (m[q].left == p || m[q].right == p)
  }

  /** The left part holds the places before the goal that the middle part does not. */
  predicate LeftPart(m: Mem, r: Reading, d: Parts)
    requires In(r, d.root) && d.hl in m
  {
    if r.lo[d.root] == 0 then d.lb == d.hl && m[d.hl].right == NULL
    else In(r, d.lb) && r.pos[d.lb] + 1 == r.lo[d.root] && Holds(m, r, m[d.hl].right, d.hl, 0, d.goal)
  }

  predicate RightPart(m: Mem, r: Reading, d: Parts)
    requires In(r, d.root) && d.hr in m
  {
    if r.hi[d.root] == |r.ns| then d.rb == d.hr && m[d.hr].left == NULL
    else In(r, d.rb) && r.pos[d.rb] == r.hi[d.root] && Holds(m, r, m[d.hr].left, d.hr, d.goal + 1, |r.ns|)
  }

  ghost predicate Apart(m: Mem, r: Reading, d: Parts) {
    && NULL !in m && Numbered(m, r)
    && d.hl in m && d.hr in m && d.hl != d.hr && !In(r, d.hl) && !In(r, d.hr)
    && In(r, d.root) && 0 <= r.lo[d.root] <= d.goal < r.hi[d.root] <= |r.ns|
    && LeftPart(m, r, d) && RightPart(m, r, d)
    && (forall p {:trigger LocalDown(m, r, d, p)} :: In(r, p) ==> LocalDown(m, r, d, p) && HungDown(m, r, d, p))
  }

  /** The middle root moves below rb, and its left child becomes the middle root. */
  ghost predicate MovedRight(m: Mem, m': Mem, root: Ptr, c: Ptr, rb: Ptr) {
    && m'.Keys == m.Keys && root in m && c in m && rb in m
    && root != c && root != rb && c != rb
    && m'[rb] == m[rb].(left := root)
    && m'[root] == m[root].(left := NULL, parent := rb)
    && m'[c] == m[c].(parent := NULL)
    && (forall x | x in m && x != root && x != c && x != rb :: m'[x] == m[x])
  }

  /** Ranges nest: whoever's place lies in the range of a middle node q lies below q. */
  lemma {:induction false} Nested(m: Mem, r: Reading, d: Parts, q: Ptr, p: Ptr)
    requires Apart(m, r, d) && In(r, q) && Zone(r, d, q) == 0 && In(r, p) && r.lo[q] <= r.pos[p] < r.hi[q]
    ensures r.lo[q] <= r.lo[p] && r.hi[p] <= r.hi[q]
    decreases r.hi[q] - r.lo[q]
  {
    assert LocalDown(m, r, d, q);
    if r.pos[p] < r.pos[q] {
      assert LocalDown(m, r, d, m[q].left);
      Nested(m, r, d, m[q].left, p);
    } else if r.pos[p] > r.pos[q] {
      assert LocalDown(m, r, d, m[q].right);
      Nested(m, r, d, m[q].right, p);
    } else {
      assert p == q;
    }
  }

  /** Before the middle root moves to the right part: where everybody is. */
  lemma Sides(m: Mem, r: Reading, d: Parts, p: Ptr)
    requires Apart(m, r, d) && In(r, p) && Zone(r, d, p) == 0
    ensures r.pos[p] < r.pos[d.root] ==> r.hi[p] <= r.pos[d.root]
    ensures r.pos[p] > r.pos[d.root] ==> r.lo[p] > r.pos[d.root]
    ensures r.pos[p] == r.pos[d.root] ==> p == d.root
  {
    assert LocalDown(m, r, d, d.root);
    if r.pos[p] < r.pos[d.root] {
      assert LocalDown(m, r, d, m[d.root].left);
      Nested(m, r, d, m[d.root].left, p);
    } else if r.pos[p] > r.pos[d.root] {
      assert LocalDown(m, r, d, m[d.root].right);
      Nested(m, r, d, m[d.root].right, p);
    }
  }

  lemma MovedLocal(m: Mem, m': Mem, r: Reading, r': Reading, d: Parts, d': Parts, c: Ptr, p: Ptr)
    requires Apart(m, r, d) && m[d.root].left == c && c != NULL && d.goal < r.pos[d.root]
    requires MovedRight(m, m', d.root, c, d.rb) && d' == d.(root := c, rb := d.root)
    requires r' == r.(lo := r.lo[d.root := d.goal + 1]) && In(r, p)
    ensures In(r', p) && In(r', c) && LocalDown(m', r', d', p)
  {
    assert LocalDown(m, r, d, p) && HungDown(m, r, d, p);
    assert LocalDown(m, r, d, d.root) && HungDown(m, r, d, d.root);
    assert LocalDown(m, r, d, c) && HungDown(m, r, d, c);
    if Zone(r, d, p) == 0 {
      Sides(m, r, d, p);
    }
    hide Numbered;
  }

  lemma MovedHung(m: Mem, m': Mem, r: Reading, r': Reading, d: Parts, d': Parts, c: Ptr, p: Ptr)
    requires Apart(m, r, d) && m[d.root].left == c && c != NULL && d.goal < r.pos[d.root]
    requires MovedRight(m, m', d.root, c, d.rb) && d' == d.(root := c, rb := d.root)
    requires r' == r.(lo := r.lo[d.root := d.goal + 1]) && In(r, p)
    ensures In(r', p) && In(r', c) && HungDown(m', r', d', p)
  {
    assert LocalDown(m, r, d, p) && HungDown(m, r, d, p);
    assert LocalDown(m, r, d, d.root) && HungDown(m, r, d, d.root);
    assert LocalDown(m, r, d, c) && HungDown(m, r, d, c);
    var q := m[p].parent;
    if In(r, q) {
      assert LocalDown(m, r, d, q);
    }
    if Zone(r, d, p) == 0 && p != d.root && p != c {
      Sides(m, r, d, p);
      Sides(m, r, d, q);
      assert r.lo[q] <= r.pos[p] < r.hi[q];
      assert Zone(r', d', q) == Zone(r', d', p);
      hide Numbered;
      hide Holds;
      hide LeftPart;
      hide RightPart;
    } else {
      hide Numbered;
    }
  }

  /** Hook root below b on the given side and let its own child c on that side go. */
  function Move(m: Mem, side: bool, root: Ptr, c: Ptr, b: Ptr): (r: Mem)
    requires root in m && c in m && b in m
  {
    var m1 := SetParent(SetKid(m, b, side, root), root, b);
    SetParent(SetKid(m1, root, side, NULL), c, NULL)
  }

  /** Where a node is hooked when the search goes to the given side. */
  function Bottom(d: Parts, side: bool): (p: Ptr) { if side then d.lb else d.rb }

  function Shifted(d: Parts, side: bool, c: Ptr): (e: Parts) {
    if side then d.(root := c, lb := d.root) else d.(root := c, rb := d.root)
  }

  /** The part that root joins holds its subtree from next to the goal on. */
  function Cut(r: Reading, d: Parts, side: bool): (s: Reading) {
    if side then r.(hi := r.hi[d.root := d.goal]) else r.(lo := r.lo[d.root := d.goal + 1])
  }

  /** The nodes a left move touches are different ones. */
  lemma LeftMove(m: Mem, r: Reading, d: Parts, c: Ptr)
    requires Apart(m, r, d) && m[d.root].left == c && c != NULL && d.goal < r.pos[d.root]
    ensures c in m && d.rb in m && MovedRight(m, Move(m, false, d.root, c, d.rb), d.root, c, d.rb)
    ensures In(r, c) && r.lo[c] == r.lo[d.root] && r.hi[c] == r.pos[d.root]
  {
    assert LocalDown(m, r, d, d.root) && HungDown(m, r, d, d.root);
    assert LocalDown(m, r, d, c) && HungDown(m, r, d, c);
    hide Numbered;
    hide LocalDown;
    hide HungDown;
  }

  lemma MoveLeftApart(m: Mem, r: Reading, d: Parts, c: Ptr)
    requires Apart(m, r, d) && m[d.root].left == c && c != NULL && d.goal < r.pos[d.root]
    ensures c in m && d.rb in m && Apart(Move(m, false, d.root, c, d.rb), Cut(r, d, false), Shifted(d, false, c))
  {
    LeftMove(m, r, d, c);
    var m', r', d' := Move(m, false, d.root, c, d.rb), Cut(r, d, false), Shifted(d, false, c);
    hide Move;
    hide Numbered;
    assert Numbered(m', r') by { MovedNumbered(m, m', r, r'); }
    forall p | In(r', p)
      ensures LocalDown(m', r', d', p) && HungDown(m', r', d', p)
    {
      MovedLocal(m, m', r, r', d, d', c, p);
      MovedHung(m, m', r, r', d, d', c, p);
    }
    hide LocalDown;
    hide HungDown;
    MovedParts(m, m', r, r', d, d', c);
  }

  lemma MovedNumbered(m: Mem, m': Mem, r: Reading, r': Reading)
    requires Numbered(m, r) && m'.Keys == m.Keys && r'.ns == r.ns && r'.pos == r.pos
    requires forall p :: In(r, p) ==> p in r'.lo && p in r'.hi
    ensures Numbered(m', r')
  {
  }

  lemma MovedParts(m: Mem, m': Mem, r: Reading, r': Reading, d: Parts, d': Parts, c: Ptr)
    requires Apart(m, r, d) && m[d.root].left == c && c != NULL && d.goal < r.pos[d.root]
    requires MovedRight(m, m', d.root, c, d.rb) && d' == d.(root := c, rb := d.root)
    requires r' == r.(lo := r.lo[d.root := d.goal + 1])
    ensures In(r', d'.root) && d'.hl in m' && d'.hr in m' && LeftPart(m', r', d') && RightPart(m', r', d')
    ensures 0 <= r'.lo[c] <= d.goal < r'.hi[c]
  {
    assert LocalDown(m, r, d, d.root) && HungDown(m, r, d, d.root);
    assert LocalDown(m, r, d, c) && HungDown(m, r, d, c);
    var s := m[d.hr].left;
    if In(r, s) {
      assert LocalDown(m, r, d, s);
    }
    var t := m[d.hl].right;
    if In(r, t) {
      assert LocalDown(m, r, d, t);
    }
    hide Numbered;
  }

  // The other side, by reflection.

  function MirrorParts(d: Parts, n: int): (e: Parts) {
    Parts(d.hr, d.hl, d.root, d.rb, d.lb, n - 1 - d.goal)
  }

  lemma MirrorDown(m: Mem, r: Reading, d: Parts, p: Ptr)
    requires In(r, p) && In(r, d.root) && 0 <= r.lo[d.root] < r.hi[d.root] <= |r.ns| && d.hl != d.hr
    requires LocalDown(m, r, d, p) && HungDown(m, r, d, p)
    ensures var r', d' := MirrorReading(r), MirrorParts(d, |r.ns|);
            In(r', p) && In(r', d.root) && LocalDown(Mirror(m), r', d', p) && HungDown(Mirror(m), r', d', p)
  {
    var r' := MirrorReading(r);
    assert |r'.ns| == |r.ns|;
    MirrorIn(r, p);
    MirrorIn(r, d.root);
    MirrorIn(r, m[p].left);
    MirrorIn(r, m[p].right);
    MirrorIn(r, m[p].parent);
    hide MirrorReading;
  }

  lemma MirrorEnds(m: Mem, r: Reading, d: Parts)
    requires In(r, d.root) && d.hl in m && d.hr in m && LeftPart(m, r, d) && RightPart(m, r, d)
    ensures var r', d' := MirrorReading(r), MirrorParts(d, |r.ns|);
            In(r', d.root) && LeftPart(Mirror(m), r', d') && RightPart(Mirror(m), r', d')
  {
    var r' := MirrorReading(r);
    assert |r'.ns| == |r.ns|;
    MirrorIn(r, d.root);
    MirrorIn(r, d.lb);
    MirrorIn(r, d.rb);
    MirrorIn(r, m[d.hl].right);
    MirrorIn(r, m[d.hr].left);
    hide MirrorReading;
  }

  lemma MirrorApart(m: Mem, r: Reading, d: Parts)
    requires Apart(m, r, d)
    ensures Apart(Mirror(m), MirrorReading(r), MirrorParts(d, |r.ns|))
  {
    var m', r', d' := Mirror(m), MirrorReading(r), MirrorParts(d, |r.ns|);
    assert |r'.ns| == |r.ns|;
    MirrorNumbered(m, r);
    MirrorEnds(m, r, d);
    MirrorIn(r, d.hl);
    MirrorIn(r, d.hr);
    MirrorIn(r, d.root);
    hide Numbered;
    hide LocalDown;
    hide HungDown;
    hide LeftPart;
    hide RightPart;
    hide MirrorReading;
    hide In;
    forall p | In(r', p)
      ensures LocalDown(m', r', d', p) && HungDown(m', r', d', p)
    {
      MirrorIn(r, p);
      assert LocalDown(m, r, d, p) && HungDown(m, r, d, p);
      MirrorDown(m, r, d, p);
    }
  }

  lemma MirrorMove(m: Mem, root: Ptr, c: Ptr, b: Ptr)
    requires root in m && c in m && b in m
    ensures Mirror(Move(Mirror(m), false, root, c, b)) == Move(m, true, root, c, b)
  {
    MirrorSets(m, b, root);
    var m1 := SetRight(m, b, root);
    MirrorSets(m1, root, b);
    var m2 := SetParent(m1, root, b);
    MirrorSets(m2, root, NULL);
    var m3 := SetRight(m2, root, NULL);
    MirrorSets(m3, c, NULL);
    MirrorSets(SetParent(m3, c, NULL), c, NULL);
    hide Mirror;
  }

  lemma MirrorCut(r: Reading, d: Parts)
    requires In(r, d.root)
    ensures MirrorReading(Cut(MirrorReading(r), MirrorParts(d, |r.ns|), false)) == Cut(r, d, true)
  {
    var r' := MirrorReading(Cut(MirrorReading(r), MirrorParts(d, |r.ns|), false));
    assert r'.ns == r.ns;
    assert r'.pos == r.pos;
  }

  lemma InMiddle(m: Mem, r: Reading, d: Parts, side: bool, c: Ptr)
    requires Apart(m, r, d) && Kid(m[d.root], side) == c && c != NULL
    ensures In(r, c) && c in m && Zone(r, d, c) == 0
    ensures r.lo[d.root] <= r.pos[d.root] < r.hi[d.root] && r.lo[c] <= r.pos[c] < r.hi[c]
    ensures if side then r.lo[c] == r.pos[d.root] + 1 && r.hi[c] == r.hi[d.root]
            else r.lo[c] == r.lo[d.root] && r.hi[c] == r.pos[d.root]
  {
    assert LocalDown(m, r, d, d.root);
    assert LocalDown(m, r, d, c);
  }

  lemma MoveRightApart(m: Mem, r: Reading, d: Parts, c: Ptr)
    requires Apart(m, r, d) && m[d.root].right == c && c != NULL && r.pos[d.root] < d.goal
    ensures c in m && d.lb in m && Apart(Move(m, true, d.root, c, d.lb), Cut(r, d, true), Shifted(d, true, c))
  {
    InMiddle(m, r, d, true, c);
    var mm, rr, dd := Mirror(m), MirrorReading(r), MirrorParts(d, |r.ns|);
    MirrorIn(r, d.root);
    assert |rr.ns| == |r.ns| && mm[d.root].left == c;
    MirrorCut(r, d);
    assert Cut(rr, dd, false).ns == rr.ns;
    assert MirrorParts(Shifted(dd, false, c), |r.ns|) == Shifted(d, true, c);
    assert dd.rb == d.lb && dd.root == d.root && dd.goal < rr.pos[d.root];
    assert mm.Keys == m.Keys;
    hide *;
    MirrorApart(m, r, d);
    MoveLeftApart(mm, rr, dd, c);
    MirrorMove(m, d.root, c, d.lb);
    MirrorApart(Move(mm, false, d.root, c, dd.rb), Cut(rr, dd, false), Shifted(dd, false, c));
  }

  /** One step down to the given side. */
  lemma MoveApart(m: Mem, r: Reading, d: Parts, side: bool, c: Ptr)
    requires Apart(m, r, d) && Kid(m[d.root], side) == c && c != NULL
    requires if side then r.pos[d.root] < d.goal else d.goal < r.pos[d.root]
    ensures c in m && Bottom(d, side) in m
    ensures Apart(Move(m, side, d.root, c, Bottom(d, side)), Cut(r, d, side), Shifted(d, side, c))
  {
    assert Kid(m[d.root], false) == m[d.root].left && Kid(m[d.root], true) == m[d.root].right;
    assert Bottom(d, side) == if side then d.lb else d.rb;
    hide *;
    if !side {
      MoveLeftApart(m, r, d, c);
    } else {
      MoveRightApart(m, r, d, c);
    }
  }

  // The rotation of a zig-zig step, inside the middle part.

  /** Rotate the middle root over its child c on the given side. */
  function Turn(m: Mem, side: bool, root: Ptr, c: Ptr): (r: Mem)
    requires root in m && c in m
  {
    var b := Kid(m[c], !side);
    var m1 := SetParent(SetKid(m, root, side, b), b, root);
    SetParent(SetParent(SetKid(m1, c, !side, root), root, c), c, NULL)
  }

  function Turned(r: Reading, d: Parts, side: bool, c: Ptr): (s: Reading)
    requires In(r, d.root) && In(r, c)
  {
    var lo, hi := r.lo[c := r.lo[d.root]], r.hi[c := r.hi[d.root]];
    if side then r.(lo := lo, hi := hi[d.root := r.pos[c]]) else r.(lo := lo[d.root := r.pos[c] + 1], hi := hi)
  }

  ghost predicate TurnedLeft(m: Mem, m': Mem, root: Ptr, c: Ptr, b: Ptr) {
    && m'.Keys == m.Keys && root in m && c in m && root != c && b != c && b != root
    && m'[root] == m[root].(left := b, parent := c)
    && m'[c] == m[c].(right := root, parent := NULL)
    && (b in m ==> m'[b] == m[b].(parent := root))
    && (forall x | x in m && x != root && x != c && x != b :: m'[x] == m[x])
  }

  lemma LeftTurn(m: Mem, r: Reading, d: Parts, c: Ptr)
    requires Apart(m, r, d) && m[d.root].left == c && c != NULL
    ensures c in m && In(r, c) && TurnedLeft(m, Turn(m, false, d.root, c), d.root, c, m[c].right)
    ensures r.lo[c] == r.lo[d.root] && r.hi[c] == r.pos[d.root] && Zone(r, d, c) == 0
    ensures r.lo[c] <= r.pos[c] < r.hi[c]
  {
    assert LocalDown(m, r, d, d.root) && HungDown(m, r, d, d.root);
    assert LocalDown(m, r, d, c) && HungDown(m, r, d, c);
    hide Numbered;
  }

  lemma TurnedPair(m: Mem, m': Mem, r: Reading, d: Parts, c: Ptr)
    requires Apart(m, r, d) && m[d.root].left == c && c != NULL
    requires In(r, c) && c in m && TurnedLeft(m, m', d.root, c, m[c].right)
    ensures var r', d' := Turned(r, d, false, c), d.(root := c);
            In(r', c) && In(r', d.root) && LocalDown(m', r', d', c) && LocalDown(m', r', d', d.root)
  {
    assert LocalDown(m, r, d, d.root) && HungDown(m, r, d, d.root);
    assert LocalDown(m, r, d, c);
    hide HungDown;
    hide Numbered;
    hide LeftPart;
    hide RightPart;
  }

  lemma TurnedLocal(m: Mem, m': Mem, r: Reading, d: Parts, c: Ptr, p: Ptr)
    requires Apart(m, r, d) && m[d.root].left == c && c != NULL
    requires In(r, c) && c in m && TurnedLeft(m, m', d.root, c, m[c].right) && In(r, p)
    ensures var r', d' := Turned(r, d, false, c), d.(root := c);
            In(r', p) && In(r', c) && LocalDown(m', r', d', p)
  {
    if p == c || p == d.root {
      TurnedPair(m, m', r, d, c);
    } else {
      assert LocalDown(m, r, d, p);
      assert LocalDown(m, r, d, d.root) && HungDown(m, r, d, d.root);
      assert LocalDown(m, r, d, c);
      hide HungDown;
      hide Numbered;
      hide LeftPart;
      hide RightPart;
    }
  }

  lemma TurnedHung(m: Mem, m': Mem, r: Reading, d: Parts, c: Ptr, p: Ptr)
    requires Apart(m, r, d) && m[d.root].left == c && c != NULL
    requires In(r, c) && c in m && TurnedLeft(m, m', d.root, c, m[c].right) && In(r, p)
    ensures var r', d' := Turned(r, d, false, c), d.(root := c);
            In(r', p) && In(r', c) && HungDown(m', r', d', p)
  {
    assert LocalDown(m, r, d, p) && HungDown(m, r, d, p);
    assert LocalDown(m, r, d, d.root) && HungDown(m, r, d, d.root);
    assert LocalDown(m, r, d, c) && HungDown(m, r, d, c);
    hide Numbered;
    hide LeftPart;
    hide RightPart;
  }

  lemma TurnLeftApart(m: Mem, r: Reading, d: Parts, c: Ptr)
    requires Apart(m, r, d) && m[d.root].left == c && c != NULL
    ensures c in m && In(r, c) && Apart(Turn(m, false, d.root, c), Turned(r, d, false, c), d.(root := c))
  {
    LeftTurn(m, r, d, c);
    var m', r', d' := Turn(m, false, d.root, c), Turned(r, d, false, c), d.(root := c);
    hide Turn;
    hide Numbered;
    MovedNumbered(m, m', r, r');
    forall p | In(r', p)
      ensures LocalDown(m', r', d', p) && HungDown(m', r', d', p)
    {
      TurnedLocal(m, m', r, d, c, p);
      TurnedHung(m, m', r, d, c, p);
    }
    hide LocalDown;
    hide HungDown;
    TurnedParts(m, m', r, d, c);
  }

  lemma TurnedParts(m: Mem, m': Mem, r: Reading, d: Parts, c: Ptr)
    requires Apart(m, r, d) && m[d.root].left == c && c != NULL
    requires In(r, c) && c in m && TurnedLeft(m, m', d.root, c, m[c].right)
    ensures var r', d' := Turned(r, d, false, c), d.(root := c);
            In(r', c) && d.hl in m' && d.hr in m' && LeftPart(m', r', d') && RightPart(m', r', d')
  {
    assert LocalDown(m, r, d, d.root) && HungDown(m, r, d, d.root);
    assert LocalDown(m, r, d, c) && HungDown(m, r, d, c);
    var s := m[d.hr].left;
    if In(r, s) {
      assert LocalDown(m, r, d, s);
    }
    var t := m[d.hl].right;
    if In(r, t) {
      assert LocalDown(m, r, d, t);
    }
    hide Numbered;
  }

  lemma MirrorTurn(m: Mem, root: Ptr, c: Ptr)
    requires root in m && c in m
    ensures Mirror(Turn(Mirror(m), false, root, c)) == Turn(m, true, root, c)
  {
    var b := m[c].left;
    assert Mirror(m)[c].right == b;
    MirrorSets(m, root, b);
    var m1 := SetRight(m, root, b);
    MirrorSets(m1, b, root);
    var m2 := SetParent(m1, b, root);
    MirrorSets(m2, c, root);
    var m3 := SetLeft(m2, c, root);
    MirrorSets(m3, root, c);
    var m4 := SetParent(m3, root, c);
    MirrorSets(m4, c, NULL);
    MirrorSets(SetParent(m4, c, NULL), c, NULL);
    hide Mirror;
  }

  lemma MirrorTwice(r: Reading)
    ensures MirrorReading(MirrorReading(r)) == r
  {
    var r' := MirrorReading(MirrorReading(r));
    assert r'.ns == r.ns;
    assert r'.pos == r.pos;
  }

  lemma MirrorTurned(r: Reading, d: Parts, c: Ptr)
    requires In(r, d.root) && In(r, c)
    ensures In(MirrorReading(r), d.root) && In(MirrorReading(r), c)
    ensures MirrorReading(Turned(MirrorReading(r), MirrorParts(d, |r.ns|), false, c)) == Turned(r, d, true, c)
  {
    MirrorIn(r, d.root);
    MirrorIn(r, c);
    var s := Turned(MirrorReading(r), MirrorParts(d, |r.ns|), false, c);
    var t := MirrorReading(Turned(r, d, true, c));
    assert s.ns == t.ns;
    assert s.pos == t.pos;
    assert s.lo == t.lo;
    assert s.hi == t.hi;
    MirrorTwice(Turned(r, d, true, c));
    hide *;
  }

  lemma TurnRightApart(m: Mem, r: Reading, d: Parts, c: Ptr)
    requires Apart(m, r, d) && m[d.root].right == c && c != NULL
    ensures c in m && In(r, c) && Apart(Turn(m, true, d.root, c), Turned(r, d, true, c), d.(root := c))
  {
    InMiddle(m, r, d, true, c);
    var mm, rr, dd := Mirror(m), MirrorReading(r), MirrorParts(d, |r.ns|);
    MirrorTurned(r, d, c);
    assert |rr.ns| == |r.ns| && mm[d.root].left == c;
    assert Turned(rr, dd, false, c).ns == rr.ns;
    assert MirrorParts(dd.(root := c), |r.ns|) == d.(root := c);
    assert dd.root == d.root;
    assert mm.Keys == m.Keys;
    hide *;
    MirrorApart(m, r, d);
    TurnLeftApart(mm, rr, dd, c);
    MirrorTurn(m, d.root, c);
    MirrorApart(Turn(mm, false, d.root, c), Turned(rr, dd, false, c), dd.(root := c));
  }

  lemma TurnApart(m: Mem, r: Reading, d: Parts, side: bool, c: Ptr)
    requires Apart(m, r, d) && Kid(m[d.root], side) == c && c != NULL
    ensures c in m && In(r, c) && Apart(Turn(m, side, d.root, c), Turned(r, d, side, c), d.(root := c))
  {
    assert Kid(m[d.root], false) == m[d.root].left && Kid(m[d.root], true) == m[d.root].right;
    hide *;
    if !side {
      TurnLeftApart(m, r, d, c);
    } else {
      TurnRightApart(m, r, d, c);
    }
  }
}
