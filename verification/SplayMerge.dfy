/** Top-down splaying: taking the tree apart and putting it together again. */
module SplayMerge {
  import opened SplayShape
  import opened SplayDown

  const BLANK := Cell(NULL, NULL, NULL, NULL, NULL)

  lemma Stored(m: Mem, r: Reading, p: Ptr)
    requires Numbered(m, r)
    ensures In(r, p) ==> p in m
  {
  }

  /** Before the first step the whole tree is the middle part. */
  lemma StartApart(m: Mem, r: Reading, top: Ptr, hl: Ptr, hr: Ptr, goal: int)
    requires NULL !in m && Shape(m, r, top) && 0 <= goal < |r.ns|
    requires hl !in m && hr !in m && hl != hr && hl != NULL && hr != NULL
    ensures Apart(m[hl := BLANK][hr := BLANK], r, Parts(hl, hr, top, hl, hr, goal))
  {
    var m', d := m[hl := BLANK][hr := BLANK], Parts(hl, hr, top, hl, hr, goal);
    Stored(m, r, hl);
    Stored(m, r, hr);
    hide LocalDown;
    hide HungDown;
    forall p | In(r, p)
      ensures LocalDown(m', r, d, p) && HungDown(m', r, d, p)
    {
      assert Local(m, r, p) && Hung(m, r, top, p);
      StartAt(m, m', r, top, d, p);
    }
    hide Local;
    hide Hung;
    assert Apart(m', r, d);
  }

  lemma StartAt(m: Mem, m': Mem, r: Reading, top: Ptr, d: Parts, p: Ptr)
    requires Local(m, r, p) && Hung(m, r, top, p) && In(r, top) && r.lo[top] == 0 && r.hi[top] == |r.ns|
    requires d == Parts(d.hl, d.hr, top, d.hl, d.hr, d.goal) && !In(r, d.hl) && !In(r, d.hr)
    requires forall x | x in m :: x in m' && m'[x] == m[x]
    ensures LocalDown(m', r, d, p) && HungDown(m', r, d, p)
  {
  }

  /** Hook the part below the header h, whose lowest node is b, to the given side of root. */
  function Merge(m: Mem, side: bool, h: Ptr, root: Ptr, b: Ptr): (r: Mem)
    requires h in m && root in m && b in m
    ensures r.Keys == m.Keys
  {
    var s, a := Kid(m[h], !side), Kid(m[root], side);
    if s == NULL then m
    else
      var m1 := if a == NULL then m else SetParent(SetKid(m, b, !side, a), a, b);
      SetParent(SetKid(m1, root, side, s), s, root)
  }

  /** Field by field, what merging the left part does; the header lets go of it. */
  ghost predicate MergedLeft(m: Mem, m': Mem, hl: Ptr, root: Ptr, lb: Ptr, a: Ptr, s: Ptr) {
    && m'.Keys == m.Keys
    && (forall x | x in m ::
          m'[x] == m[x].(parent := if x == s then root else if x == a then lb else m[x].parent,
                         left := if x == root then s else m[x].left,
                         right := if x == hl then NULL else if x == lb then a else m[x].right))
  }

  lemma MergeAt(m: Mem, hl: Ptr, root: Ptr, lb: Ptr, a: Ptr, s: Ptr, x: Ptr)
    requires NULL !in m && hl in m && root in m && lb in m && hl != root && hl != lb && root != lb
    requires s in m && (a != NULL ==> a in m) && m[root].left == a && m[hl].right == s && m[lb].right == NULL && a != s
    requires x in m
    ensures var m' := SetRight(Merge(m, false, hl, root, lb), hl, NULL);
            m'.Keys == m.Keys
            && m'[x] == m[x].(parent := if x == s then root else if x == a then lb else m[x].parent,
                              left := if x == root then s else m[x].left,
                              right := if x == hl then NULL else if x == lb then a else m[x].right)
  {
  }

  lemma MergeIs(m: Mem, hl: Ptr, root: Ptr, lb: Ptr)
    requires NULL !in m && hl in m && root in m && lb in m && hl != root && hl != lb && root != lb
    requires m[hl].right in m && (m[root].left != NULL ==> m[root].left in m) && m[lb].right == NULL
    requires m[root].left != m[hl].right
    ensures MergedLeft(m, SetRight(Merge(m, false, hl, root, lb), hl, NULL), hl, root, lb, m[root].left, m[hl].right)
  {
    MergeAt(m, hl, root, lb, m[root].left, m[hl].right, hl);
    forall x | x in m {
      MergeAt(m, hl, root, lb, m[root].left, m[hl].right, x);
    }
    hide Merge;
    hide SetRight;
  }

  lemma MergeLeftCells(m: Mem, r: Reading, d: Parts)
    requires Apart(m, r, d) && r.lo[d.root] > 0
    ensures d.root in m && d.lb in m && m[d.hl].right != NULL && m[d.lb].right == NULL && d.lb != d.root && d.lb != d.hl
    ensures var a, s := m[d.root].left, m[d.hl].right;
            MergedLeft(m, SetRight(Merge(m, false, d.hl, d.root, d.lb), d.hl, NULL), d.hl, d.root, d.lb, a, s)
  {
    var a, s := m[d.root].left, m[d.hl].right;
    assert LocalDown(m, r, d, d.root) && LocalDown(m, r, d, d.lb);
    assert In(r, s) && LocalDown(m, r, d, s);
    assert a != NULL ==> In(r, a) && LocalDown(m, r, d, a);
    hide Merge;
    hide HungDown;
    hide RightPart;
    hide Numbered;
    assert a != s;
    MergeIs(m, d.hl, d.root, d.lb);
  }

  lemma MergedZone(r: Reading, d: Parts, p: Ptr)
    requires In(r, p) && In(r, d.root) && 0 <= r.lo[d.root] <= r.hi[d.root]
    ensures var r', d' := r.(lo := r.lo[d.root := 0]), d.(lb := d.hl);
            In(r', p) && In(r', d.root) && Zone(r', d', p) == if Zone(r, d, p) < 0 then 0 else Zone(r, d, p)
  {
  }

  lemma MergedLocal(m: Mem, m': Mem, r: Reading, d: Parts, p: Ptr)
    requires Apart(m, r, d) && r.lo[d.root] > 0 && r.pos[d.root] == d.goal && In(r, p) && d.root in m
    requires MergedLeft(m, m', d.hl, d.root, d.lb, m[d.root].left, m[d.hl].right)
    ensures var r', d' := r.(lo := r.lo[d.root := 0]), d.(lb := d.hl);
            In(r', p) && In(r', d.root) && LocalDown(m', r', d', p)
  {
    assert LocalDown(m, r, d, p);
    assert LocalDown(m, r, d, d.root) && HungDown(m, r, d, d.root);
    assert LocalDown(m, r, d, d.lb);
    MergedZone(r, d, p);
    hide HungDown;
    hide Numbered;
    hide RightPart;
    hide Zone;
    var r', d' := r.(lo := r.lo[d.root := 0]), d.(lb := d.hl);
    assert LocalDown(m', r', d', p);
  }

  lemma MergedHung(m: Mem, m': Mem, r: Reading, d: Parts, p: Ptr)
    requires Apart(m, r, d) && r.lo[d.root] > 0 && r.pos[d.root] == d.goal && In(r, p) && d.root in m
    requires MergedLeft(m, m', d.hl, d.root, d.lb, m[d.root].left, m[d.hl].right)
    ensures var r', d' := r.(lo := r.lo[d.root := 0]), d.(lb := d.hl);
            In(r', p) && In(r', d.root) && HungDown(m', r', d', p)
  {
    assert HungDown(m, r, d, p) by { assert LocalDown(m, r, d, p); }
    assert LocalDown(m, r, d, d.root) && HungDown(m, r, d, d.root);
    assert LocalDown(m, r, d, d.lb);
    MergedZone(r, d, p);
    MergedZone(r, d, d.lb);
    var q, a, s := m[p].parent, m[d.root].left, m[d.hl].right;
    assert m[d.lb].right == NULL && In(r, d.lb) && d.lb != d.root && d.lb in m && Zone(r, d, d.lb) < 0;
    assert p == s ==> Zone(r, d, p) < 0 by { assert LocalDown(m, r, d, p); }
    assert p == a ==> Zone(r, d, p) == 0 by { assert LocalDown(m, r, d, p); }
    if In(r, q) {
      MergedZone(r, d, q);
    }
    hide Numbered;
    hide RightPart;
    hide LeftPart;
    hide LocalDown;
    hide Zone;
    hide Holds;
  }

  /** The left part hangs below the root; the middle part now starts at the first place. */
  lemma MergeLeftApart(m: Mem, r: Reading, d: Parts)
    requires Apart(m, r, d) && r.pos[d.root] == d.goal
    ensures d.root in m && d.lb in m
    ensures Apart(SetRight(Merge(m, false, d.hl, d.root, d.lb), d.hl, NULL), r.(lo := r.lo[d.root := 0]), d.(lb := d.hl))
  {
    assert LocalDown(m, r, d, d.root);
    if r.lo[d.root] == 0 {
      assert SetRight(Merge(m, false, d.hl, d.root, d.lb), d.hl, NULL) == m;
      assert r.(lo := r.lo[d.root := 0]) == r && d.(lb := d.hl) == d;
    } else {
      MergeLeftCells(m, r, d);
      hide *;
      MergedApart(m, SetRight(Merge(m, false, d.hl, d.root, d.lb), d.hl, NULL), r, d);
    }
  }

  lemma MergedApart(m: Mem, m': Mem, r: Reading, d: Parts)
    requires Apart(m, r, d) && r.lo[d.root] > 0 && r.pos[d.root] == d.goal && d.root in m
    requires MergedLeft(m, m', d.hl, d.root, d.lb, m[d.root].left, m[d.hl].right)
    ensures Apart(m', r.(lo := r.lo[d.root := 0]), d.(lb := d.hl))
  {
    var r', d' := r.(lo := r.lo[d.root := 0]), d.(lb := d.hl);
    hide Numbered;
    hide LocalDown;
    hide HungDown;
    hide LeftPart;
    hide RightPart;
    MovedNumbered(m, m', r, r');
    forall p | In(r', p)
      ensures LocalDown(m', r', d', p) && HungDown(m', r', d', p)
    {
      MergedLocal(m, m', r, d, p);
      MergedHung(m, m', r, d, p);
    }
    MergedRest(m, m', r, d);
    assert Apart(m', r', d');
  }

  lemma MergedRest(m: Mem, m': Mem, r: Reading, d: Parts)
    requires Apart(m, r, d) && r.lo[d.root] > 0 && r.pos[d.root] == d.goal && d.root in m
    requires MergedLeft(m, m', d.hl, d.root, d.lb, m[d.root].left, m[d.hl].right)
    ensures var r', d' := r.(lo := r.lo[d.root := 0]), d.(lb := d.hl);
            In(r', d.root) && d.hl in m' && d.hr in m' && LeftPart(m', r', d') && RightPart(m', r', d')
  {
    assert LocalDown(m, r, d, d.root) && HungDown(m, r, d, d.root);
    var t := m[d.hr].left;
    if In(r, t) {
      assert LocalDown(m, r, d, t);
    }
    hide Numbered;
  }

  lemma MirrorMerge(m: Mem, h: Ptr, root: Ptr, b: Ptr)
    requires h in m && root in m && b in m
    ensures Mirror(SetRight(Merge(Mirror(m), false, h, root, b), h, NULL)) == SetLeft(Merge(m, true, h, root, b), h, NULL)
  {
    var mm := Mirror(m);
    var s, a := m[h].left, m[root].right;
    assert Kid(mm[h], true) == s && Kid(mm[root], false) == a;
    var m1 := SetLeft(m, b, a);
    var m2 := SetParent(m1, a, b);
    var m3 := if a == NULL then m else m2;
    var m4 := SetRight(m3, root, s);
    var m5 := SetParent(m4, s, root);
    var m6 := if s == NULL then m else m5;
    assert m6 == Merge(m, true, h, root, b);
    MirrorSets(m, b, a);
    MirrorSets(m1, a, b);
    MirrorSets(m3, root, s);
    MirrorSets(m4, s, root);
    MirrorSets(m6, h, NULL);
    MirrorSets(SetLeft(m6, h, NULL), h, NULL);
    hide Mirror;
  }

  lemma MirrorSame(r: Reading, s: Reading)
    requires s.ns == r.ns && s.pos == r.pos
    ensures MirrorReading(s).ns == MirrorReading(r).ns && MirrorReading(s).pos == MirrorReading(r).pos
    ensures s.lo == r.lo ==> MirrorReading(s).hi == MirrorReading(r).hi
  {
  }

  lemma MirrorHi(r: Reading, p: Ptr)
    ensures MirrorReading(r.(hi := r.hi[p := |r.ns|])).lo == MirrorReading(r).lo[p := 0]
  {
  }

  lemma MirrorRaised(r: Reading, p: Ptr)
    requires In(r, p)
    ensures MirrorReading(MirrorReading(r).(lo := MirrorReading(r).lo[p := 0])) == r.(hi := r.hi[p := |r.ns|])
  {
    hide *;
    var s := r.(hi := r.hi[p := |r.ns|]);
    MirrorSame(r, s);
    MirrorHi(r, p);
    assert MirrorReading(s) == MirrorReading(r).(lo := MirrorReading(r).lo[p := 0]);
    MirrorTwice(s);
  }

  lemma MergeRightApart(m: Mem, r: Reading, d: Parts)
    requires Apart(m, r, d) && r.pos[d.root] == d.goal
    ensures d.root in m && d.rb in m
    ensures Apart(SetLeft(Merge(m, true, d.hr, d.root, d.rb), d.hr, NULL), r.(hi := r.hi[d.root := |r.ns|]), d.(rb := d.hr))
  {
    hide *;
    HeaderApart(m, r, d);
    var n := |r.ns|;
    var mm, rr, dd := Mirror(m), MirrorReading(r), MirrorParts(d, n);
    PartsFacts(d, n);
    MirrorFacts(m, r, d.root);
    MirrorRaised(r, d.root);
    MirrorApart(m, r, d);
    MergeLeftApart(mm, rr, dd);
    MirrorMerge(m, d.hr, d.root, d.rb);
    MirrorApart(SetRight(Merge(mm, false, dd.hl, d.root, dd.lb), dd.hl, NULL), rr.(lo := rr.lo[d.root := 0]), dd.(lb := dd.hl));
  }

  lemma PartsFacts(d: Parts, n: int)
    ensures var dd := MirrorParts(d, n);
            && dd.lb == d.rb && dd.hl == d.hr && dd.root == d.root && dd.goal == n - 1 - d.goal
            && MirrorParts(dd.(lb := dd.hl), n) == d.(rb := d.hr)
  {
  }

  lemma MirrorFacts(m: Mem, r: Reading, p: Ptr)
    requires In(r, p)
    ensures Mirror(m).Keys == m.Keys && |MirrorReading(r).ns| == |r.ns|
    ensures In(MirrorReading(r), p) && MirrorReading(r).pos[p] == |r.ns| - 1 - r.pos[p]
  {
    MirrorIn(r, p);
  }

  /** A middle part that holds everything is a search tree. */
  lemma WholeShape(m: Mem, r: Reading, d: Parts)
    requires Apart(m, r, d) && r.lo[d.root] == 0 && r.hi[d.root] == |r.ns|
    ensures Shape(m - {d.hl, d.hr}, r, d.root)
  {
    var m' := m - {d.hl, d.hr};
    forall i | 0 <= i < |r.ns|
      ensures In(r, r.ns[i]) && r.pos[r.ns[i]] == i && r.ns[i] in m' && r.ns[i] != NULL
    {
      assert In(r, r.ns[i]);
    }
    forall p | In(r, p)
      ensures Local(m', r, p) && Hung(m', r, d.root, p)
    {
      assert LocalDown(m, r, d, p) && HungDown(m, r, d, p);
    }
  }

  /** The same memory, but for the cell h. */
  ghost predicate SameBut(m: Mem, n: Mem, h: Ptr) {
    m.Keys == n.Keys && (forall x | x in m && x != h :: m[x] == n[x])
  }

  lemma SameSets(m: Mem, n: Mem, h: Ptr, p: Ptr, x: Ptr)
    requires SameBut(m, n, h)
    ensures SameBut(SetParent(m, p, x), SetParent(n, p, x), h)
    ensures p in m ==> SameBut(SetLeft(m, p, x), SetLeft(n, p, x), h) && SameBut(SetRight(m, p, x), SetRight(n, p, x), h)
  {
  }

  /** What is left in the header of the left part does not matter for the right one. */
  lemma MergeRightSame(m: Mem, n: Mem, hl: Ptr, hr: Ptr, root: Ptr, rb: Ptr)
    requires hl in m && hr in m && root in m && rb in m && hl != hr && hl != root && SameBut(m, n, hl)
    ensures Merge(m, true, hr, root, rb) - {hl, hr} == SetLeft(Merge(n, true, hr, root, rb), hr, NULL) - {hl, hr}
  {
    var s, a := m[hr].left, m[root].right;
    assert n[hr].left == s && n[root].right == a;
    SameSets(m, n, hl, rb, a);
    SameSets(SetLeft(m, rb, a), SetLeft(n, rb, a), hl, a, rb);
    var m1 := if a == NULL then m else SetParent(SetLeft(m, rb, a), a, rb);
    var n1 := if a == NULL then n else SetParent(SetLeft(n, rb, a), a, rb);
    SameSets(m1, n1, hl, root, s);
    SameSets(SetRight(m1, root, s), SetRight(n1, root, s), hl, s, root);
    var u, v := Merge(m, true, hr, root, rb), Merge(n, true, hr, root, rb);
    assert SameBut(u, v, hl);
    hide Merge;
    hide SetParent;
    assert (u - {hl, hr}).Keys == (SetLeft(v, hr, NULL) - {hl, hr}).Keys;
  }

  /** Both parts hooked to the root make one search tree of the same sequence. */
  lemma MergeShape(m: Mem, r: Reading, d: Parts)
    requires Apart(m, r, d) && r.pos[d.root] == d.goal
    ensures d.root in m && d.lb in m && d.rb in m
    ensures Shape(Merge(Merge(m, false, d.hl, d.root, d.lb), true, d.hr, d.root, d.rb) - {d.hl, d.hr},
                  r.(lo := r.lo[d.root := 0], hi := r.hi[d.root := |r.ns|]), d.root)
  {
    MergeLeftApart(m, r, d);
    var m0 := Merge(m, false, d.hl, d.root, d.lb);
    var m1, r1, d1 := SetRight(m0, d.hl, NULL), r.(lo := r.lo[d.root := 0]), d.(lb := d.hl);
    assert m1.Keys == m0.Keys && (forall x | x in m0 && x != d.hl :: m1[x] == m0[x]);
    hide Merge;
    hide SetRight;
    MergeRightApart(m1, r1, d1);
    var m2, r2, d2 := SetLeft(Merge(m1, true, d.hr, d.root, d.rb), d.hr, NULL), r1.(hi := r1.hi[d.root := |r.ns|]), d1.(rb := d.hr);
    HeaderApart(m1, r1, d1);
    MergeRightSame(m0, m1, d.hl, d.hr, d.root, d.rb);
    hide SetLeft;
    hide Apart;
    WholeShape(m2, r2, d2);
    assert r2 == r.(lo := r.lo[d.root := 0], hi := r.hi[d.root := |r.ns|]);
  }

  lemma HeaderApart(m: Mem, r: Reading, d: Parts)
    requires Apart(m, r, d)
    ensures In(r, d.root) && d.root in m && d.rb in m && d.hr in m && d.hl != d.root && d.hr != d.root && d.hl != d.rb && m[d.root].right != d.hl && m[d.hr].left != d.hl
  {
    assert LocalDown(m, r, d, d.root);
    if In(r, d.rb) {
      assert LocalDown(m, r, d, d.rb);
    }
  }
}
