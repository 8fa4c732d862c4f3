/** A node hung on top of a splayed tree, and the topmost node taken out of it. */
module SplayInsert {
  import opened SplayShape
  import opened SplaySearch
  import opened SplayOrder

  /** The stores of splay_insert_before (side true) and splay_insert_after (side false)
      once the neighbour is the topmost node. */
  function HangTop(m: Mem, side: bool, at: Ptr, node: Ptr): (r: Mem)
    requires at in m && node in m
  {
    var m1 := SetParent(SetKid(m, node, side, at), at, node);
    var b := Kid(m1[at], !side);
    var m2 := SetParent(SetKid(m1, node, !side, b), b, node);
    SetParent(SetKid(m2, at, !side, NULL), node, NULL)
  }

  ghost predicate Hanged(m: Mem, m': Mem, side: bool, at: Ptr, node: Ptr, b: Ptr) {
    && m'.Keys == m.Keys && at in m && node in m && at != node && b != at && b != node
    && m'[node] == WithKid(WithKid(m[node], side, at), !side, b).(parent := NULL)
    && m'[at] == WithKid(m[at], !side, NULL).(parent := node)
    && (b in m ==> m'[b] == m[b].(parent := node))
    && (forall x | x in m && x != at && x != node && x != b :: m'[x] == m[x])
  }

  /** The place at which a node next to at comes in. */
  function Place(r: Reading, side: bool, at: Ptr): (k: int)
    requires In(r, at)
  {
    if side then r.pos[at] else r.pos[at] + 1
  }

  /** The reading with node at place k. */
  function Inserted(r: Reading, side: bool, at: Ptr, node: Ptr): (s: Reading)
    requires In(r, at)
  {
    var n, k := |r.ns|, Place(r, side, at);
    var pos := map x | x in r.pos :: if r.pos[x] >= k then r.pos[x] + 1 else r.pos[x];
    var lo := map x | x in r.lo :: if r.lo[x] >= k then r.lo[x] + 1 else r.lo[x];
    var hi := map x | x in r.hi :: if r.hi[x] > k then r.hi[x] + 1 else r.hi[x];
    Reading(InsertAt(r.ns, k, node), pos[node := k],
            lo[node := 0][at := if side then k + 1 else 0], hi[node := n + 1][at := if side then n + 1 else k])
  }

  lemma HangCells(m: Mem, r: Reading, side: bool, at: Ptr, node: Ptr)
    requires NULL !in m && Shape(m, r, at) && In(r, at) && node in m && !In(r, node)
    ensures at in m && Hanged(m, HangTop(m, side, at, node), side, at, node, Kid(m[at], !side))
  {
    assert Local(m, r, at);
  }

  /** The old nodes in the new reading. */
  lemma InsertedIn(m: Mem, r: Reading, side: bool, at: Ptr, node: Ptr, x: Ptr)
    requires Numbered(m, r) && In(r, at) && !In(r, node)
    ensures In(Inserted(r, side, at, node), x) <==> x == node || In(r, x)
  {
    var r', k := Inserted(r, side, at, node), Place(r, side, at);
    if In(r', x) && x != node {
      var i := r'.pos[x];
      assert r'.ns[i] == if i < k then r.ns[i] else if i == k then node else r.ns[i - 1];
      assert In(r, x);
    }
    if In(r, x) {
      var i := r.pos[x];
      assert r'.ns[if i < k then i else i + 1] == x;
    }
  }

  lemma InsertedNumbered(m: Mem, m': Mem, r: Reading, side: bool, at: Ptr, node: Ptr)
    requires Numbered(m, r) && In(r, at) && !In(r, node) && node in m' && m'.Keys == m.Keys && NULL !in m
    ensures Numbered(m', Inserted(r, side, at, node))
  {
    var r', k := Inserted(r, side, at, node), Place(r, side, at);
    forall i | 0 <= i < |r'.ns|
      ensures In(r', r'.ns[i]) && r'.pos[r'.ns[i]] == i && r'.ns[i] in m' && r'.ns[i] != NULL
    {
      var x := r'.ns[i];
      assert x == if i < k then r.ns[i] else if i == k then node else r.ns[i - 1];
      InsertedIn(m, r, side, at, node, x);
    }
  }

  lemma InsertedFields(m: Mem, r: Reading, side: bool, at: Ptr, node: Ptr, x: Ptr)
    requires Numbered(m, r) && In(r, at) && !In(r, node) && In(r, x)
    ensures var r', k, n := Inserted(r, side, at, node), Place(r, side, at), |r.ns|;
            && In(r', x) && |r'.ns| == n + 1
            && r'.pos[x] == (if r.pos[x] >= k then r.pos[x] + 1 else r.pos[x])
            && (x != at ==> r'.lo[x] == if r.lo[x] >= k then r.lo[x] + 1 else r.lo[x])
            && (x != at ==> r'.hi[x] == if r.hi[x] > k then r.hi[x] + 1 else r.hi[x])
  {
    InsertedIn(m, r, side, at, node, x);
  }

  lemma InsertedPair(m: Mem, r: Reading, side: bool, at: Ptr, node: Ptr)
    requires Numbered(m, r) && In(r, at) && !In(r, node)
    ensures var r', k, n := Inserted(r, side, at, node), Place(r, side, at), |r.ns|;
            && In(r', node) && r'.pos[node] == k && r'.lo[node] == 0 && r'.hi[node] == n + 1
            && In(r', at) && r'.lo[at] == (if side then k + 1 else 0) && r'.hi[at] == (if side then n + 1 else k)
  {
    InsertedIn(m, r, side, at, node, node);
    InsertedIn(m, r, side, at, node, at);
  }

  lemma InsertedLocal(m: Mem, m': Mem, r: Reading, side: bool, at: Ptr, node: Ptr, x: Ptr)
    requires NULL !in m && Shape(m, r, at) && In(r, at) && node in m && !In(r, node) && In(r, x) && x != at
    requires at in m && Hanged(m, m', side, at, node, Kid(m[at], !side))
    ensures Local(m', Inserted(r, side, at, node), x)
  {
    hide Inserted;
    assert Local(m, r, x) && Hung(m, r, at, x);
    assert Local(m, r, at) && Hung(m, r, at, at);
    InSubtree(m, r, at, at, x);
    InsertedFields(m, r, side, at, node, x);
    var y, z := m[x].left, m[x].right;
    if y != NULL {
      InsertedFields(m, r, side, at, node, y);
    }
    if z != NULL {
      InsertedFields(m, r, side, at, node, z);
    }
    assert y != at && z != at;
    assert Kid(m[at], !side) != NULL ==> y != Kid(m[at], !side) && z != Kid(m[at], !side);
    hide Shape;
    hide Hung;
  }

  lemma InsertedTop(m: Mem, m': Mem, r: Reading, side: bool, at: Ptr, node: Ptr)
    requires NULL !in m && Shape(m, r, at) && In(r, at) && node in m && !In(r, node)
    requires at in m && Hanged(m, m', side, at, node, Kid(m[at], !side))
    ensures Local(m', Inserted(r, side, at, node), at) && Local(m', Inserted(r, side, at, node), node)
  {
    hide Inserted;
    assert Local(m, r, at);
    InsertedPair(m, r, side, at, node);
    InsertedFields(m, r, side, at, node, at);
    var y, z := m[at].left, m[at].right;
    if y != NULL {
      InsertedFields(m, r, side, at, node, y);
    }
    if z != NULL {
      InsertedFields(m, r, side, at, node, z);
    }
    hide Shape;
  }

  lemma InsertedHung(m: Mem, m': Mem, r: Reading, side: bool, at: Ptr, node: Ptr, x: Ptr)
    requires NULL !in m && Shape(m, r, at) && In(r, at) && node in m && !In(r, node) && (In(r, x) || x == node)
    requires at in m && Hanged(m, m', side, at, node, Kid(m[at], !side))
    ensures Hung(m', Inserted(r, side, at, node), node, x)
  {
    hide Inserted;
    InsertedIn(m, r, side, at, node, node);
    InsertedIn(m, r, side, at, node, at);
    if x != node {
      assert Local(m, r, x) && Hung(m, r, at, x);
      assert Local(m, r, at);
      InsertedIn(m, r, side, at, node, m[x].parent);
      if x != at {
        assert Local(m, r, m[x].parent);
      }
    }
  }

  /** Hanging node on top of a tree whose topmost node is at puts it next to at. */
  lemma InsertShape(m: Mem, r: Reading, side: bool, at: Ptr, node: Ptr)
    requires NULL !in m && Shape(m, r, at) && In(r, at) && node in m && !In(r, node)
    ensures at in m && Shape(HangTop(m, side, at, node), Inserted(r, side, at, node), node)
  {
    HangCells(m, r, side, at, node);
    var m', r' := HangTop(m, side, at, node), Inserted(r, side, at, node);
    InsertedNumbered(m, m', r, side, at, node);
    InsertedPair(m, r, side, at, node);
    InsertedTop(m, m', r, side, at, node);
    assert |r'.ns| == |r.ns| + 1;
    hide HangTop;
    hide Inserted;
    hide Local;
    hide Hung;
    hide Hanged;
    forall x | In(r', x)
      ensures Local(m', r', x) && Hung(m', r', node, x)
    {
      InsertedIn(m, r, side, at, node, x);
      if x != node && x != at {
        InsertedLocal(m, m', r, side, at, node, x);
      }
      InsertedHung(m, m', r, side, at, node, x);
    }
  }

  // Taking the topmost node out.

  /** The stores of splay_unlink_node once the node is the topmost one. */
  function TakeTop(m: Mem, node: Ptr): (r: Mem)
    requires node in m && (m[node].prev != NULL ==> m[node].prev in m)
  {
    var c := m[node];
    if c.prev != NULL then SetParent(SetRight(SetParent(m, c.left, NULL), c.prev, c.right), c.right, c.prev)
    else if c.next != NULL then SetParent(m, c.right, NULL)
    else m
  }

  function NewTop(m: Mem, node: Ptr): (p: Ptr)
    requires node in m
  {
    if m[node].prev != NULL then m[node].left else if m[node].next != NULL then m[node].right else NULL
  }

  /** The reading without node. What ended just before node now ends at the end. */
  function Removed(r: Reading, node: Ptr): (s: Reading)
    requires In(r, node)
  {
    var n, k := |r.ns|, r.pos[node];
    Reading(RemoveAt(r.ns, k), map x | x in r.pos :: if r.pos[x] > k then r.pos[x] - 1 else r.pos[x],
            map x | x in r.lo :: if r.lo[x] > k then r.lo[x] - 1 else r.lo[x],
            map x | x in r.hi :: if r.hi[x] > k then r.hi[x] - 1 else if r.hi[x] == k then n - 1 else r.hi[x])
  }

  lemma RemovedFields(m: Mem, r: Reading, node: Ptr, x: Ptr)
    requires Numbered(m, r) && In(r, node)
    ensures var r', k, n := Removed(r, node), r.pos[node], |r.ns|;
            && |r'.ns| == n - 1 && (In(r', x) <==> x != node && In(r, x))
            && (In(r', x) ==> r'.pos[x] == if r.pos[x] > k then r.pos[x] - 1 else r.pos[x])
            && (In(r', x) ==> r'.lo[x] == if r.lo[x] > k then r.lo[x] - 1 else r.lo[x])
            && (In(r', x) ==> r'.hi[x] == if r.hi[x] > k then r.hi[x] - 1 else if r.hi[x] == k then n - 1 else r.hi[x])
  {
    var r', k := Removed(r, node), r.pos[node];
    if In(r', x) {
      var i := r'.pos[x];
      assert r'.ns[i] == if i < k then r.ns[i] else r.ns[i + 1];
      assert x != node && In(r, x);
    }
    if In(r, x) && x != node {
      var i := r.pos[x];
      assert r'.ns[if i < k then i else i - 1] == x;
    }
  }

  lemma RemovedNumbered(m: Mem, m': Mem, r: Reading, node: Ptr)
    requires Numbered(m, r) && In(r, node) && m'.Keys == m.Keys
    ensures Numbered(m', Removed(r, node))
  {
    var r', k := Removed(r, node), r.pos[node];
    forall i | 0 <= i < |r'.ns|
      ensures In(r', r'.ns[i]) && r'.pos[r'.ns[i]] == i && r'.ns[i] in m' && r'.ns[i] != NULL
    {
      var x := r'.ns[i];
      assert x == if i < k then r.ns[i] else r.ns[i + 1];
      RemovedFields(m, r, node, x);
    }
  }

  /** node is the topmost node, between its neighbours in the sequence. */
  ghost predicate OnTop(m: Mem, r: Reading, node: Ptr) {
    && NULL !in m && Shape(m, r, node) && In(r, node) && node in m
    && m[node].prev == At(r.ns, r.pos[node] - 1) && m[node].next == At(r.ns, r.pos[node] + 1)
    && (m[node].prev != NULL ==> m[node].prev in m)
  }

  /** Field by field, what taking the topmost node out does. */
  ghost predicate Taken(m: Mem, m': Mem, node: Ptr) {
    && node in m && m'.Keys == m.Keys
    && var c := m[node];
       forall x | x in m ::
          m'[x] == m[x].(parent := if x == c.right then c.prev else if x == c.left then NULL else m[x].parent,
                         right := if x == c.prev then c.right else m[x].right)
  }

  lemma TakeCells(m: Mem, r: Reading, node: Ptr)
    requires OnTop(m, r, node)
    ensures Taken(m, TakeTop(m, node), node)
    ensures m[node].prev != NULL <==> r.pos[node] > 0
    ensures m[node].next != NULL <==> r.pos[node] + 1 < |r.ns|
    ensures m[node].prev != NULL ==> In(r, m[node].prev) && r.pos[m[node].prev] == r.pos[node] - 1
    ensures Local(m, r, node)
  {
    assert Local(m, r, node);
    var c := m[node];
    if c.left != NULL {
      assert Local(m, r, c.left);
    }
    if c.right != NULL {
      assert Local(m, r, c.right);
    }
    hide Hung;
  }

  lemma RemovedLocal(m: Mem, m': Mem, r: Reading, node: Ptr, x: Ptr)
    requires OnTop(m, r, node) && Taken(m, m', node) && In(r, x) && x != node
    ensures Local(m', Removed(r, node), x)
  {
    hide Removed;
    TakeCells(m, r, node);
    assert Local(m, r, x) && Hung(m, r, node, x);
    assert Hung(m, r, node, node);
    InSubtree(m, r, node, node, x);
    RemovedFields(m, r, node, x);
    var y, z, b := m[x].left, m[x].right, m[node].right;
    if y != NULL {
      RemovedFields(m, r, node, y);
    }
    if z != NULL {
      RemovedFields(m, r, node, z);
    }
    if b != NULL {
      RemovedFields(m, r, node, b);
    }
    assert y != node && z != node;
    hide OnTop;
    hide In;
    hide Shape;
    hide Hung;
    hide Numbered;
    assert Local(m', Removed(r, node), x);
  }

  lemma RemovedHung(m: Mem, m': Mem, r: Reading, node: Ptr, x: Ptr)
    requires OnTop(m, r, node) && Taken(m, m', node) && In(r, x) && x != node
    ensures Hung(m', Removed(r, node), NewTop(m, node), x)
  {
    hide Removed;
    TakeCells(m, r, node);
    assert Local(m, r, x) && Hung(m, r, node, x);
    var y, p := m[x].parent, m[node].prev;
    assert Local(m, r, y) && Hung(m, r, node, y);
    RemovedFields(m, r, node, y);
    RemovedFields(m, r, node, p);
    if p != NULL {
      assert Local(m, r, p);
      InSubtree(m, r, node, node, p);
      assert m[p].right == NULL;
    }
    hide Shape;
    hide Numbered;
  }

  /** Taking out the topmost node leaves a search tree of the rest. */
  lemma UnlinkShape(m: Mem, r: Reading, node: Ptr)
    requires OnTop(m, r, node)
    ensures Shape(TakeTop(m, node), Removed(r, node), NewTop(m, node))
  {
    var m', r', top := TakeTop(m, node), Removed(r, node), NewTop(m, node);
    TakeCells(m, r, node);
    RemovedNumbered(m, m', r, node);
    RemovedFields(m, r, node, m[node].left);
    RemovedFields(m, r, node, m[node].right);
    hide Removed;
    hide TakeTop;
    hide Numbered;
    forall x | In(r', x)
      ensures Local(m', r', x) && Hung(m', r', top, x)
    {
      RemovedFields(m, r, node, x);
      RemovedLocal(m, m', r, node, x);
      RemovedHung(m, m', r, node, x);
    }
    hide Hung;
  }
}
