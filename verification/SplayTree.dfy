/** splay_tree.c: the tree object and its operations, on an explicit memory. */
module SplayTree {
  import opened SplayShape
  import opened SplayUp
  import opened SplayDown
  import opened SplayMerge
  import opened SplaySearch
  import opened SplayDescent
  import opened SplayOrder
  import opened SplayInsert
  import opened SplayIndex
  import I = OrderedIndex

  /** The addresses of the two header nodes that splay_top_down keeps on its stack. */
  const LEFT: Ptr := 1
  const RIGHT: Ptr := 2

  class Tree<K(!new)> {
    const compare: (K, K) -> int
    var mem: Mem
    var data: map<Ptr, K>
    var head: Ptr
    var tail: Ptr
    var root: Ptr
    var count: nat
    ghost var reading: Reading

    /** A search tree with consistent parent links, threaded in its own order. */
    ghost predicate Valid()
      reads this
    {
      && NULL !in mem && LEFT !in mem && RIGHT !in mem
      && Shape(mem, reading, root) && Threaded(mem, reading.ns, head, tail) && count == |reading.ns|
      && mem.Keys <= data.Keys
    }

    /** splay_alloc_tree. */
    constructor (compare: (K, K) -> int)
      ensures Valid() && reading.ns == [] && this.compare == compare && mem == map[]
    {
      this.compare := compare;
      mem, data := map[], map[];
      head, tail, root, count := NULL, NULL, NULL, 0;
      reading := Reading([], map[], map[], map[]);
    }

    /** Set a child pointer and, if there is a child, its parent pointer. */
    method Link(p: Ptr, side: bool, x: Ptr)
      requires NULL !in mem && p in mem
      modifies this`mem
      ensures mem == Linked(old(mem), p, side, x) && NULL !in mem
    {
      mem := SetKid(mem, p, side, x);
      if x != NULL {
        mem := SetParent(mem, x, p);
      }
    }

    /** node takes the place of grandparent below greatgrandparent. */
    method Reattach(node: Ptr, grandparent: Ptr, greatgrandparent: Ptr)
      requires NULL !in mem && node in mem && (greatgrandparent == NULL || greatgrandparent in mem)
      modifies this`mem
      ensures mem == Reattached(old(mem), node, grandparent, greatgrandparent)
    {
      mem := SetParent(mem, node, greatgrandparent);
      if greatgrandparent != NULL {
        if grandparent == mem[greatgrandparent].left {
          mem := SetKid(mem, greatgrandparent, false, node);
        } else {
          mem := SetKid(mem, greatgrandparent, true, node);
        }
      }
    }

    /** node is a child of the topmost node. */
    method Zig(node: Ptr, parent: Ptr, side: bool)
      requires NULL !in mem && node in mem && parent in mem
      modifies this`mem
      ensures mem == Reattached(Linked(Linked(old(mem), parent, side, Kid(old(mem)[node], !side)), node, !side, parent), node, NULL, NULL)
    {
      Link(parent, side, Kid(mem[node], !side));
      Link(node, !side, parent);
      mem := SetParent(mem, node, NULL);
    }

    /** The zig-zig steps, left and right. */
    method ZigZig(node: Ptr, parent: Ptr, grandparent: Ptr, side: bool)
      requires NULL !in mem && node in mem && parent in mem && grandparent in mem
      requires mem[grandparent].parent == NULL || mem[grandparent].parent in mem
      modifies this`mem
      ensures mem == ZigZigMem(old(mem), side, node, parent, grandparent)
    {
      hide Linked;
      var greatgrandparent := mem[grandparent].parent;
      Link(grandparent, side, Kid(mem[parent], !side));
      Link(parent, !side, grandparent);
      Link(parent, side, Kid(mem[node], !side));
      Link(node, !side, parent);
      Reattach(node, grandparent, greatgrandparent);
    }

    /** The zig-zag steps: parent is the child of grandparent on the given side, node the
        child of parent on the other. */
    method ZigZag(node: Ptr, parent: Ptr, grandparent: Ptr, side: bool)
      requires NULL !in mem && node in mem && parent in mem && grandparent in mem
      requires mem[grandparent].parent == NULL || mem[grandparent].parent in mem
      modifies this`mem
      ensures mem == ZigZagMem(old(mem), side, node, parent, grandparent)
    {
      hide Linked;
      var greatgrandparent := mem[grandparent].parent;
      Link(parent, !side, Kid(mem[node], side));
      Link(node, side, parent);
      Link(grandparent, side, Kid(mem[node], !side));
      Link(node, !side, grandparent);
      Reattach(node, grandparent, greatgrandparent);
    }

    /** splay_bottom_up: node becomes the root, the sequence and the threads stay. */
    method SplayBottomUp(node: Ptr)
      requires NULL !in mem && Shape(mem, reading, root) && In(reading, node)
      modifies this`mem, this`root, this`reading
      ensures NULL !in mem && root == node && Shape(mem, reading, root) && SameThreads(old(mem), mem)
      ensures reading.ns == old(reading).ns && reading.pos == old(reading).pos
    {
      hide Shape;
      hide ZigZigMem;
      hide ZigZagMem;
      hide Linked;
      ghost var top: Ptr := root;
      TopOf(mem, reading, top, node);
      while mem[node].parent != NULL
        invariant NULL !in mem && Shape(mem, reading, top) && SameThreads(old(mem), mem)
        invariant node in mem && In(reading, node) && (mem[node].parent == NULL <==> node == top)
        invariant reading.ns == old(reading).ns && reading.pos == old(reading).pos
        decreases |reading.ns| - (reading.hi[node] - reading.lo[node])
      {
        ghost var m, r := mem, reading;
        var parent := mem[node].parent;
        RotateCells(m, r, top, node);
        RangeBound(m, r, top, node);
        var side := mem[parent].left != node;
        var grandparent := mem[parent].parent;
        if grandparent == NULL {
          Zig(node, parent, side);
          ZigMemCells(m, r, node, parent);
          reading := ZigShape(m, mem, r, node, parent);
          top := node;
        } else {
          RotateCells(m, r, top, parent);
          FamilyOf(m, r, top, node);
          if side == (mem[grandparent].left != parent) {
            ZigZigMemCells(m, side, node, parent, grandparent, m[node].left, m[node].right, Kid(m[parent], !side), m[grandparent].parent);
            ZigZig(node, parent, grandparent, side);
            reading := ZigZigShape(m, mem, r, top, node, parent, grandparent);
          } else {
            ZigZagMemCells(m, !side, node, parent, grandparent, m[node].left, m[node].right, Kid(m[parent], !side), m[grandparent].parent);
            ZigZag(node, parent, grandparent, !side);
            reading := ZigZagShape(m, mem, r, top, node, parent, grandparent);
          }
          top := if grandparent == top then node else top;
        }
        RangeBound(mem, reading, top, node);
        TopOf(mem, reading, top, node);
      }
      root := node;
    }
 
    /** splay_search_closest_node_nosplay: the plain descent. */
    method SearchClosestNosplay(key: K) returns (node: Ptr, result: int)
      requires Valid()
      ensures if reading.ns == [] then node == NULL && result == 0
              else EndsAt(reading, Signs(data, compare, key), node) && node in data && result == compare(key, data[node])
    {
      node := root;
      if node == NULL {
        return node, 0;
      }
      ghost var sgn := Signs(data, compare, key);
      ghost var t := DescentEnds(mem, reading, root, sgn);
      while true
        invariant In(reading, node) && reading.lo[node] <= reading.pos[t] < reading.hi[node]
        decreases reading.hi[node] - reading.lo[node]
      {
        assert Local(mem, reading, node);
        assert OnPath(reading, reading.pos[t], sgn, node);
        result := compare(key, data[node]);
        if result < 0 && mem[node].left != NULL {
          node := mem[node].left;
        } else if result > 0 && mem[node].right != NULL {
          node := mem[node].right;
        } else {
          assert node == t;
          return;
        }
      }
    }

    /** splay_top_down: the node at which the plain descent ends becomes the root; the
        sequence and the threads stay. */
    method SplayTopDown(key: K) returns (node: Ptr, result: int)
      requires Valid()
      modifies this`mem, this`root, this`reading
      ensures Valid() && SameThreads(old(mem), mem) && reading.ns == old(reading).ns && reading.pos == old(reading).pos
      ensures root == node
      ensures if reading.ns == [] then node == NULL && result == 0
              else EndsAt(old(reading), Signs(data, compare, key), node) && node in data && result == compare(key, data[node])
    {
      if root == NULL {
        return NULL, 0;
      }
      ghost var sgn := Signs(data, compare, key);
      ghost var t := DescentEnds(mem, reading, root, sgn);
      var m := mem[LEFT := BLANK][RIGHT := BLANK];
      ghost var r, d := reading, Parts(LEFT, RIGHT, root, LEFT, RIGHT, reading.pos[t]);
      assert In(r, root) && r.ns != [];
      assert m.Keys == mem.Keys + {LEFT, RIGHT};
      assert LEFT != RIGHT && LEFT != NULL && RIGHT != NULL;
      SamePlace(r, t);
      hide *;
      StartApart(mem, r, root, LEFT, RIGHT, d.goal);
      StartPath(mem, r, root, sgn, d, t);
      m, node, result, r := Descend(key, m, r, d, sgn);
      SamePlace(reading, node);
      DropHeaders(mem, m);
      Install(m - {LEFT, RIGHT}, node, r);
    }

    /** The tree links change, the sequence does not. */
    method Install(m: Mem, top: Ptr, ghost r: Reading)
      requires Valid() && SameThreads(mem, m) && Shape(m, r, top) && r.ns == reading.ns && r.pos == reading.pos
      modifies this`mem, this`root, this`reading
      ensures Valid() && mem == m && root == top && reading == r
    {
      ThreadsStay(mem, m, reading.ns, head, tail);
      mem, root, reading := m, top, r;
    }

    /** The loop of splay_top_down and the joining of its three parts. */
    method Descend(key: K, m0: Mem, ghost r0: Reading, ghost d0: Parts, ghost sgn: Ptr -> int)
      returns (m: Mem, node: Ptr, result: int, ghost r: Reading)
      requires m0.Keys <= data.Keys + {LEFT, RIGHT} && sgn == Signs(data, compare, key)
      requires d0 == Parts(LEFT, RIGHT, root, LEFT, RIGHT, d0.goal) && In(r0, root)
      requires Apart(m0, r0, d0) && MiddlePath(r0, d0, sgn)
      ensures SameThreads(m0, m) && In(r0, node) && r0.pos[node] == d0.goal && node in data && result == compare(key, data[node])
      ensures Shape(m - {LEFT, RIGHT}, r, node) && r.ns == r0.ns && r.pos == r0.pos
    {
      assert SameThreads(m0, m0);
      Bounds(r0, root);
      m, node, r := m0, root, r0;
      ghost var d := d0;
      var leftbottom, rightbottom := LEFT, RIGHT;
      var done := false;
      result := 0;
      hide *;
      while !done
        invariant SameThreads(m0, m) && m.Keys == m0.Keys && d == Parts(LEFT, RIGHT, node, leftbottom, rightbottom, d0.goal)
        invariant Apart(m, r, d) && In(r, node) && node in r.pos && node in r.lo && node in r.hi && r.ns == r0.ns && r.pos == r0.pos
        invariant if done then r.pos[node] == d.goal && node in data && result == compare(key, data[node]) else MiddlePath(r, d, sgn)
        decreases !done, r.hi[node] - r.lo[node]
      {
        ghost var r', d';
        var n;
        n, node, leftbottom, rightbottom, result, done, r', d' := Step(key, m, node, leftbottom, rightbottom, r, d, sgn);
        Threads(m0, m, n);
        m, r, d := n, r', d';
      }
      InSame(m0, r0, d0, r, node);
      var n;
      n, r := Join(m, node, leftbottom, rightbottom, r, d);
      Threads(m0, m, n);
      m := n;
    }

    /** "Merge trees": hook the left and the right part to the root of the middle one. */
    method Join(m: Mem, node: Ptr, leftbottom: Ptr, rightbottom: Ptr, ghost r: Reading, ghost d: Parts) returns (m': Mem, ghost r': Reading)
      requires d == Parts(LEFT, RIGHT, node, leftbottom, rightbottom, d.goal)
      requires Apart(m, r, d) && In(r, node) && r.pos[node] == d.goal
      ensures SameThreads(m, m') && Shape(m' - {LEFT, RIGHT}, r', node) && r'.ns == r.ns && r'.pos == r.pos
    {
      Bounds(r, node);
      assert LEFT in m && RIGHT in m;
      hide *;
      MergeShape(m, r, d);
      MergeThreads(m, false, LEFT, node, leftbottom);
      var m1 := Merge(m, false, LEFT, node, leftbottom);
      MergeThreads(m1, true, RIGHT, node, rightbottom);
      m' := Merge(m1, true, RIGHT, node, rightbottom);
      Threads(m, m1, m');
      r' := r.(lo := r.lo[node := 0], hi := r.hi[node := |r.ns|]);
    }

    /** One turn of that loop: zig-zig, zig-zag, or the last step. */
    method Step(key: K, m: Mem, node: Ptr, leftbottom: Ptr, rightbottom: Ptr, ghost r: Reading, ghost d: Parts, ghost sgn: Ptr -> int)
      returns (m': Mem, node': Ptr, lb: Ptr, rb: Ptr, result: int, done: bool, ghost r': Reading, ghost d': Parts)
      requires m.Keys <= data.Keys + {LEFT, RIGHT} && sgn == Signs(data, compare, key)
      requires d == Parts(LEFT, RIGHT, node, leftbottom, rightbottom, d.goal) && In(r, node) && node in r.pos && node in r.lo && node in r.hi
      requires Apart(m, r, d) && MiddlePath(r, d, sgn)
      ensures SameThreads(m, m') && m'.Keys == m.Keys && d' == Parts(LEFT, RIGHT, node', lb, rb, d.goal)
      ensures Apart(m', r', d') && In(r', node') && node' in r'.pos && node' in r'.lo && node' in r'.hi && r'.ns == r.ns && r'.pos == r.pos
      ensures if done then r'.pos[node'] == d.goal && node' in data && result == compare(key, data[node'])
              else MiddlePath(r', d', sgn) && r'.hi[node'] - r'.lo[node'] < r.hi[node] - r.lo[node]
    {
      assert SameThreads(m, m);
      hide *;
      m', node', lb, rb, done, r', d' := m, node, leftbottom, rightbottom, true, r, d;
      Present(m, r, d, node);
      RootSide(m, r, d, sgn);
      result := compare(key, data[node]);
      if result == 0 {
        return;
      }
      var side := result > 0;
      var child := Kid(m[node], side);
      Sided(d, m[node], side, child, NULL, NULL);
      if child == NULL {
        return;
      }
      InMiddle(m, r, d, side, child);
      Present(m, r, d, child);
      result := compare(key, data[child]);
      var bottom := if side then leftbottom else rightbottom;
      var other := if side then rightbottom else leftbottom;
      var near, far := Kid(m[child], !side), Kid(m[child], side);
      Sided(d, m[child], side, child, far, near);
      if result != 0 && (result > 0) == side && far != NULL {
        r' := ZigZigStep(m, r, d, sgn, side, child, far);
        Bounds(r', far);
        done, node' := false, far;
        d' := Shifted(d.(root := child), side, far);
        ZigZigThreads(m, side, node, child, far, bottom);
        m' := ZigZigDown(m, side, node, child, far, bottom);
        if side { lb := child; } else { rb := child; }
      } else if result != 0 && (result > 0) != side && near != NULL {
        r' := ZigZagStep(m, r, d, sgn, side, child, near);
        Bounds(r', near);
        done, node' := false, near;
        d' := Shifted(Shifted(d, side, child), !side, near);
        ZigZagThreads(m, side, node, child, near, other, bottom);
        m' := ZigZagDown(m, side, node, child, near, other, bottom);
        if side { lb, rb := node, child; } else { lb, rb := child, node; }
      } else {
        ZigStep(m, r, d, sgn, side, child);
        CutFacts(r, d, side, child);
        Bounds(Cut(r, d, side), child);
        node', r', d' := child, Cut(r, d, side), Shifted(d, side, child);
        MoveThreads(m, side, node, child, bottom);
        m' := Move(m, side, node, child, bottom);
        if side { lb := node; } else { rb := node; }
      }
    }

    // Searching, in an ordered tree.

    ghost predicate Sorted()
      reads this
    {
      Valid() && Lawful(compare) && Ordered(reading.ns, data, compare)
    }

    /** The tree as a sorted sequence. */
    ghost function Elements(): (r: seq<K>)
      requires Sorted()
      reads this
    {
      Elems(reading.ns, data)
    }

    lemma Listed()
      requires Sorted()
      ensures (forall i :: 0 <= i < |reading.ns| ==> reading.ns[i] in data) && Elements() == Elems(reading.ns, data)
    {
    }

    /** splay_search_closest_node: the key, or a neighbour of the place where it belongs. */
    method SearchClosest(key: K) returns (node: Ptr, result: int, ghost k: int)
      requires Sorted()
      modifies this`mem, this`root, this`reading
      ensures Sorted() && reading.ns == old(reading).ns && reading.pos == old(reading).pos && mem.Keys == old(mem).Keys
      ensures root == node && (reading.ns == [] <==> node == NULL) && (node == NULL ==> result == 0 && k == 0)
      ensures node != NULL ==> In(reading, node) && reading.pos[node] == k && Threadlike(k, node)
      ensures node != NULL && result == 0 ==> Found(reading.ns, data, compare, key, k)
      ensures node != NULL && result < 0 ==> Splits(reading.ns, data, compare, key, k)
      ensures node != NULL && result > 0 ==> Splits(reading.ns, data, compare, key, k + 1)
    {
      node, result := SplayTopDown(key);
      k := 0;
      if reading.ns != [] {
        DescentSplits(old(mem), old(reading), old(root), data, compare, key, node);
        TopIn(mem, reading, node, old(reading));
        k := reading.pos[node];
        assert ThreadAt(mem, reading.ns, k);
      }
      hide Lawful;
      hide Ordered;
      hide EndsAt;
      hide Found;
      hide Splits;
    }

    /** node is at place k, and its threads lead to its neighbours. */
    ghost predicate Threadlike(k: int, node: Ptr)
      reads this
    {
      0 <= k < |reading.ns| && reading.ns[k] == node && node in mem && mem[node].next == At(reading.ns, k + 1) && mem[node].prev == At(reading.ns, k - 1)
    }

    /** splay_search_node: finds the key if and only if it is there. */
    method SearchNode(key: K) returns (node: Ptr)
      requires Sorted()
      modifies this`mem, this`root, this`reading
      ensures Sorted() && reading.ns == old(reading).ns && reading.pos == old(reading).pos && mem.Keys == old(mem).Keys
      ensures if node == NULL then Absent(reading.ns, data, compare, key)
              else In(reading, node) && Found(reading.ns, data, compare, key, reading.pos[node])
    {
      hide Valid;
      hide Lawful;
      var result;
      ghost var k;
      node, result, k := SearchClosest(key);
      if result != 0 {
        node := NULL;
      }
    }

    /** splay_search_closest_smaller_node: the greatest element that is not greater. */
    method SearchClosestSmaller(key: K) returns (node: Ptr, ghost k: int)
      requires Sorted()
      modifies this`mem, this`root, this`reading
      ensures Sorted() && reading.ns == old(reading).ns && reading.pos == old(reading).pos
      ensures UpTo(reading.ns, data, compare, key, k) && node == At(reading.ns, k)
    {
      hide Valid;
      hide Lawful;
      hide UpTo;
      hide Found;
      var result;
      node, result, k := SearchClosest(key);
      Listed();
      Ends(key, node, result, k);
      if result < 0 {
        node, k := mem[node].prev, k - 1;
      } else if node == NULL {
        k := -1;
      }
    }

    /** Where the searches for the closest smaller and greater elements end. */
    lemma Ends(key: K, node: Ptr, result: int, k: int)
      requires Sorted() && (reading.ns == [] <==> node == NULL) && (node == NULL ==> result == 0 && k == 0)
      requires node != NULL && result == 0 ==> Found(reading.ns, data, compare, key, k)
      requires node != NULL && result < 0 ==> Splits(reading.ns, data, compare, key, k)
      requires node != NULL && result > 0 ==> Splits(reading.ns, data, compare, key, k + 1)
      ensures UpTo(reading.ns, data, compare, key, if node == NULL || result < 0 then k - 1 else k)
      ensures FromOn(reading.ns, data, compare, key, if result > 0 then k + 1 else k)
    {
      Listed();
      if node == NULL {
        EmptySplits(data, compare, key, node);
      }
      hide *;
      if node == NULL {
        SplitsEnds(reading.ns, data, compare, key, 0);
      } else if result == 0 {
        FoundEnds(reading.ns, data, compare, key, k);
      } else {
        SplitsEnds(reading.ns, data, compare, key, if result < 0 then k else k + 1);
      }
    }

    /** splay_search_closest_greater_node: the smallest element that is not smaller. */
    method SearchClosestGreater(key: K) returns (node: Ptr, ghost k: int)
      requires Sorted()
      modifies this`mem, this`root, this`reading
      ensures Sorted() && reading.ns == old(reading).ns && reading.pos == old(reading).pos
      ensures FromOn(reading.ns, data, compare, key, k) && node == At(reading.ns, k)
    {
      hide Valid;
      hide Lawful;
      hide FromOn;
      hide Found;
      var result;
      node, result, k := SearchClosest(key);
      Listed();
      Ends(key, node, result, k);
      if result > 0 {
        node, k := mem[node].next, k + 1;
      }
    }

    /** splay_insert: a key that is not there yet goes in at its place, in the node that
        the allocator provides at address addr. */
    method Insert(key: K, addr: Ptr) returns (node: Ptr, ghost place: int)
      requires Sorted() && addr !in mem && addr != NULL && addr != LEFT && addr != RIGHT
      modifies this
      ensures Sorted() && Elements() == I.Insert(Under(compare), old(Elements()), key)
      ensures if Absent(old(reading).ns, old(data), compare, key)
              then node == addr && data == old(data)[addr := key] && mem.Keys == old(mem).Keys + {addr}
                && Splits(old(reading).ns, old(data), compare, key, place) && reading.ns == InsertAt(old(reading).ns, place, addr)
              else node == NULL && data == old(data) && reading.ns == old(reading).ns && mem.Keys == old(mem).Keys
    {
      hide *;
      UnfoldSorted();
      RootEmpty();
      Listed();
      if root == NULL {
        EmptySplits(data, compare, key, addr);
        Alloc(key, addr, 0);
        InsertTop(addr);
        FoldSorted();
        Listed();
        return addr, 0;
      }
      ghost var k;
      var closest, result;
      closest, result, k := SearchClosest(key);
      UnfoldSorted();
      Listed();
      if result == 0 {
        FoundPresent(reading.ns, data, compare, key, k);
        Refused(key);
        return NULL, 0;
      }
      place := if result < 0 then k else k + 1;
      SplitsAbsent(reading.ns, data, compare, key, place);
      Alloc(key, addr, place);
      if result < 0 {
        InsertBefore(closest, addr);
      } else {
        InsertAfter(closest, addr);
      }
      FoldSorted();
      Listed();
      node := addr;
    }

    lemma Refused(key: K)
      requires Sorted() && !Absent(reading.ns, data, compare, key)
      ensures I.Insert(Under(compare), Elements(), key) == Elements()
    {
      PresentPlace(reading.ns, data, compare, key);
    }

    /** splay_insert_node: the same for a node that exists already, outside the tree. */
    method InsertNode(node: Ptr) returns (ok: bool, ghost place: int)
      requires Sorted() && node in mem && !In(reading, node)
      modifies this`mem, this`head, this`tail, this`root, this`count, this`reading
      ensures Sorted() && mem.Keys == old(mem).Keys && Elements() == I.Insert(Under(compare), old(Elements()), data[node])
      ensures ok <==> Absent(old(reading).ns, data, compare, data[node])
      ensures if ok then Splits(old(reading).ns, data, compare, data[node], place) && reading.ns == InsertAt(old(reading).ns, place, node)
              else reading.ns == old(reading).ns
    {
      hide *;
      Listed();
      Blank(node);
      UnfoldSorted();
      UnfoldValid();
      Listed();
      RootEmpty();
      ghost var m, r, top := mem, reading, root;
      ghost var key := data[node];
      if root == NULL {
        EmptySplits(data, compare, key, node);
        Inserting(key, 0, node);
        InsertTop(node);
        FoldSorted();
        Listed();
        return true, 0;
      }
      ghost var k;
      var closest, result;
      closest, result, k := SearchClosest(data[node]);
      UnfoldSorted();
      Listed();
      if result == 0 {
        FoundPresent(reading.ns, data, compare, key, k);
        Refused(key);
        return false, 0;
      }
      place := if result < 0 then k else k + 1;
      SplitsAbsent(reading.ns, data, compare, key, place);
      Unmoved(m, r, reading, top, node);
      Inserting(key, place, node);
      if result < 0 {
        InsertBefore(closest, node);
      } else {
        InsertAfter(closest, node);
      }
      FoldSorted();
      Listed();
      ok := true;
    }

    /** The links of a node outside the tree are cleared. */
    method Blank(node: Ptr)
      requires Sorted() && node in mem && !In(reading, node)
      modifies this`mem
      ensures Sorted() && Valid() && Shape(mem, reading, root) && mem.Keys == old(mem).Keys
    {
      Sequence(mem, reading, node);
      GrowShape(mem, reading, root, node);
      GrowThreads(mem, reading.ns, head, tail, node);
      hide *;
      UnfoldSorted();
      UnfoldValid();
      mem := mem[node := BLANK];
      FoldValid();
      FoldSorted();
    }

    lemma UnfoldValid()
      requires Valid()
      ensures NULL !in mem && LEFT !in mem && RIGHT !in mem && mem.Keys <= data.Keys && count == |reading.ns|
    {
    }

    lemma FoldValid()
      requires NULL !in mem && LEFT !in mem && RIGHT !in mem && mem.Keys <= data.Keys
      requires Shape(mem, reading, root) && Threaded(mem, reading.ns, head, tail) && count == |reading.ns|
      ensures Valid()
    {
    }

    /** What the tree will be once the node is in. */
    lemma Inserting(key: K, k: int, node: Ptr)
      requires Sorted() && node in mem && !In(reading, node) && data[node] == key && Splits(reading.ns, data, compare, key, k)
      ensures Ordered(InsertAt(reading.ns, k, node), data, compare)
      ensures Elems(InsertAt(reading.ns, k, node), data) == I.Insert(Under(compare), Elements(), key)
    {
      Sequence(mem, reading, node);
      OrderedInsert(reading.ns, data, compare, key, k, node);
      InsertRealises(reading.ns, data, compare, key, k, node);
      assert data[node := key] == data;
      hide *;
    }

    lemma UnfoldSorted()
      requires Sorted()
      ensures Valid() && Lawful(compare) && Ordered(reading.ns, data, compare)
    {
    }

    lemma RootEmpty()
      requires Valid()
      ensures root == NULL <==> reading.ns == []
    {
    }

    lemma FoldSorted()
      requires Valid() && Lawful(compare) && Ordered(reading.ns, data, compare)
      ensures Sorted()
    {
    }

    /** splay_unlink: takes the key out if it is there. */
    method Unlink(key: K) returns (node: Ptr)
      requires Sorted()
      modifies this`mem, this`head, this`tail, this`root, this`count, this`reading
      ensures Sorted() && mem.Keys == old(mem).Keys
      ensures node == NULL ==> Absent(old(reading).ns, data, compare, key) && reading.ns == old(reading).ns
      ensures node != NULL ==> In(old(reading), node) && Found(old(reading).ns, data, compare, key, old(reading).pos[node])
      ensures node != NULL ==> reading.ns == RemoveAt(old(reading).ns, old(reading).pos[node])
      ensures node != NULL ==> Elements() == Gap(old(Elements()), old(reading).pos[node])
      ensures Even(compare) ==> Elements() == I.Delete(Under(compare), old(Elements()), key)
      ensures node != NULL ==> node in mem && !In(reading, node)
    {
      assert Shape(mem, reading, root);
      hide *;
      Listed();
      node := SearchNode(key);
      Listed();
      if node == NULL {
        Missing(key);
      } else {
        Unmoved(old(mem), old(reading), reading, old(root), node);
        TakeOut(key, node);
      }
    }

    /** The node that the search found leaves the tree. */
    method TakeOut(key: K, node: Ptr)
      requires Sorted() && In(reading, node) && Found(reading.ns, data, compare, key, reading.pos[node])
      modifies this`mem, this`head, this`tail, this`root, this`count, this`reading
      ensures Sorted() && mem.Keys == old(mem).Keys && node in mem && !In(reading, node)
      ensures reading.ns == RemoveAt(old(reading).ns, old(reading).pos[node])
      ensures Elements() == Gap(old(Elements()), old(reading).pos[node])
      ensures Even(compare) ==> Elements() == I.Delete(Under(compare), old(Elements()), key)
    {
      assert Shape(mem, reading, root);
      hide *;
      UnfoldSorted();
      Leaving(key, node);
      InMem(mem, reading, root, node);
      UnlinkNode(node);
      FoldSorted();
      Listed();
    }

    lemma Missing(key: K)
      requires Sorted() && Absent(reading.ns, data, compare, key)
      ensures I.Delete(Under(compare), Elements(), key) == Elements()
    {
      PresentPlace(reading.ns, data, compare, key);
    }

    lemma Leaving(key: K, node: Ptr)
      requires Sorted() && In(reading, node) && Found(reading.ns, data, compare, key, reading.pos[node])
      ensures Ordered(RemoveAt(reading.ns, reading.pos[node]), data, compare)
      ensures Elems(RemoveAt(reading.ns, reading.pos[node]), data) == Gap(Elements(), reading.pos[node])
      ensures Even(compare) ==> Elems(RemoveAt(reading.ns, reading.pos[node]), data) == I.Delete(Under(compare), Elements(), key)
    {
      RemoveRealises(reading.ns, data, compare, key, reading.pos[node]);
      OrderedRemove(reading.ns, data, compare, reading.pos[node]);
    }

    /** A node outside the tree changes its key. */
    method SetKey(node: Ptr, key: K)
      requires Sorted() && node in mem && !In(reading, node)
      modifies this`data
      ensures Sorted() && data == old(data)[node := key] && Elements() == old(Elements())
    {
      Sequence(mem, reading, node);
      assert forall i :: 0 <= i < |reading.ns| ==> reading.ns[i] != node;
      data := data[node := key];
      hide Shape;
      hide Threaded;
      hide Lawful;
      assert Elems(reading.ns, data) == old(Elems(reading.ns, data));
    }

    /** What a change of key takes: unlink the node, change what it holds, and insert the
        same node again. */
    method Rekey(key: K, key': K) returns (node: Ptr, ok: bool)
      requires Sorted() && Even(compare)
      modifies this
      ensures Sorted() && mem.Keys == old(mem).Keys
      ensures node == NULL <==> Absent(old(reading).ns, old(data), compare, key)
      ensures node == NULL ==> Elements() == old(Elements())
      ensures node != NULL ==> Elements() == I.Insert(Under(compare), I.Delete(Under(compare), old(Elements()), key), key')
    {
      hide *;
      ok := false;
      UnfoldSorted();
      Listed();
      node := Unlink(key);
      Listed();
      if node == NULL {
        return;
      }
      SamePlace(old(reading), node);
      FoundPresent(old(reading).ns, data, compare, key, old(reading).pos[node]);
      SetKey(node, key');
      ghost var place;
      ok, place := InsertNode(node);
    }

    /** splay_alloc_node, and the key it is for. */
    method Alloc(key: K, addr: Ptr, ghost k: int)
      requires Sorted() && addr !in mem && addr != NULL && addr != LEFT && addr != RIGHT
      requires Splits(reading.ns, data, compare, key, k)
      modifies this`mem, this`data
      ensures Valid() && mem == old(mem)[addr := BLANK] && data == old(data)[addr := key] && !In(reading, addr)
      ensures Ordered(InsertAt(reading.ns, k, addr), data, compare)
      ensures Elems(InsertAt(reading.ns, k, addr), data) == I.Insert(Under(compare), old(Elements()), key)
    {
      Stored(mem, reading, addr);
      Sequence(mem, reading, addr);
      OrderedInsert(reading.ns, data, compare, key, k, addr);
      InsertRealises(reading.ns, data, compare, key, k, addr);
      hide I.Insert;
      hide Ordered;
      hide Lawful;
      GrowShape(mem, reading, root, addr);
      GrowThreads(mem, reading.ns, head, tail, addr);
      mem := mem[addr := BLANK];
      data := data[addr := key];
    }

    // Insertion and deletion.

    /** splay_insert_top. */
    method InsertTop(node: Ptr)
      requires Valid() && reading.ns == [] && node in mem
      modifies this`mem, this`head, this`tail, this`root, this`count, this`reading
      ensures Valid() && reading.ns == [node] && root == node && mem.Keys == old(mem).Keys
    {
      mem := mem[node := BLANK];
      head, tail, root := node, node, node;
      count := count + 1;
      reading := Reading([node], map[node := 0], map[node := 0], map[node := 1]);
      SingleShape(mem, reading, node);
      assert ThreadAt(mem, reading.ns, 0);
    }

    /** splay_insert_before; without a neighbour the node goes last. */
    method InsertBefore(before: Ptr, node: Ptr)
      requires Valid() && node in mem && !In(reading, node) && (before == NULL || In(reading, before))
      modifies this`mem, this`head, this`tail, this`root, this`count, this`reading
      ensures Valid() && root == node && mem.Keys == old(mem).Keys
      ensures reading.ns == InsertAt(old(reading).ns, if before == NULL then |old(reading).ns| else old(reading).pos[before], node)
      decreases before == NULL
    {
      if before == NULL {
        if tail != NULL {
          InsertAfter(tail, node);
        } else {
          InsertTop(node);
        }
        return;
      }
      ghost var k := reading.pos[before];
      assert k == Place(reading, true, before);
      assert ThreadAt(mem, reading.ns, k);
      Sequence(mem, reading, node);
      BetweenThreads(mem, reading.ns, head, tail, k, node);
      BetweenShape(mem, reading, root, At(reading.ns, k - 1), node, before);
      assert k == 0 <==> At(reading.ns, k - 1) == NULL;
      assert Between(mem, mem[before].prev, node, before)
          == SetPrev(SetNext(SetPrev(SetNext(mem, node, before), node, mem[before].prev), mem[before].prev, node), before, node);
      hide *;
      var prev := mem[before].prev;
      mem := SetNext(mem, node, before);
      mem := SetPrev(mem, node, prev);
      mem := SetNext(mem, prev, node);
      if prev == NULL {
        head := node;
      }
      mem := SetPrev(mem, before, node);
      Attach(true, before, node);
    }

    /** splay_insert_after; without a neighbour the node goes first. */
    method InsertAfter(after: Ptr, node: Ptr)
      requires Valid() && node in mem && !In(reading, node) && (after == NULL || In(reading, after))
      modifies this`mem, this`head, this`tail, this`root, this`count, this`reading
      ensures Valid() && root == node && mem.Keys == old(mem).Keys
      ensures reading.ns == InsertAt(old(reading).ns, if after == NULL then 0 else old(reading).pos[after] + 1, node)
      decreases after == NULL
    {
      if after == NULL {
        if head != NULL {
          InsertBefore(head, node);
        } else {
          InsertTop(node);
        }
        return;
      }
      ghost var k := reading.pos[after] + 1;
      assert k == Place(reading, false, after);
      assert ThreadAt(mem, reading.ns, k - 1);
      Sequence(mem, reading, node);
      BetweenThreads(mem, reading.ns, head, tail, k, node);
      BetweenShape(mem, reading, root, after, node, At(reading.ns, k));
      BetweenOrder(mem, after, node, At(reading.ns, k));
      assert k == |reading.ns| <==> At(reading.ns, k) == NULL;
      hide *;
      var next := mem[after].next;
      mem := SetPrev(mem, node, after);
      mem := SetNext(mem, node, next);
      mem := SetPrev(mem, next, node);
      if next == NULL {
        tail := node;
      }
      mem := SetNext(mem, after, node);
      Attach(false, after, node);
    }

    /** The end of both: splay the neighbour to the top and hang the node above it. */
    method Attach(side: bool, at: Ptr, node: Ptr)
      requires NULL !in mem && LEFT !in mem && RIGHT !in mem && mem.Keys <= data.Keys
      requires Shape(mem, reading, root) && In(reading, at) && node in mem && !In(reading, node) && count == |reading.ns|
      requires Threaded(mem, InsertAt(reading.ns, Place(reading, side, at), node), head, tail)
      modifies this`mem, this`root, this`count, this`reading
      ensures Valid() && root == node && mem.Keys == old(mem).Keys
      ensures reading.ns == InsertAt(old(reading).ns, Place(old(reading), side, at), node)
    {
      hide Shape;
      hide Threaded;
      hide HangTop;
      hide Inserted;
      hide InsertAt;
      SplayBottomUp(at);
      Unmoved(old(mem), old(reading), reading, old(root), node);
      TopIn(mem, reading, at, old(reading));
      InsertedNs(reading, side, at, node);
      hide SameThreads;
      hide In;
      InsertShape(mem, reading, side, at, node);
      HangThreads(mem, side, at, node);
      Threads(old(mem), mem, HangTop(mem, side, at, node));
      ThreadsStay(old(mem), HangTop(mem, side, at, node), InsertAt(reading.ns, Place(reading, side, at), node), head, tail);
      mem, reading := HangTop(mem, side, at, node), Inserted(reading, side, at, node);
      root := node;
      count := count + 1;
    }

    /** splay_unlink_node. */
    method UnlinkNode(node: Ptr)
      requires Valid() && In(reading, node)
      modifies this`mem, this`head, this`tail, this`root, this`count, this`reading
      ensures Valid() && mem.Keys == old(mem).Keys && !In(reading, node)
      ensures reading.ns == RemoveAt(old(reading).ns, old(reading).pos[node])
    {
      assert NULL !in mem && Shape(mem, reading, root) && Threaded(mem, reading.ns, head, tail) && count == |reading.ns|;
      assert LEFT !in mem && RIGHT !in mem && mem.Keys <= data.Keys;
      hide *;
      UnlinkFacts(mem, reading, root, head, tail, node);
      var prev, next := mem[node].prev, mem[node].next;
      mem := SetNext(mem, prev, next);
      if prev == NULL {
        head := next;
      }
      mem := SetPrev(mem, next, prev);
      if next == NULL {
        tail := prev;
      }
      Detach(node);
    }

    /** Its end: splay the node to the top and join its subtrees. */
    method Detach(node: Ptr)
      requires NULL !in mem && LEFT !in mem && RIGHT !in mem && mem.Keys <= data.Keys
      requires Shape(mem, reading, root) && In(reading, node) && count == |reading.ns|
      requires node in mem && mem[node].prev == At(reading.ns, reading.pos[node] - 1) && mem[node].next == At(reading.ns, reading.pos[node] + 1)
      requires Threaded(mem, RemoveAt(reading.ns, reading.pos[node]), head, tail)
      modifies this`mem, this`root, this`count, this`reading
      ensures Valid() && mem.Keys == old(mem).Keys && !In(reading, node)
      ensures reading.ns == RemoveAt(old(reading).ns, old(reading).pos[node])
    {
      hide *;
      SplayBottomUp(node);
      TopIn(mem, reading, node, old(reading));
      Neighbours(old(mem), mem, reading, node);
      RemovedNs(reading, node);
      UnlinkShape(mem, reading, node);
      TakeThreads(mem, node);
      Threads(old(mem), mem, TakeTop(mem, node));
      ThreadsStay(old(mem), TakeTop(mem, node), RemoveAt(reading.ns, reading.pos[node]), head, tail);
      Gone(mem, reading, node);
      Replace(TakeTop(mem, node), NewTop(mem, node), Removed(reading, node));
    }

    /** The tree and its sequence change together. */
    method Replace(m: Mem, top: Ptr, ghost r: Reading)
      requires NULL !in m && LEFT !in m && RIGHT !in m && m.Keys <= data.Keys && count > 0
      requires Shape(m, r, top) && Threaded(m, r.ns, head, tail) && |r.ns| == count - 1
      modifies this`mem, this`root, this`count, this`reading
      ensures Valid() && mem == m && root == top && reading == r
    {
      mem, root, reading := m, top, r;
      count := count - 1;
    }
  }

  lemma SingleShape(m: Mem, r: Reading, node: Ptr)
    requires node != NULL && node in m && m[node] == BLANK && r == Reading([node], map[node := 0], map[node := 0], map[node := 1])
    ensures Shape(m, r, node)
  {
    assert r.ns[0] == node;
    forall p | In(r, p)
      ensures Local(m, r, p) && Hung(m, r, node, p)
    {
      assert p == node;
    }
  }

  lemma Sequence(m: Mem, r: Reading, node: Ptr)
    requires Numbered(m, r)
    ensures NoDup(r.ns) && (!In(r, node) ==> node !in r.ns)
  {
    forall i, j | 0 <= i < j < |r.ns|
      ensures r.ns[i] != r.ns[j]
    {
      assert r.pos[r.ns[i]] == i && r.pos[r.ns[j]] == j;
    }
  }

  /** The same tree links. */
  ghost predicate SameLinks(m: Mem, m': Mem) {
    m'.Keys == m.Keys && forall p <- m :: m'[p].parent == m[p].parent && m'[p].left == m[p].left && m'[p].right == m[p].right
  }

  lemma LinksShape(m: Mem, m': Mem, r: Reading, top: Ptr)
    requires Shape(m, r, top) && SameLinks(m, m')
    ensures Shape(m', r, top)
  {
    forall p | In(r, p)
      ensures Local(m', r, p) && Hung(m', r, top, p)
    {
      assert Local(m, r, p) && Hung(m, r, top, p);
    }
  }

  lemma GrowShape(m: Mem, r: Reading, top: Ptr, p: Ptr)
    requires Shape(m, r, top) && !In(r, p)
    ensures Shape(m[p := BLANK], r, top)
  {
    var m' := m[p := BLANK];
    forall x | In(r, x)
      ensures Local(m', r, x) && Hung(m', r, top, x)
    {
      assert Local(m, r, x) && Hung(m, r, top, x);
    }
  }

  lemma GrowThreads(m: Mem, ns: seq<Ptr>, head: Ptr, tail: Ptr, p: Ptr)
    requires Threaded(m, ns, head, tail) && p !in ns
    ensures Threaded(m[p := BLANK], ns, head, tail)
  {
    var m' := m[p := BLANK];
    forall i | 0 <= i < |ns|
      ensures ThreadAt(m', ns, i)
    {
      assert ThreadAt(m, ns, i);
    }
  }

  lemma BetweenShape(m: Mem, r: Reading, top: Ptr, p: Ptr, node: Ptr, n: Ptr)
    requires Shape(m, r, top)
    ensures Shape(Between(m, p, node, n), r, top) && Between(m, p, node, n).Keys == m.Keys
  {
    LinksShape(m, Between(m, p, node, n), r, top);
  }

  lemma PastShape(m: Mem, r: Reading, top: Ptr, p: Ptr, n: Ptr)
    requires Shape(m, r, top)
    ensures Shape(Past(m, p, n), r, top) && Past(m, p, n).Keys == m.Keys
  {
    LinksShape(m, Past(m, p, n), r, top);
  }

  lemma BetweenOrder(m: Mem, p: Ptr, node: Ptr, n: Ptr)
    requires p != node && n != node && p != n
    ensures SetNext(SetPrev(SetNext(SetPrev(m, node, p), node, n), n, node), p, node) == Between(m, p, node, n)
  {
  }

  /** The threads around a node, and past it. */
  lemma UnlinkFacts(m: Mem, r: Reading, top: Ptr, head: Ptr, tail: Ptr, node: Ptr)
    requires NULL !in m && Shape(m, r, top) && Threaded(m, r.ns, head, tail) && In(r, node)
    ensures node in m && node in r.pos && 0 <= r.pos[node] < |r.ns|
    ensures var c, k := m[node], r.pos[node];
            var m' := SetPrev(SetNext(m, c.prev, c.next), c.next, c.prev);
            && m'.Keys == m.Keys && Shape(m', r, top) && m'[node] == c
            && c.prev == At(r.ns, k - 1) && c.next == At(r.ns, k + 1)
            && Threaded(m', RemoveAt(r.ns, k), if c.prev == NULL then c.next else head, if c.next == NULL then c.prev else tail)
  {
    var k := r.pos[node];
    assert ThreadAt(m, r.ns, k);
    Sequence(m, r, node);
    PastThreads(m, r.ns, head, tail, k);
    PastShape(m, r, top, At(r.ns, k - 1), At(r.ns, k + 1));
    PastSelf(m, r, node);
    hide Threaded;
    hide Shape;
    hide SetNext;
    hide SetPrev;
  }

  /** The unlinked node keeps its own threads. */
  lemma PastSelf(m: Mem, r: Reading, node: Ptr)
    requires Numbered(m, r) && In(r, node) && node in m
    ensures var k := r.pos[node];
            var m' := Past(m, At(r.ns, k - 1), At(r.ns, k + 1));
            node in m' && m'[node] == m[node]
  {
  }

  /** Splaying does not change who is in the sequence. */
  lemma Unmoved(m: Mem, r: Reading, r': Reading, top: Ptr, p: Ptr)
    requires Shape(m, r, top) && r'.ns == r.ns && r'.pos == r.pos
    ensures In(r', p) ==> In(r, p)
  {
  }

  lemma TopIn(m: Mem, r: Reading, at: Ptr, r0: Reading)
    requires Shape(m, r, at) && r0.ns == r.ns && r0.pos == r.pos && In(r0, at)
    ensures In(r, at) && at in m && at in r.pos && 0 <= r.pos[at] < |r.ns|
    ensures forall side :: Place(r, side, at) == Place(r0, side, at)
  {
    assert In(r, r.ns[r.pos[at]]);
  }

  lemma Gone(m: Mem, r: Reading, node: Ptr)
    requires Shape(m, r, node) && In(r, node)
    ensures !In(Removed(r, node), node)
  {
    RemovedFields(m, r, node, node);
  }

  lemma InsertedNs(r: Reading, side: bool, at: Ptr, node: Ptr)
    requires In(r, at)
    ensures 0 <= Place(r, side, at) <= |r.ns| && Inserted(r, side, at, node).ns == InsertAt(r.ns, Place(r, side, at), node)
    ensures |Inserted(r, side, at, node).ns| == |r.ns| + 1
  {
  }

  lemma RemovedNs(r: Reading, node: Ptr)
    requires In(r, node)
    ensures Removed(r, node).ns == RemoveAt(r.ns, r.pos[node]) && |Removed(r, node).ns| == |r.ns| - 1
  {
  }

  lemma Neighbours(m0: Mem, m: Mem, r: Reading, node: Ptr)
    requires NULL !in m && SameThreads(m0, m) && Shape(m, r, node) && In(r, node) && node in m0
    requires m0[node].prev == At(r.ns, r.pos[node] - 1) && m0[node].next == At(r.ns, r.pos[node] + 1)
    ensures OnTop(m, r, node) && node in m && (m[node].prev != NULL ==> m[node].prev in m)
  {
  }

  lemma HangThreads(m: Mem, side: bool, at: Ptr, node: Ptr)
    requires at in m && node in m
    ensures SameThreads(m, HangTop(m, side, at, node))
  {
    hide SetParent;
    hide SetKid;
    hide Kid;
    Kept(m, m, node, side, at);
    var n1 := SetKid(m, node, side, at);
    Kept(m, n1, at, side, node);
    var m1 := SetParent(n1, at, node);
    var b := Kid(m1[at], !side);
    Kept(m, m1, node, !side, b);
    var n2 := SetKid(m1, node, !side, b);
    Kept(m, n2, b, side, node);
    var m2 := SetParent(n2, b, node);
    Kept(m, m2, at, !side, NULL);
    Kept(m, SetKid(m2, at, !side, NULL), node, side, NULL);
  }

  lemma TakeThreads(m: Mem, node: Ptr)
    requires node in m && (m[node].prev != NULL ==> m[node].prev in m)
    ensures SameThreads(m, TakeTop(m, node)) && TakeTop(m, node).Keys == m.Keys
  {
  }

  lemma InMem(m: Mem, r: Reading, top: Ptr, p: Ptr)
    requires Shape(m, r, top) && In(r, p)
    ensures p in m
  {
    assert Local(m, r, p);
  }

  /** A node is determined by its place. */
  lemma SamePlace(r: Reading, p: Ptr)
    requires In(r, p)
    ensures p in r.pos && 0 <= r.pos[p] < |r.ns| && r.ns[r.pos[p]] == p
  {
  }

  lemma DropHeaders(m: Mem, m': Mem)
    requires LEFT !in m && RIGHT !in m && SameThreads(m[LEFT := BLANK][RIGHT := BLANK], m')
    ensures SameThreads(m, m' - {LEFT, RIGHT}) && (m' - {LEFT, RIGHT}).Keys == m.Keys
  {
  }

  lemma Bounds(r: Reading, p: Ptr)
    requires In(r, p)
    ensures p in r.pos && p in r.lo && p in r.hi
  {
  }

  lemma InSame(m: Mem, r: Reading, d: Parts, s: Reading, p: Ptr)
    requires Apart(m, r, d) && In(s, p) && s.ns == r.ns && s.pos == r.pos
    ensures In(r, p)
  {
    assert In(r, r.ns[r.pos[p]]);
  }

  /** The definitions that a step unfolds. */
  lemma Sided(d: Parts, c: Cell, side: bool, child: Ptr, far: Ptr, near: Ptr)
    ensures Kid(c, true) == c.right && Kid(c, false) == c.left
    ensures Bottom(d, side) == (if side then d.lb else d.rb) && Bottom(d, !side) == (if side then d.rb else d.lb)
    ensures Shifted(d, side, child) == if side then d.(root := child, lb := d.root) else d.(root := child, rb := d.root)
    ensures Shifted(d.(root := child), side, far) == if side then d.(root := far, lb := child) else d.(root := far, rb := child)
    ensures Shifted(Shifted(d, side, child), !side, near)
         == if side then d.(root := near, lb := d.root, rb := child) else d.(root := near, lb := child, rb := d.root)
  {
  }

  lemma CutFacts(r: Reading, d: Parts, side: bool, p: Ptr)
    requires In(r, p)
    ensures Cut(r, d, side).ns == r.ns && Cut(r, d, side).pos == r.pos
    ensures In(Cut(r, d, side), p)
  {
  }

  lemma Threads(m0: Mem, m: Mem, m': Mem)
    requires SameThreads(m0, m) && SameThreads(m, m')
    ensures SameThreads(m0, m')
  {
  }

  /** Nodes of the tree are stored, and are not headers. */
  lemma Present(m: Mem, r: Reading, d: Parts, p: Ptr)
    requires Apart(m, r, d) && In(r, p)
    ensures p in m && p != d.hl && p != d.hr && p != NULL
  {
    assert LocalDown(m, r, d, p);
  }
}
