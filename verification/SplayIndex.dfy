/** An ordered splay tree is the sorted sequence that the rest of the program sees. */
module SplayIndex {
  import opened SplayShape
  import opened SplayOrder
  import I = OrderedIndex

  /** The data of the nodes, in order. */
  ghost function Elems<K>(ns: seq<Ptr>, data: map<Ptr, K>): (r: seq<K>)
    requires forall i :: 0 <= i < |ns| ==> ns[i] in data
    ensures |r| == |ns| && forall i :: 0 <= i < |ns| ==> r[i] == data[ns[i]]
  {
    seq(|ns|, i requires 0 <= i < |ns| => data[ns[i]])
  }

  /** The sequence without its k-th element. */
  function Gap<K>(s: seq<K>, k: int): (r: seq<K>)
    requires 0 <= k < |s|
  {
    s[..k] + s[k + 1..]
  }

  ghost function Under<K>(compare: (K, K) -> int): (f: (K, K) -> bool) { (a, b) => compare(a, b) < 0 }

  lemma Increases<K(!new)>(ns: seq<Ptr>, data: map<Ptr, K>, compare: (K, K) -> int)
    requires Ordered(ns, data, compare)
    ensures I.Increasing(Under(compare), Elems(ns, data))
  {
  }

  /** Where a key splits the sequence is its place, and it is free. */
  lemma SplitsPlace<K(!new)>(ns: seq<Ptr>, data: map<Ptr, K>, compare: (K, K) -> int, key: K, k: int)
    requires Lawful(compare) && Ordered(ns, data, compare) && Splits(ns, data, compare, key, k)
    ensures I.Place(Under(compare), Elems(ns, data), key, 0) == k && !I.Occupied(Under(compare), Elems(ns, data), key)
  {
    var s := Elems(ns, data);
    forall i | 0 <= i < |ns|
      ensures Under(compare)(s[i], key) <==> compare(key, s[i]) > 0
    {
      Flip(compare, s[i], key);
    }
    if k < |s| {
      Flip(compare, key, s[k]);
    }
    I.PlaceUnique(Under(compare), s, key, k, 0);
    hide Lawful;
  }

  /** A key that is there leaves its place taken. */
  lemma PresentPlace<K(!new)>(ns: seq<Ptr>, data: map<Ptr, K>, compare: (K, K) -> int, key: K)
    requires Lawful(compare) && Ordered(ns, data, compare)
    ensures I.Occupied(Under(compare), Elems(ns, data), key) <==> !Absent(ns, data, compare, key)
  {
    var s, f := Elems(ns, data), Under(compare);
    KeySits(ns, data, compare, key);
    Increases(ns, data, compare);
    forall i | 0 <= i < |s|
      ensures !f(s[i], key) && !f(key, s[i]) <==> compare(key, data[ns[i]]) == 0
    {
      Flip(compare, s[i], key);
    }
    hide Lawful;
    hide Ordered;
    I.OccupiedIff(f, s, key);
    hide *;
    EqualSomewhere(ns, data, compare, key, s, f);
  }

  lemma EqualSomewhere<K(!new)>(ns: seq<Ptr>, data: map<Ptr, K>, compare: (K, K) -> int, key: K, s: seq<K>, f: (K, K) -> bool)
    requires (forall i :: 0 <= i < |ns| ==> ns[i] in data) && |s| == |ns|
    requires forall i :: 0 <= i < |s| ==> (!f(s[i], key) && !f(key, s[i]) <==> compare(key, data[ns[i]]) == 0)
    ensures (exists x :: x in s && !f(x, key) && !f(key, x)) <==> !Absent(ns, data, compare, key)
  {
    if i :| 0 <= i < |ns| && compare(key, data[ns[i]]) == 0 {
      assert s[i] in s;
    }
  }

  lemma KeySits<K(!new)>(ns: seq<Ptr>, data: map<Ptr, K>, compare: (K, K) -> int, key: K)
    requires Lawful(compare) && Ordered(ns, data, compare)
    ensures I.Sits(Under(compare), Elems(ns, data), key)
  {
  }

  /** Inserting a node at the split place is the insertion of its key. */
  lemma InsertRealises<K(!new)>(ns: seq<Ptr>, data: map<Ptr, K>, compare: (K, K) -> int, key: K, k: int, node: Ptr)
    requires Lawful(compare) && Ordered(ns, data, compare) && Splits(ns, data, compare, key, k) && node !in ns
    ensures forall i :: 0 <= i < |ns| + 1 ==> InsertAt(ns, k, node)[i] in data[node := key]
    ensures Elems(InsertAt(ns, k, node), data[node := key]) == I.Insert(Under(compare), Elems(ns, data), key)
  {
    SplitsPlace(ns, data, compare, key, k);
    var s := Elems(ns, data);
    assert I.Insert(Under(compare), s, key) == s[..k] + [key] + s[k..];
    hide *;
    InsertElems(ns, data, key, k, node);
  }

  lemma InsertElems<K>(ns: seq<Ptr>, data: map<Ptr, K>, key: K, k: int, node: Ptr)
    requires (forall i :: 0 <= i < |ns| ==> ns[i] in data) && 0 <= k <= |ns| && node !in ns
    ensures var r, s := InsertAt(ns, k, node), Elems(ns, data);
            && |r| == |ns| + 1 && (forall i :: 0 <= i < |r| ==> r[i] in data[node := key])
            && Elems(r, data[node := key]) == s[..k] + [key] + s[k..]
  {
    var s, r := Elems(ns, data), InsertAt(ns, k, node);
    forall i | 0 <= i < |r|
      ensures r[i] in data[node := key] && data[node := key][r[i]] == (s[..k] + [key] + s[k..])[i]
    {
      assert r[i] == if i < k then ns[i] else if i == k then node else ns[i - 1];
    }
  }

  /** Taking the node out that compares equal is the deletion of its key. */
  lemma RemoveRealises<K(!new)>(ns: seq<Ptr>, data: map<Ptr, K>, compare: (K, K) -> int, key: K, k: int)
    requires Lawful(compare) && Ordered(ns, data, compare) && Found(ns, data, compare, key, k)
    ensures forall i :: 0 <= i < |ns| - 1 ==> RemoveAt(ns, k)[i] in data
    ensures var s, r := Elems(ns, data), Elems(RemoveAt(ns, k), data);
            r == Gap(s, k) && (Even(compare) ==> r == I.Delete(Under(compare), s, key))
  {
    var s, t := Elems(ns, data), RemoveAt(ns, k);
    forall i | 0 <= i < |ns| - 1
      ensures t[i] in data && data[t[i]] == (s[..k] + s[k + 1..])[i]
    {
      assert t[i] == if i < k then ns[i] else ns[i + 1];
    }
    if Even(compare) {
      EvenPlace(ns, data, compare, key, k);
    }
  }

  lemma EvenPlace<K(!new)>(ns: seq<Ptr>, data: map<Ptr, K>, compare: (K, K) -> int, key: K, k: int)
    requires Lawful(compare) && Even(compare) && Ordered(ns, data, compare) && Found(ns, data, compare, key, k)
    ensures I.Place(Under(compare), Elems(ns, data), key, 0) == k && I.Occupied(Under(compare), Elems(ns, data), key)
  {
    var s := Elems(ns, data);
    forall i | 0 <= i < |ns|
      ensures Under(compare)(s[i], key) <==> compare(key, s[i]) > 0
    {
      Flip(compare, s[i], key);
    }
    hide Lawful;
    hide Even;
  }
}
