/** The list threaded through a splay tree, and the order its comparison keeps. */
module SplayOrder {
  import opened SplayShape
  import opened SplayUp
  import opened SplaySearch

  function At(ns: seq<Ptr>, i: int): (p: Ptr) { if 0 <= i < |ns| then ns[i] else NULL }

  predicate ThreadAt(m: Mem, ns: seq<Ptr>, i: int)
    requires 0 <= i < |ns|
  {
    ns[i] in m && m[ns[i]].next == At(ns, i + 1) && m[ns[i]].prev == At(ns, i - 1)
  }

  /** head, next, prev and tail read the sequence. */
  ghost predicate Threaded(m: Mem, ns: seq<Ptr>, head: Ptr, tail: Ptr) {
    && head == At(ns, 0) && tail == At(ns, |ns| - 1)
    && (forall i :: 0 <= i < |ns| ==> ThreadAt(m, ns, i))
  }

  lemma ThreadsStay(m: Mem, m': Mem, ns: seq<Ptr>, head: Ptr, tail: Ptr)
    requires Threaded(m, ns, head, tail) && SameThreads(m, m')
    ensures Threaded(m', ns, head, tail)
  {
    forall i | 0 <= i < |ns|
      ensures ThreadAt(m', ns, i)
    {
      assert ThreadAt(m, ns, i);
    }
  }

  /** The outcome of comparing key with every node. */
  ghost function Signs<K(!new)>(data: map<Ptr, K>, compare: (K, K) -> int, key: K): (sgn: Ptr -> int)
    ensures forall p :: p in data ==> sgn(p) == compare(key, data[p])
  {
    p => if p in data then compare(key, data[p]) else 0
  }

  /** compare is a three-way comparison whose "less" is a strict order. */
  ghost predicate Lawful<K(!new)>(compare: (K, K) -> int) {
    && (forall a, b :: compare(a, b) < 0 <==> compare(b, a) > 0)
    && (forall a, b, c :: compare(a, b) < 0 && compare(b, c) < 0 ==> compare(a, c) < 0)
  }

  /** What compares equal compares alike, so that nothing compares equal to two elements of
      an ordered tree. */
  ghost predicate Even<K(!new)>(compare: (K, K) -> int) {
    && (forall a, b, c :: compare(a, b) == 0 && compare(b, c) < 0 ==> compare(a, c) < 0)
    && (forall a, b, c :: compare(a, b) < 0 && compare(b, c) == 0 ==> compare(a, c) < 0)
  }

  /** Strictly increasing. */
  ghost predicate Ordered<K(!new)>(ns: seq<Ptr>, data: map<Ptr, K>, compare: (K, K) -> int) {
    && (forall i :: 0 <= i < |ns| ==> ns[i] in data)
    && (forall i, j :: 0 <= i < j < |ns| ==> compare(data[ns[i]], data[ns[j]]) < 0)
  }

  /** Before place k everything is smaller than key, from place k on everything greater. */
  ghost predicate Splits<K(!new)>(ns: seq<Ptr>, data: map<Ptr, K>, compare: (K, K) -> int, key: K, k: int)
    requires forall i :: 0 <= i < |ns| ==> ns[i] in data
  {
    && 0 <= k <= |ns|
    && (forall i :: 0 <= i < k ==> compare(key, data[ns[i]]) > 0)
    && (forall i :: k <= i < |ns| ==> compare(key, data[ns[i]]) < 0)
  }

  /** What is at place k compares equal, and if what compares equal compares alike then
      everything before it is smaller than key and everything after it greater. */
  ghost predicate Found<K(!new)>(ns: seq<Ptr>, data: map<Ptr, K>, compare: (K, K) -> int, key: K, k: int)
    requires forall i :: 0 <= i < |ns| ==> ns[i] in data
  {
    && 0 <= k < |ns| && compare(key, data[ns[k]]) == 0
    && (Even(compare) ==>
          && (forall i :: 0 <= i < k ==> compare(key, data[ns[i]]) > 0)
          && (forall i :: k < i < |ns| ==> compare(key, data[ns[i]]) < 0))
  }

  /** Whatever comes before something smaller than key is smaller than key. */
  lemma Smaller<K(!new)>(ns: seq<Ptr>, data: map<Ptr, K>, compare: (K, K) -> int, key: K, k: int)
    requires Lawful(compare) && Ordered(ns, data, compare) && 0 <= k < |ns|
    requires compare(key, data[ns[k]]) > 0 || (Even(compare) && compare(key, data[ns[k]]) == 0)
    ensures forall i :: 0 <= i < k ==> compare(key, data[ns[i]]) > 0
  {
    forall i | 0 <= i < k
      ensures compare(key, data[ns[i]]) > 0
    {
      Chain(compare, data[ns[i]], data[ns[k]], key);
    }
  }

  lemma Greater<K(!new)>(ns: seq<Ptr>, data: map<Ptr, K>, compare: (K, K) -> int, key: K, k: int)
    requires Lawful(compare) && Ordered(ns, data, compare) && 0 <= k < |ns|
    requires compare(key, data[ns[k]]) < 0 || (Even(compare) && compare(key, data[ns[k]]) == 0)
    ensures forall i :: k < i < |ns| ==> compare(key, data[ns[i]]) < 0
  {
    forall i | k < i < |ns|
      ensures compare(key, data[ns[i]]) < 0
    {
      Chain(compare, key, data[ns[k]], data[ns[i]]);
    }
  }

  lemma Chain<K(!new)>(compare: (K, K) -> int, a: K, b: K, c: K)
    requires Lawful(compare)
    ensures (compare(a, b) < 0 || (Even(compare) && compare(a, b) == 0)) && compare(b, c) < 0 ==> compare(a, c) < 0
    ensures compare(a, b) < 0 && (compare(c, b) > 0 || (Even(compare) && compare(c, b) == 0)) ==> compare(c, a) > 0
  {
    assert compare(b, c) < 0 <==> compare(c, b) > 0;
    assert compare(c, b) < 0 <==> compare(b, c) > 0;
  }

  /** From three neighbours to the whole sequence. */
  lemma SplitsAt<K(!new)>(ns: seq<Ptr>, data: map<Ptr, K>, compare: (K, K) -> int, key: K, k: int)
    requires Lawful(compare) && Ordered(ns, data, compare) && 0 <= k < |ns|
    requires compare(key, data[ns[k]]) < 0 && k > 0 ==> compare(key, data[ns[k - 1]]) > 0
    requires compare(key, data[ns[k]]) > 0 && k + 1 < |ns| ==> compare(key, data[ns[k + 1]]) < 0
    ensures compare(key, data[ns[k]]) == 0 ==> Found(ns, data, compare, key, k)
    ensures compare(key, data[ns[k]]) < 0 ==> Splits(ns, data, compare, key, k)
    ensures compare(key, data[ns[k]]) > 0 ==> Splits(ns, data, compare, key, k + 1)
  {
    var c := compare(key, data[ns[k]]);
    if c > 0 || (c == 0 && Even(compare)) {
      Smaller(ns, data, compare, key, k);
    } else if c < 0 && k > 0 {
      Smaller(ns, data, compare, key, k - 1);
    }
    if c < 0 || (c == 0 && Even(compare)) {
      Greater(ns, data, compare, key, k);
    } else if c > 0 && k + 1 < |ns| {
      Greater(ns, data, compare, key, k + 1);
    }
    hide Lawful;
  }

  /** In an ordered tree a descent ends at the key, or next to where it belongs. */
  lemma DescentSplits<K(!new)>(m: Mem, r: Reading, top: Ptr, data: map<Ptr, K>, compare: (K, K) -> int, key: K, t: Ptr)
    requires Shape(m, r, top) && Lawful(compare) && Ordered(r.ns, data, compare) && EndsAt(r, Signs(data, compare, key), t)
    ensures t in data
    ensures compare(key, data[t]) == 0 ==> Found(r.ns, data, compare, key, r.pos[t])
    ensures compare(key, data[t]) < 0 ==> Splits(r.ns, data, compare, key, r.pos[t])
    ensures compare(key, data[t]) > 0 ==> Splits(r.ns, data, compare, key, r.pos[t] + 1)
  {
    var k, sgn := r.pos[t], Signs(data, compare, key);
    assert r.ns[k] == t && t in data && 0 <= k < |r.ns|;
    assert k > 0 ==> r.ns[k - 1] in data;
    assert k + 1 < |r.ns| ==> r.ns[k + 1] in data;
    hide *;
    EndIsClosest(m, r, top, sgn, t);
    SplitsAt(r.ns, data, compare, key, k);
  }

  // Changing the threads.

  function SetNext(m: Mem, p: Ptr, x: Ptr): (r: Mem) { if p in m then m[p := m[p].(next := x)] else m }

  function SetPrev(m: Mem, p: Ptr, x: Ptr): (r: Mem) { if p in m then m[p := m[p].(prev := x)] else m }

  /** node is threaded in between p and n. */
  function Between(m: Mem, p: Ptr, node: Ptr, n: Ptr): (r: Mem) {
    SetPrev(SetNext(SetPrev(SetNext(m, node, n), node, p), p, node), n, node)
  }

  /** p and n are threaded to each other, past whatever was between them. */
  function Past(m: Mem, p: Ptr, n: Ptr): (r: Mem) { SetPrev(SetNext(m, p, n), n, p) }

  ghost predicate NoDup(ns: seq<Ptr>) { forall i, j :: 0 <= i < j < |ns| ==> ns[i] != ns[j] }

  function InsertAt(ns: seq<Ptr>, k: int, node: Ptr): (r: seq<Ptr>)
    requires 0 <= k <= |ns|
  {
    ns[..k] + [node] + ns[k..]
  }

  function RemoveAt(ns: seq<Ptr>, k: int): (r: seq<Ptr>)
    requires 0 <= k < |ns|
  {
    ns[..k] + ns[k + 1..]
  }

  lemma BetweenThreads(m: Mem, ns: seq<Ptr>, head: Ptr, tail: Ptr, k: int, node: Ptr)
    requires NULL !in m && NoDup(ns) && Threaded(m, ns, head, tail) && 0 <= k <= |ns| && node in m && node !in ns
    ensures Threaded(Between(m, At(ns, k - 1), node, At(ns, k)), InsertAt(ns, k, node),
                     if k == 0 then node else head, if k == |ns| then node else tail)
  {
    var m', ns' := Between(m, At(ns, k - 1), node, At(ns, k)), InsertAt(ns, k, node);
    forall i | 0 <= i < |ns'|
      ensures ThreadAt(m', ns', i)
    {
      BetweenAt(m, ns, head, tail, k, node, i);
    }
  }

  lemma BetweenAt(m: Mem, ns: seq<Ptr>, head: Ptr, tail: Ptr, k: int, node: Ptr, i: int)
    requires NULL !in m && NoDup(ns) && Threaded(m, ns, head, tail) && 0 <= k <= |ns| && node in m && node !in ns
    requires 0 <= i <= |ns|
    ensures |InsertAt(ns, k, node)| == |ns| + 1
    ensures ThreadAt(Between(m, At(ns, k - 1), node, At(ns, k)), InsertAt(ns, k, node), i)
  {
    var ns' := InsertAt(ns, k, node);
    InsertedAt(ns, k, node, i - 1);
    InsertedAt(ns, k, node, i);
    InsertedAt(ns, k, node, i + 1);
    assert i < k ==> ThreadAt(m, ns, i);
    assert i > k ==> ThreadAt(m, ns, i - 1);
    assert k > 0 ==> ThreadAt(m, ns, k - 1);
    assert k < |ns| ==> ThreadAt(m, ns, k);
    hide InsertAt;
    hide Threaded;
  }

  lemma InsertedAt(ns: seq<Ptr>, k: int, node: Ptr, i: int)
    requires 0 <= k <= |ns|
    ensures |InsertAt(ns, k, node)| == |ns| + 1
    ensures At(InsertAt(ns, k, node), i) == if i < k then At(ns, i) else if i == k then node else At(ns, i - 1)
  {
  }

  lemma PastThreads(m: Mem, ns: seq<Ptr>, head: Ptr, tail: Ptr, k: int)
    requires NULL !in m && NoDup(ns) && Threaded(m, ns, head, tail) && 0 <= k < |ns|
    ensures Threaded(Past(m, At(ns, k - 1), At(ns, k + 1)), RemoveAt(ns, k),
                     if k == 0 then At(ns, 1) else head, if k == |ns| - 1 then At(ns, k - 1) else tail)
  {
    var m', ns' := Past(m, At(ns, k - 1), At(ns, k + 1)), RemoveAt(ns, k);
    forall i | 0 <= i < |ns'|
      ensures ThreadAt(m', ns', i)
    {
      PastAt(m, ns, head, tail, k, i);
    }
    RemovedAt(ns, k, 0);
    RemovedAt(ns, k, |ns| - 2);
  }

  lemma PastAt(m: Mem, ns: seq<Ptr>, head: Ptr, tail: Ptr, k: int, i: int)
    requires NULL !in m && NoDup(ns) && Threaded(m, ns, head, tail) && 0 <= k < |ns| && 0 <= i < |ns| - 1
    ensures |RemoveAt(ns, k)| == |ns| - 1
    ensures ThreadAt(Past(m, At(ns, k - 1), At(ns, k + 1)), RemoveAt(ns, k), i)
  {
    RemovedAt(ns, k, i - 1);
    RemovedAt(ns, k, i);
    RemovedAt(ns, k, i + 1);
    assert i < k ==> ThreadAt(m, ns, i);
    assert i >= k ==> ThreadAt(m, ns, i + 1);
    assert k > 0 ==> ThreadAt(m, ns, k - 1);
    assert k + 1 < |ns| ==> ThreadAt(m, ns, k + 1);
    hide RemoveAt;
    hide Threaded;
  }

  lemma RemovedAt(ns: seq<Ptr>, k: int, i: int)
    requires 0 <= k < |ns|
    ensures |RemoveAt(ns, k)| == |ns| - 1
    ensures At(RemoveAt(ns, k), i) == if i < k then At(ns, i) else At(ns, i + 1)
  {
  }

  // The order, before and after.

  /** Of the sequence, exactly the places up to k are not greater than key; where several
      may compare equal and some does, one that does is at place k. */
  ghost predicate UpTo<K(!new)>(ns: seq<Ptr>, data: map<Ptr, K>, compare: (K, K) -> int, key: K, k: int)
    requires forall i :: 0 <= i < |ns| ==> ns[i] in data
  {
    && -1 <= k < |ns|
    && if Even(compare) || Absent(ns, data, compare, key) then
         forall i :: 0 <= i < |ns| ==> (i <= k <==> compare(key, data[ns[i]]) >= 0)
       else 0 <= k && compare(key, data[ns[k]]) == 0
  }

  /** Of the sequence, exactly the places from k on are not smaller than key, or likewise. */
  ghost predicate FromOn<K(!new)>(ns: seq<Ptr>, data: map<Ptr, K>, compare: (K, K) -> int, key: K, k: int)
    requires forall i :: 0 <= i < |ns| ==> ns[i] in data
  {
    && 0 <= k <= |ns|
    && if Even(compare) || Absent(ns, data, compare, key) then
         forall i :: 0 <= i < |ns| ==> (k <= i <==> compare(key, data[ns[i]]) <= 0)
       else k < |ns| && compare(key, data[ns[k]]) == 0
  }

  ghost predicate Absent<K(!new)>(ns: seq<Ptr>, data: map<Ptr, K>, compare: (K, K) -> int, key: K)
    requires forall i :: 0 <= i < |ns| ==> ns[i] in data
  {
    forall i :: 0 <= i < |ns| ==> compare(key, data[ns[i]]) != 0
  }

  lemma SplitsEnds<K(!new)>(ns: seq<Ptr>, data: map<Ptr, K>, compare: (K, K) -> int, key: K, k: int)
    requires (forall i :: 0 <= i < |ns| ==> ns[i] in data) && Splits(ns, data, compare, key, k)
    ensures UpTo(ns, data, compare, key, k - 1) && FromOn(ns, data, compare, key, k)
  {
    hide Even;
  }

  lemma FoundEnds<K(!new)>(ns: seq<Ptr>, data: map<Ptr, K>, compare: (K, K) -> int, key: K, k: int)
    requires (forall i :: 0 <= i < |ns| ==> ns[i] in data) && Found(ns, data, compare, key, k)
    ensures UpTo(ns, data, compare, key, k) && FromOn(ns, data, compare, key, k)
  {
    hide Even;
    assert !Absent(ns, data, compare, key);
  }

  lemma Flip<K(!new)>(compare: (K, K) -> int, a: K, b: K)
    requires Lawful(compare)
    ensures compare(a, b) < 0 <==> compare(b, a) > 0
  {
  }

  lemma OrderedInsert<K(!new)>(ns: seq<Ptr>, data: map<Ptr, K>, compare: (K, K) -> int, key: K, k: int, node: Ptr)
    requires Lawful(compare) && Ordered(ns, data, compare) && Splits(ns, data, compare, key, k) && node !in ns
    ensures Ordered(InsertAt(ns, k, node), data[node := key], compare)
  {
    hide Lawful;
    var ns', data' := InsertAt(ns, k, node), data[node := key];
    forall i | 0 <= i < |ns'|
      ensures ns'[i] in data'
    {
      InsertedAt(ns, k, node, i);
    }
    forall i, j | 0 <= i < j < |ns'|
      ensures compare(data'[ns'[i]], data'[ns'[j]]) < 0
    {
      InsertedAt(ns, k, node, i);
      InsertedAt(ns, k, node, j);
      Flip(compare, data'[ns'[i]], data'[ns'[j]]);
    }
  }

  lemma OrderedRemove<K(!new)>(ns: seq<Ptr>, data: map<Ptr, K>, compare: (K, K) -> int, k: int)
    requires Ordered(ns, data, compare) && 0 <= k < |ns|
    ensures Ordered(RemoveAt(ns, k), data, compare)
  {
  }

  lemma EmptySplits<K(!new)>(data: map<Ptr, K>, compare: (K, K) -> int, key: K, node: Ptr)
    ensures Splits([], data, compare, key, 0) && Absent([], data, compare, key) && InsertAt([], 0, node) == [node]
  {
  }

  lemma SplitsAbsent<K(!new)>(ns: seq<Ptr>, data: map<Ptr, K>, compare: (K, K) -> int, key: K, k: int)
    requires Ordered(ns, data, compare) && Splits(ns, data, compare, key, k)
    ensures Absent(ns, data, compare, key)
  {
  }

  lemma FoundPresent<K(!new)>(ns: seq<Ptr>, data: map<Ptr, K>, compare: (K, K) -> int, key: K, k: int)
    requires Ordered(ns, data, compare) && Found(ns, data, compare, key, k)
    ensures !Absent(ns, data, compare, key)
  {
  }
}
