/** hash.h: the lossy cache, with four probes from a slot that an arbitrary hash selects. */
module HashCache {
  import opened Basics

  const PROBES: nat := 4

  /** Slot f of the probe sequence that starts at h. */
  function Slot(n: nat, h: nat, f: nat): (i: nat)
    requires f <= PROBES <= n && h < n
    ensures i < n
  {
    var i := h + f;
    if i < n then i else i - n
  }

  /** The first probe, from f on, whose slot holds key; PROBES if there is none. */
  function FirstMatch<K(==)>(keys: seq<K>, h: nat, key: K, f: nat): (g: nat)
    requires |keys| >= PROBES && f <= PROBES && h < |keys|
    ensures f <= g <= PROBES && (g < PROBES ==> keys[Slot(|keys|, h, g)] == key)
    ensures forall e :: f <= e < g ==> keys[Slot(|keys|, h, e)] != key
    decreases PROBES - f
  {
    if f == PROBES then PROBES else if keys[Slot(|keys|, h, f)] == key then f else FirstMatch(keys, h, key, f + 1)
  }

  /** What a search returns: the value in the first slot with the key. */
  function Lookup<K(==), V>(keys: seq<K>, values: seq<Option<V>>, h: nat, key: K): (v: Option<V>)
    requires |keys| == |values| >= PROBES && h < |keys|
  {
    var f := FirstMatch(keys, h, key, 0);
    if f < PROBES then values[Slot(|keys|, h, f)] else None
  }

  /** Slot i holds a value, and it is the first slot with its key. */
  ghost predicate FirstLive<K(!new), V>(keys: seq<K>, values: seq<Option<V>>, hash: K -> nat, i: nat)
    requires |keys| == |values| >= PROBES && i < |keys| && hash(keys[i]) < |keys|
  {
    values[i].Some? ==>
      var h, f := hash(keys[i]), FirstMatch(keys, hash(keys[i]), keys[i], 0);
      f < PROBES && Slot(|keys|, h, f) == i
  }

  ghost predicate InRange<K(!new)>(hash: K -> nat, n: nat) { forall k :: hash(k) < n }

  ghost predicate Wellkept<K(!new), V>(keys: seq<K>, values: seq<Option<V>>, hash: K -> nat) {
    && |keys| == |values| >= PROBES && InRange(hash, |keys|)
    && (forall i :: 0 <= i < |keys| ==> FirstLive(keys, values, hash, i))
  }

  /** Every live slot agrees with the reference. */
  ghost predicate Agrees<K(!new), V(!new)>(keys: seq<K>, values: seq<Option<V>>, reference: K -> Option<V>)
    requires |keys| == |values|
  {
    forall i :: 0 <= i < |keys| && values[i].Some? ==> values[i] == reference(keys[i])
  }

  /** Each key has at most one live slot, and a search finds it. */
  lemma OneLiveSlot<K(!new), V>(keys: seq<K>, values: seq<Option<V>>, hash: K -> nat, i: nat)
    requires Wellkept(keys, values, hash) && i < |keys| && values[i].Some?
    ensures Lookup(keys, values, hash(keys[i]), keys[i]) == values[i]
    ensures forall j :: 0 <= j < |keys| && keys[j] == keys[i] && values[j].Some? ==> j == i
  {
    assert FirstLive(keys, values, hash, i);
    forall j | 0 <= j < |keys| && keys[j] == keys[i] && values[j].Some?
      ensures j == i
    {
      assert FirstLive(keys, values, hash, j);
    }
  }

  lemma SlotsDiffer(n: nat, h: nat, e: nat, f: nat)
    requires h < n && n >= PROBES && e < f < PROBES
    ensures Slot(n, h, e) != Slot(n, h, f)
  {
  }

  /** Where an insertion goes: the first of three probes that is free or has the key,
      otherwise the fourth. */
  function Target<K(==), V>(keys: seq<K>, values: seq<Option<V>>, h: nat, key: K, f: nat): (g: nat)
    requires |keys| == |values| >= PROBES && h < |keys| && f < PROBES
    ensures f <= g < PROBES
    decreases PROBES - f
  {
    if f == PROBES - 1 then f
    else if values[Slot(|keys|, h, f)].None? || keys[Slot(|keys|, h, f)] == key then f
    else Target(keys, values, h, key, f + 1)
  }

  lemma {:induction false} TargetIs<K, V>(keys: seq<K>, values: seq<Option<V>>, h: nat, key: K, f: nat, e: nat)
    requires |keys| == |values| >= PROBES && h < |keys| && f < PROBES && f <= e < Target(keys, values, h, key, f)
    ensures values[Slot(|keys|, h, e)].Some? && keys[Slot(|keys|, h, e)] != key
    decreases PROBES - f
  {
    if e > f {
      TargetIs(keys, values, h, key, f + 1, e);
    }
  }

  /** After writing key into slot i, whether an earlier slot of another key matches is unchanged. */
  lemma {:induction false} OtherMatch<K>(keys: seq<K>, h: nat, key: K, i: nat, other: K, f: nat)
    requires |keys| >= PROBES && h < |keys| && i < |keys| && f <= PROBES && other != key
    ensures FirstMatch(keys, h, other, f) < PROBES && Slot(|keys|, h, FirstMatch(keys, h, other, f)) != i
            ==> FirstMatch(keys[i := key], h, other, f) == FirstMatch(keys, h, other, f)
    decreases PROBES - f
  {
    if f < PROBES {
      OtherMatch(keys, h, key, i, other, f + 1);
    }
  }

  /** A key that is not live can be inserted: it becomes live, and no other entry does. */
  lemma InsertKeeps<K(!new), V>(keys: seq<K>, values: seq<Option<V>>, hash: K -> nat, key: K, value: V)
    requires Wellkept(keys, values, hash) && Lookup(keys, values, hash(key), key) == None
    ensures var i := Slot(|keys|, hash(key), Target(keys, values, hash(key), key, 0));
            Wellkept(keys[i := key], values[i := Some(value)], hash)
  {
    var n, h := |keys|, hash(key);
    var f := Target(keys, values, h, key, 0);
    var i := Slot(n, h, f);
    var keys', values' := keys[i := key], values[i := Some(value)];
    forall j | 0 <= j < n
      ensures FirstLive(keys', values', hash, j)
    {
      assert FirstLive(keys, values, hash, j);
      if j == i {
        NewMatch(keys, values, h, key);
      } else if values[j].Some? {
        NotLive(keys, values, hash, key, j);
        OtherMatch(keys, hash(keys[j]), key, i, keys[j], 0);
      }
    }
  }

  /** A live key whose place has become free further in front gets a second live slot;
      otherwise an insertion keeps the table. */
  lemma InsertKeepsIff<K(!new), V>(keys: seq<K>, values: seq<Option<V>>, hash: K -> nat, key: K, value: V)
    requires Wellkept(keys, values, hash)
    ensures var f := Target(keys, values, hash(key), key, 0);
            var i := Slot(|keys|, hash(key), f);
            Wellkept(keys[i := key], values[i := Some(value)], hash)
            <==> Lookup(keys, values, hash(key), key) == None || f == FirstMatch(keys, hash(key), key, 0)
  {
    var n, h := |keys|, hash(key);
    var f, g := Target(keys, values, h, key, 0), FirstMatch(keys, hash(key), key, 0);
    var i := Slot(n, h, f);
    var keys', values' := keys[i := key], values[i := Some(value)];
    if Lookup(keys, values, h, key) == None {
      InsertKeeps(keys, values, hash, key, value);
    } else if f == g {
      assert keys' == keys;
      forall j | 0 <= j < n
        ensures FirstLive(keys', values', hash, j)
      {
        assert FirstLive(keys, values, hash, j);
      }
    } else {
      NewMatch(keys, values, h, key);
      TargetBefore(keys, values, h, key, 0);
      SlotsDiffer(n, h, f, g);
      assert !FirstLive(keys', values', hash, Slot(n, h, g));
    }
  }

  lemma {:induction false} TargetBefore<K, V>(keys: seq<K>, values: seq<Option<V>>, h: nat, key: K, f: nat)
    requires |keys| == |values| >= PROBES && h < |keys| && f < PROBES && FirstMatch(keys, h, key, f) < PROBES
    ensures Target(keys, values, h, key, f) <= FirstMatch(keys, h, key, f)
    decreases PROBES - f
  {
    if f < PROBES - 1 && keys[Slot(|keys|, h, f)] != key {
      TargetBefore(keys, values, h, key, f + 1);
    }
  }

  lemma NewMatch<K(!new), V>(keys: seq<K>, values: seq<Option<V>>, h: nat, key: K)
    requires |keys| == |values| >= PROBES && h < |keys|
    ensures var f := Target(keys, values, h, key, 0);
            FirstMatch(keys[Slot(|keys|, h, f) := key], h, key, 0) == f
  {
    var f := Target(keys, values, h, key, 0);
    var keys' := keys[Slot(|keys|, h, f) := key];
    var g := FirstMatch(keys', h, key, 0);
    if g < f {
      TargetIs(keys, values, h, key, 0, g);
      SlotsDiffer(|keys|, h, g, f);
    }
  }

  lemma NotLive<K(!new), V>(keys: seq<K>, values: seq<Option<V>>, hash: K -> nat, key: K, j: nat)
    requires Wellkept(keys, values, hash) && Lookup(keys, values, hash(key), key) == None && j < |keys| && values[j].Some?
    ensures keys[j] != key
  {
    OneLiveSlot(keys, values, hash, j);
  }

  /** Emptying slots keeps the rest first. */
  lemma RemoveKeeps<K(!new), V>(keys: seq<K>, values: seq<Option<V>>, hash: K -> nat, i: nat)
    requires Wellkept(keys, values, hash) && i < |keys|
    ensures Wellkept(keys, values[i := None], hash)
  {
    var values' := values[i := None];
    forall j | 0 <= j < |keys|
      ensures FirstLive(keys, values', hash, j)
    {
      assert FirstLive(keys, values, hash, j);
    }
  }

  /** struct hash_t and its four operations. */
  class Table<K(==, !new), V(!new)> {
    const keys: array<K>
    const values: array<Option<V>>
    const hash: K -> nat
    const zero: K

    ghost predicate Valid()
      reads this, keys, values
    {
      Separate() && Wellkept(keys[..], values[..], hash)
    }

    /** The two arrays of the struct. */
    ghost predicate Separate() {
      var k: object, v: object := keys, values;
      k != v && keys.Length == values.Length >= PROBES && InRange(hash, keys.Length)
    }

    constructor (n: nat, hash: K -> nat, zero: K)
      requires n >= PROBES && InRange(hash, n)
      ensures Valid() && fresh(keys) && fresh(values) && this.hash == hash && this.zero == zero
      ensures forall i :: 0 <= i < values.Length ==> values[i] == None
    {
      keys := new K[n](_ => zero);
      values := new Option<V>[n](_ => None);
      this.hash := hash;
      this.zero := zero;
    }

    /** hash_clear. */
    method Clear()
      requires Separate()
      modifies keys, values
      ensures Valid() && (forall i :: 0 <= i < values.Length ==> values[i] == None)
    {
      for i := 0 to values.Length
        invariant forall j :: 0 <= j < i ==> values[j] == None
      {
        values[i] := None;
      }
      for i := 0 to keys.Length
        invariant forall j :: 0 <= j < values.Length ==> values[j] == None
      {
        keys[i] := zero;
      }
    }

    /** hash_search. */
    method Search(key: K) returns (v: Option<V>)
      requires Valid()
      ensures v == Lookup(keys[..], values[..], hash(key), key)
    {
      var n := keys.Length;
      var i := hash(key);
      for f := 0 to PROBES
        invariant i == Slot(n, hash(key), f)
        invariant FirstMatch(keys[..], hash(key), key, 0) == FirstMatch(keys[..], hash(key), key, f)
      {
        if keys[i] == key {
          return values[i];
        }
        i := Next(n, hash(key), f, i);
      }
      return None;
    }

    /** ++i, and back to 0 at the end of the table. */
    static method Next(n: nat, h: nat, f: nat, i: nat) returns (j: nat)
      requires h < n && f < PROBES <= n && i == Slot(n, h, f)
      ensures j == Slot(n, h, f + 1)
    {
      j := i + 1;
      if j == n {
        j := 0;
      }
    }

    /** hash_insert. */
    method Insert(key: K, value: V)
      requires Valid()
      modifies keys, values
      ensures Lookup(keys[..], values[..], hash(key), key) == Some(value)
      ensures Valid() <==> Lookup(old(keys[..]), old(values[..]), hash(key), key) == None
                           || Target(old(keys[..]), old(values[..]), hash(key), key, 0) == FirstMatch(old(keys[..]), hash(key), key, 0)
      ensures var i := Slot(keys.Length, hash(key), Target(old(keys[..]), old(values[..]), hash(key), key, 0));
              keys[..] == old(keys[..])[i := key] && values[..] == old(values[..])[i := Some(value)]
    {
      var n := keys.Length;
      var i := hash(key);
      InsertKeepsIff(keys[..], values[..], hash, key, value);
      NewMatch(keys[..], values[..], hash(key), key);
      var f := 0;
      while f < PROBES - 1
        invariant 0 <= f < PROBES && i == Slot(n, hash(key), f) && unchanged(keys) && unchanged(values)
        invariant Target(keys[..], values[..], hash(key), key, 0) == Target(keys[..], values[..], hash(key), key, f)
      {
        if values[i] == None || keys[i] == key {
          break;
        }
        i := Next(n, hash(key), f, i);
        f := f + 1;
      }
      assert keys[..] == old(keys[..]) && values[..] == old(values[..]);
      keys[i] := key;
      values[i] := Some(value);
      assert keys[..] == old(keys[..])[i := key] && values[..] == old(values[..])[i := Some(value)];
    }

    /** hash_delete. */
    method Delete(key: K)
      requires Valid()
      modifies values
      ensures Valid() && Lookup(keys[..], values[..], hash(key), key) == None
      ensures forall i :: 0 <= i < keys.Length && values[i].Some? ==> values[i] == old(values[i]) && keys[i] != key
    {
      var n := keys.Length;
      var i := hash(key);
      for f := 0 to PROBES
        invariant i == Slot(n, hash(key), f) && unchanged(values)
        invariant FirstMatch(keys[..], hash(key), key, 0) == FirstMatch(keys[..], hash(key), key, f)
      {
        if keys[i] == key {
          values[i] := None;
          assert values[..] == old(values[..])[i := None];
          RemoveKeeps(keys[..], old(values[..]), hash, i);
          Emptied(keys[..], old(values[..]), hash, key, i);
          return;
        }
        i := Next(n, hash(key), f, i);
      }
      assert values[..] == old(values[..]);
      Emptied(keys[..], values[..], hash, key, n);
    }
  }

  /** Once its first slot is empty, or if there is none, no slot is live for the key. */
  lemma Emptied<K(!new), V>(keys: seq<K>, values: seq<Option<V>>, hash: K -> nat, key: K, i: nat)
    requires Wellkept(keys, values, hash)
    requires var f := FirstMatch(keys, hash(key), key, 0);
             if f < PROBES then i == Slot(|keys|, hash(key), f) else i == |keys|
    ensures forall j :: 0 <= j < |keys| && j != i && values[j].Some? ==> keys[j] != key
  {
    forall j | 0 <= j < |keys| && j != i && values[j].Some?
      ensures keys[j] != key
    {
      assert FirstLive(keys, values, hash, j);
    }
  }
}
