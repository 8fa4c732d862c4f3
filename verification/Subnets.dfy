/** subnet.c: looking addresses up, with and without the cache. */
module Subnets {
  import opened Basics
  import opened HashCache
  import opened OrderedIndex
  import opened SubnetOrder

  /** The subnet is of this kind and the address lies in it. */
  ghost predicate Matches(s: Subnet, kind: Kind, a: Bytes) {
    s.kind == kind && |s.address| == |a| && s.prefix <= 8 * |a| && SamePrefix(a, s.address, s.prefix)
  }

  /** Ownerless, or with a reachable owner. */
  predicate Usable(s: Subnet, up: set<Name>) { s.owner.None? || s.owner.value in up }

  /** The loop over the subnet tree: the first usable match, or else the last match. */
  ghost function Scan(t: seq<Subnet>, up: set<Name>, kind: Kind, a: Bytes): (r: Option<Subnet>) {
    if t == [] then None
    else if Matches(t[0], kind, a) then
      if Usable(t[0], up) then Some(t[0])
      else var r := Scan(t[1..], up, kind, a); if r == None then Some(t[0]) else r
    else Scan(t[1..], up, kind, a)
  }

  /** Somebody usable matches. */
  ghost predicate Served(t: seq<Subnet>, up: set<Name>, kind: Kind, a: Bytes) {
    exists i :: 0 <= i < |t| && Matches(t[i], kind, a) && Usable(t[i], up)
  }

  /** What the loop finds, place by place. */
  ghost predicate Finds(t: seq<Subnet>, up: set<Name>, kind: Kind, a: Bytes, r: Option<Subnet>) {
    && (r == None <==> forall i :: 0 <= i < |t| ==> !Matches(t[i], kind, a))
    && (r.Some? ==> exists k :: FoundAt(t, up, kind, a, r.value, k))
  }

  ghost predicate FoundAt(t: seq<Subnet>, up: set<Name>, kind: Kind, a: Bytes, s: Subnet, k: int) {
    && 0 <= k < |t| && t[k] == s && Matches(s, kind, a)
    && (if Served(t, up, kind, a) then Usable(s, up) && (forall i :: 0 <= i < k && Matches(t[i], kind, a) ==> !Usable(t[i], up))
        else forall i :: k < i < |t| ==> !Matches(t[i], kind, a))
  }

  lemma {:induction false} ScanFinds(t: seq<Subnet>, up: set<Name>, kind: Kind, a: Bytes)
    ensures Finds(t, up, kind, a, Scan(t, up, kind, a))
  {
    hide Matches;
    if t != [] {
      var rest := t[1..];
      ScanFinds(rest, up, kind, a);
      var r, q := Scan(t, up, kind, a), Scan(rest, up, kind, a);
      assert forall i :: 0 < i < |t| ==> t[i] == rest[i - 1];
      assert forall i :: 0 <= i < |rest| ==> rest[i] == t[i + 1];
      if Matches(t[0], kind, a) && Usable(t[0], up) {
        assert FoundAt(t, up, kind, a, t[0], 0);
      } else {
        assert Served(t, up, kind, a) <==> Served(rest, up, kind, a) by {
          if Served(t, up, kind, a) {
            var i :| 0 <= i < |t| && Matches(t[i], kind, a) && Usable(t[i], up);
            assert Matches(rest[i - 1], kind, a);
          }
          if Served(rest, up, kind, a) {
            var i :| 0 <= i < |rest| && Matches(rest[i], kind, a) && Usable(rest[i], up);
            assert Matches(t[i + 1], kind, a);
          }
        }
        if q.Some? {
          var k :| FoundAt(rest, up, kind, a, q.value, k);
          assert FoundAt(t, up, kind, a, q.value, k + 1);
        } else if Matches(t[0], kind, a) {
          assert FoundAt(t, up, kind, a, t[0], 0);
        }
      }
    }
  }

  // What the loop finds, in terms of the subnets themselves.

  /** The address lies in the subnet: of the kind, and the same first bits, one by one. */
  ghost predicate Contains(s: Subnet, kind: Kind, a: Bytes) {
    && s.kind == kind && |s.address| == |a| && s.prefix <= 8 * |a|
    && forall i, j | 0 <= i < |a| && 0 <= j < 8 && 8 * i + j < s.prefix :: Bit(a[i], j) == Bit(s.address[i], j)
  }

  lemma MatchesIff(s: Subnet, kind: Kind, a: Bytes)
    ensures Matches(s, kind, a) <==> Contains(s, kind, a)
  {
    hide Bit;
    if Matches(s, kind, a) {
      forall i, j | 0 <= i < |a| && 0 <= j < 8 && 8 * i + j < s.prefix
        ensures Bit(a[i], j) == Bit(s.address[i], j)
      {
        assert BitAt(a, 8 * i + j) == BitAt(s.address, 8 * i + j);
      }
    }
    if Contains(s, kind, a) {
      forall t | 0 <= t < s.prefix
        ensures BitAt(a, t) == BitAt(s.address, t)
      {
        assert Bit(a[t / 8], t % 8) == Bit(s.address[t / 8], t % 8);
      }
    }
  }

  /** s is preferred to x: longer prefix, then lower weight, then lower owner name. */
  predicate Preferred(s: Subnet, x: Subnet) {
    || s.prefix > x.prefix
    || (s.prefix == x.prefix
        && (s.weight < x.weight || (s.weight == x.weight && s.owner.Some? && x.owner.Some? && Lex(s.owner.value, x.owner.value) < 0)))
  }

  /** Two nets with the same prefix, bit for bit, have the same address. */
  ghost predicate SameNet(s: Subnet, x: Subnet) {
    (s.kind == x.kind && s.prefix == x.prefix && |s.address| == |x.address| && s.prefix <= 8 * |s.address|
     && SamePrefix(s.address, x.address, s.prefix)) ==> s.address == x.address
  }

  ghost predicate Aligned(t: seq<Subnet>) {
    forall i, j :: 0 <= i < |t| && 0 <= j < |t| ==> SameNet(t[i], t[j])
  }

  /** It is enough that no address has stray bits after its prefix. */
  lemma TidyAligned(t: seq<Subnet>)
    requires forall i :: 0 <= i < |t| ==> t[i].prefix <= 8 * |t[i].address| && Canonical(t[i].address, t[i].prefix)
    ensures Aligned(t)
  {
    forall i, j | 0 <= i < |t| && 0 <= j < |t|
      ensures SameNet(t[i], t[j])
    {
      var s, x := t[i], t[j];
      if s.prefix == x.prefix && |s.address| == |x.address| && SamePrefix(s.address, x.address, s.prefix) {
        CanonicalUnique(s.address, x.address, s.prefix);
      }
    }
  }

  lemma Overlap(s: Subnet, x: Subnet, kind: Kind, a: Bytes)
    requires Matches(s, kind, a) && Matches(x, kind, a) && s.prefix == x.prefix
    ensures |s.address| == |x.address| && s.prefix <= 8 * |s.address| && SamePrefix(s.address, x.address, s.prefix)
  {
  }

  /** Of two matches, the one that comes first in the tree is the preferred one. */
  lemma OrderPrefers(s: Subnet, x: Subnet, kind: Kind, a: Bytes)
    requires kind != Mac && Matches(s, kind, a) && Matches(x, kind, a) && Compare(s, x) < 0 && SameNet(s, x)
    ensures Preferred(s, x)
  {
    if s.prefix == x.prefix {
      Overlap(s, x, kind, a);
    }
  }

  /** The rule: the preferred usable match; without one, the match that comes last; and
      nothing only if nothing matches. */
  ghost predicate Rule(t: seq<Subnet>, up: set<Name>, kind: Kind, a: Bytes, r: Option<Subnet>) {
    && (r == None <==> forall x :: x in t ==> !Contains(x, kind, a))
    && (r.Some? ==>
          && r.value in t && Contains(r.value, kind, a)
          && if r.value.owner == None || r.value.owner.value in up then
               forall x :: x in t && x != r.value && Contains(x, kind, a) && (x.owner == None || x.owner.value in up) ==> Preferred(r.value, x)
             else forall x :: x in t && Contains(x, kind, a) ==>
                    x.owner.Some? && x.owner.value !in up && (x == r.value || Compare(x, r.value) < 0))
  }

  /** The rule in the terms of the loop. */
  ghost predicate Chosen(t: seq<Subnet>, up: set<Name>, kind: Kind, a: Bytes, r: Option<Subnet>) {
    && (r == None <==> forall x :: x in t ==> !Matches(x, kind, a))
    && (r.Some? ==>
          && r.value in t && Matches(r.value, kind, a)
          && (Usable(r.value, up) ==> forall x :: x in t && x != r.value && Matches(x, kind, a) && Usable(x, up) ==> Preferred(r.value, x))
          && (!Usable(r.value, up) ==> forall x :: x in t && Matches(x, kind, a) ==> !Usable(x, up) && (x == r.value || Compare(x, r.value) < 0)))
  }

  lemma RuleIff(t: seq<Subnet>, up: set<Name>, kind: Kind, a: Bytes, r: Option<Subnet>)
    ensures Rule(t, up, kind, a, r) <==> Chosen(t, up, kind, a, r)
  {
    forall x
      ensures Matches(x, kind, a) <==> Contains(x, kind, a)
    {
      MatchesIff(x, kind, a);
    }
    hide Matches;
    hide Contains;
    hide Preferred;
    hide Compare;
  }

  lemma ScanFollowsRule(t: seq<Subnet>, up: set<Name>, kind: Kind, a: Bytes)
    requires kind != Mac && Sorted(t) && Aligned(t)
    ensures Rule(t, up, kind, a, Scan(t, up, kind, a))
  {
    hide *;
    AlignedKind(t, kind);
    KindFollowsRule(t, up, kind, a);
  }

  lemma AlignedKind(t: seq<Subnet>, kind: Kind)
    requires Aligned(t)
    ensures KindAligned(t, kind)
  {
  }

  lemma KindFollowsRule(t: seq<Subnet>, up: set<Name>, kind: Kind, a: Bytes)
    requires kind != Mac && Sorted(t) && KindAligned(t, kind)
    ensures Rule(t, up, kind, a, Scan(t, up, kind, a))
  {
    ScanFinds(t, up, kind, a);
    hide Matches;
    hide Compare;
    hide Preferred;
    hide Usable;
    hide Scan;
    var r := Scan(t, up, kind, a);
    if r.Some? {
      var k :| FoundAt(t, up, kind, a, r.value, k);
      forall x | x in t && x != r.value && Matches(x, kind, a)
        ensures Usable(r.value, up) && Usable(x, up) ==> Preferred(r.value, x)
        ensures !Usable(r.value, up) ==> !Usable(x, up) && Compare(x, r.value) < 0
      {
        var i :| 0 <= i < |t| && t[i] == x;
        FoundFirst(t, up, kind, a, k, i);
      }
    }
    hide FoundAt;
    hide Sorted;
    hide KindAligned;
    assert Chosen(t, up, kind, a, r);
    RuleIff(t, up, kind, a, r);
  }

  /** What is found is preferred to any other match. */
  lemma FoundFirst(t: seq<Subnet>, up: set<Name>, kind: Kind, a: Bytes, k: int, i: int)
    requires kind != Mac && Sorted(t) && KindAligned(t, kind) && 0 <= k < |t| && FoundAt(t, up, kind, a, t[k], k)
    requires 0 <= i < |t| && i != k && Matches(t[i], kind, a)
    ensures Usable(t[k], up) && Usable(t[i], up) ==> Preferred(t[k], t[i])
    ensures !Usable(t[k], up) ==> !Usable(t[i], up) && Compare(t[i], t[k]) < 0
  {
    assert t[k].kind == kind;
    hide Matches;
    hide Compare;
    hide Preferred;
    hide Usable;
    if i > k {
      assert SameNet(t[k], t[i]);
      OrderPrefers(t[k], t[i], kind, a);
    }
  }

  /** The net of a subnet, whoever owns it and whatever it weighs. */
  function NetOf(s: Subnet): (n: Subnet) { s.(owner := None, weight := 0) }

  /** Nets that never overlap at equal prefix length, unless they have the same address. */
  ghost predicate AllAligned(nets: set<Subnet>) {
    forall x, y :: x in nets && y in nets && x.kind != Mac ==> SameNet(NetOf(x), NetOf(y))
  }

  ghost predicate DrawnFrom(t: seq<Subnet>, nets: set<Subnet>) {
    forall i :: 0 <= i < |t| ==> exists n :: n in nets && NetOf(t[i]) == NetOf(n)
  }

  /** Every subnet tree over these nets, with any owners and weights, follows the rule for
      every address and every set of reachable owners. */
  ghost predicate AlwaysFollowsRule(nets: set<Subnet>) {
    forall t, up, kind, a | kind != Mac && Sorted(t) && DrawnFrom(t, nets) :: Rule(t, up, kind, a, Scan(t, up, kind, a))
  }

  /** ... exactly if overlapping nets of equal prefix length share their address. */
  lemma RuleIffAligned(nets: set<Subnet>)
    ensures AlwaysFollowsRule(nets) <==> AllAligned(nets)
  {
    hide Rule;
    hide Sorted;
    if AllAligned(nets) {
      forall t, up, kind, a | kind != Mac && Sorted(t) && DrawnFrom(t, nets)
        ensures Rule(t, up, kind, a, Scan(t, up, kind, a))
      {
        DrawnAligned(t, nets, kind);
        KindFollowsRule(t, up, kind, a);
      }
    } else {
      var x, y :| x in nets && y in nets && x.kind != Mac && !SameNet(NetOf(x), NetOf(y));
      var t := Misleads(NetOf(x), NetOf(y));
      DrawnPair(t, nets, x, y);
      assert !Rule(t, {}, x.kind, x.address, Scan(t, {}, x.kind, x.address));
    }
  }

  /** Two nets that are not aligned make a tree that breaks the rule. */
  lemma Misleads(x: Subnet, y: Subnet) returns (t: seq<Subnet>)
    requires x.kind != Mac && !SameNet(x, y) && x.owner == y.owner == None
    ensures Sorted(t) && !Rule(t, {}, x.kind, x.address, Scan(t, {}, x.kind, x.address))
    ensures forall i :: 0 <= i < |t| ==> NetOf(t[i]) == NetOf(x) || NetOf(t[i]) == NetOf(y)
  {
    LexFlip(x.address, y.address);
    var v, w := if Lex(x.address, y.address) < 0 then 1 else 0, if Lex(x.address, y.address) < 0 then 0 else 1;
    var s, z := x.(weight := v), y.(weight := w);
    t := Insert(Before(), [s], z);
    PairTree(s, z);
    PairBreaksRule(s, z, {}, x.kind, x.address);
    hide Rule;
    hide Scan;
    hide Insert;
  }

  lemma DrawnPair(t: seq<Subnet>, nets: set<Subnet>, x: Subnet, y: Subnet)
    requires x in nets && y in nets
    requires forall i :: 0 <= i < |t| ==> NetOf(t[i]) == NetOf(NetOf(x)) || NetOf(t[i]) == NetOf(NetOf(y))
    ensures DrawnFrom(t, nets)
  {
  }

  /** The subnets of one kind are aligned. */
  ghost predicate KindAligned(t: seq<Subnet>, kind: Kind) {
    forall i, j :: 0 <= i < |t| && 0 <= j < |t| && t[i].kind == kind ==> SameNet(t[i], t[j])
  }

  lemma DrawnAligned(t: seq<Subnet>, nets: set<Subnet>, kind: Kind)
    requires DrawnFrom(t, nets) && AllAligned(nets) && kind != Mac
    ensures KindAligned(t, kind)
  {
    forall i, j | 0 <= i < |t| && 0 <= j < |t| && t[i].kind == kind
      ensures SameNet(t[i], t[j])
    {
      var x :| x in nets && NetOf(t[i]) == NetOf(x);
      var y :| y in nets && NetOf(t[j]) == NetOf(y);
      assert SameNet(NetOf(x), NetOf(y));
    }
  }

  /** Both addresses stray from 10.0.0.0/24; the heavier subnet comes first. */
  lemma StrayBits()
    ensures var t := [Subnet(None, Ipv4, 24, [10, 0, 0, 1], 1), Subnet(None, Ipv4, 24, [10, 0, 0, 2], 0)];
            Sorted(t) && AllWellFormed(t) && !Rule(t, {}, Ipv4, [10, 0, 0, 7], Scan(t, {}, Ipv4, [10, 0, 0, 7]))
  {
    hide *;
    var s, x, a: Bytes := Stray(1, 1), Stray(2, 0), [10, 0, 0, 7];
    StrayIs(1, 1);
    StrayIs(2, 0);
    StrayOrder();
    PairBreaksRule(s, x, {}, Ipv4, a);
    PairTree(s, x);
    BothWellFormed(s, x);
  }

  function Stray(last: bv8, weight: int): (s: Subnet) { Subnet(None, Ipv4, 24, [10, 0, 0, last], weight) }

  lemma StrayIs(last: bv8, weight: int)
    ensures Matches(Stray(last, weight), Ipv4, [10, 0, 0, 7]) && Usable(Stray(last, weight), {}) && WellFormed(Stray(last, weight))
    ensures Stray(last, weight) == Subnet(None, Ipv4, 24, [10, 0, 0, last], weight)
  {
    BytesOnly([10, 0, 0, 7], [10, 0, 0, last], 3);
    hide SamePrefix;
  }

  lemma StrayOrder()
    ensures Lex([10, 0, 0, 1], [10, 0, 0, 2]) < 0
    ensures Compare(Stray(2, 0), Stray(1, 1)) > 0
  {
    var a: Bytes, b: Bytes := [10, 0, 0, 1], [10, 0, 0, 2];
    assert a[1..] == [0, 0, 1] && b[1..] == [0, 0, 2];
    assert a[1..][1..] == [0, 1] && b[1..][1..] == [0, 2];
    assert a[1..][1..][1..] == [1] && b[1..][1..][1..] == [2];
    LexFlip(a, b);
    LexFlip(b, a);
  }

  lemma BothWellFormed(s: Subnet, x: Subnet)
    requires WellFormed(s) && WellFormed(x)
    ensures AllWellFormed([s, x])
  {
  }

  lemma PairTree(s: Subnet, x: Subnet)
    ensures Insert(Before(), [s], x) == if Compare(x, s) < 0 then [x, s] else if Compare(x, s) == 0 then [s] else [s, x]
    ensures Sorted(Insert(Before(), [s], x))
  {
    CompareFlip(s, x);
    CompareFlip(x, s);
    hide Compare;
    assert Place(Before(), [s], x, 0) == if Compare(x, s) <= 0 then 0 else 1;
    assert Insert(Before(), [s], x) == if Compare(x, s) < 0 then [x, s] else if Compare(x, s) == 0 then [s] else [s, x];
  }

  /** The lower address comes first, even with the higher weight. */
  lemma PairBreaksRule(s: Subnet, x: Subnet, up: set<Name>, kind: Kind, a: Bytes)
    requires kind != Mac && Matches(s, kind, a) && Matches(x, kind, a) && s.prefix == x.prefix && s.address != x.address
    requires Usable(s, up) && Usable(x, up)
    requires if Lex(s.address, x.address) < 0 then s.weight > x.weight else s.weight < x.weight
    ensures var t := Insert(Before(), [s], x); !Rule(t, up, kind, a, Scan(t, up, kind, a))
  {
    PairTree(s, x);
    LexFlip(s.address, x.address);
    LexFlip(x.address, s.address);
    hide Lex;
    var t := Insert(Before(), [s], x);
    var first, other := if Lex(s.address, x.address) < 0 then s else x, if Lex(s.address, x.address) < 0 then x else s;
    assert t == [first, other];
    hide Insert;
    hide Matches;
    assert Scan(t, up, kind, a) == Some(first);
    assert other in t && !Preferred(first, other);
    assert !Chosen(t, up, kind, a, Some(first));
    RuleIff(t, up, kind, a, Some(first));
  }

  // The cache.

  /** The uncached lookup. */
  ghost function Uncached(t: seq<Subnet>, up: set<Name>, kind: Kind): (f: Bytes -> Option<Subnet>) {
    a => Scan(t, up, kind, a)
  }

  /** A subnet that does not match does not matter, wherever it stands. */
  lemma {:induction false} ScanSkips(t: seq<Subnet>, s: Subnet, k: nat, up: set<Name>, kind: Kind, a: Bytes)
    requires k <= |t| && !Matches(s, kind, a)
    ensures Scan(t[..k] + [s] + t[k..], up, kind, a) == Scan(t, up, kind, a)
  {
    hide Matches;
    var r := t[..k] + [s] + t[k..];
    if k == 0 {
      assert r[0] == s && r[1..] == t;
    } else {
      ScanSkips(t[1..], s, k - 1, up, kind, a);
      assert r[0] == t[0] && r[1..] == t[1..][..k - 1] + [s] + t[1..][k - 1..];
    }
  }

  /** The lookups of addresses outside s are the same in both trees. */
  ghost predicate OnlyConcerns(t: seq<Subnet>, t': seq<Subnet>, s: Subnet, up: set<Name>) {
    forall kind, a :: !Matches(s, kind, a) ==> Scan(t', up, kind, a) == Scan(t, up, kind, a)
  }

  lemma InsertConcerns(t: seq<Subnet>, s: Subnet, up: set<Name>)
    ensures OnlyConcerns(t, Insert(Before(), t, s), s, up)
  {
    var k := Place(Before(), t, s, 0);
    forall kind, a | !Matches(s, kind, a)
      ensures Scan(Insert(Before(), t, s), up, kind, a) == Scan(t, up, kind, a)
    {
      ScanSkips(t, s, k, up, kind, a);
    }
  }

  /** What compares equal to s matches the same addresses. */
  lemma EqualMatches(s: Subnet, x: Subnet, kind: Kind, a: Bytes)
    requires WellFormed(s) && WellFormed(x) && Compare(s, x) == 0
    ensures Matches(s, kind, a) <==> Matches(x, kind, a)
  {
    EqualIff(s, x);
    hide Compare;
    hide SamePrefix;
  }

  lemma RemovedConcerns(t: seq<Subnet>, s: Subnet, r: seq<Subnet>, up: set<Name>)
    requires AllWellFormed(t) && WellFormed(s) && Removed(t, s, r)
    ensures OnlyConcerns(t, r, s, up)
  {
    if Occupied(Before(), t, s) {
      var k :| 0 <= k < |t| && Compare(s, t[k]) == 0 && r == t[..k] + t[k + 1..];
      assert WellFormed(t[k]);
      hide *;
      assert r[..k] == t[..k] && r[k..] == t[k + 1..];
      assert t == r[..k] + [t[k]] + r[k..];
      forall kind, a | !Matches(s, kind, a)
        ensures Scan(r, up, kind, a) == Scan(t, up, kind, a)
      {
        EqualMatches(s, t[k], kind, a);
        ScanSkips(r, t[k], k, up, kind, a);
      }
      Concern(t, r, s, up);
    } else {
      hide *;
      Concern(t, t, s, up);
    }
  }

  lemma Concern(t: seq<Subnet>, t': seq<Subnet>, s: Subnet, up: set<Name>)
    requires forall kind, a :: !Matches(s, kind, a) ==> Scan(t', up, kind, a) == Scan(t, up, kind, a)
    ensures OnlyConcerns(t, t', s, up)
  {
  }

  /** A host subnet matches its own address only. */
  lemma HostMatches(s: Subnet, kind: Kind, a: Bytes)
    requires WellFormed(s) && Matches(s, kind, a) && s.prefix == 8 * |s.address|
    ensures a == s.address
  {
    FullPrefix(a, s.address);
  }

  /** The subnet tree, the reachable nodes and the two address caches. */
  class SubnetTable {
    var tree: seq<Subnet>
    var up: set<Name>
    const v4: Table<Bytes, Subnet>
    const v6: Table<Bytes, Subnet>

    ghost predicate Apart()
      reads this
    {
      var a: object, b: object, c: object, d: object := v4.keys, v4.values, v6.keys, v6.values;
      a != c && a != d && b != c && b != d && v4.Separate() && v6.Separate()
    }

    /** Every cached answer is the uncached one. */
    ghost predicate Valid()
      reads this, v4, v6, v4.keys, v4.values, v6.keys, v6.values
    {
      && Apart() && v4.Valid() && v6.Valid()
      && Sorted(tree) && AllWellFormed(tree)
      && Coherent(v4, Ipv4, tree) && Coherent(v6, Ipv6, tree)
    }

    ghost predicate Coherent(cache: Table<Bytes, Subnet>, kind: Kind, t: seq<Subnet>)
      reads this, cache, cache.keys, cache.values
    {
      cache.keys.Length == cache.values.Length && Agrees(cache.keys[..], cache.values[..], Uncached(t, up, kind))
    }

    /** init_subnets; the hash functions are arbitrary. */
    constructor (n: nat, hash4: Bytes -> nat, hash6: Bytes -> nat)
      requires n >= PROBES && InRange(hash4, n) && InRange(hash6, n)
      ensures Valid() && tree == [] && up == {}
    {
      tree, up := [], {};
      v4 := new Table(n, hash4, seq(4, _ => 0));
      v6 := new Table(n, hash6, seq(16, _ => 0));
    }

    /** lookup_subnet_ipv4 and lookup_subnet_ipv6: the cached answer is the uncached one. */
    method Lookup(kind: Kind, a: Bytes) returns (r: Option<Subnet>)
      requires Valid() && kind != Mac && |a| == (if kind == Ipv4 then 4 else 16)
      modifies v4.keys, v4.values, v6.keys, v6.values
      ensures Valid() && r == Scan(tree, up, kind, a)
    {
      var cache := if kind == Ipv4 then v4 else v6;
      r := cache.Search(a);
      if r != None {
        Cached(cache.keys[..], cache.values[..], cache.hash, a, Uncached(tree, up, kind));
        return;
      }
      r := Search(kind, a);
      if r != None {
        ghost var other := if kind == Ipv4 then v6 else v4;
        cache.Insert(a, r.value);
      }
    }

    /** The loop of a lookup. */
    method Search(kind: Kind, a: Bytes) returns (r: Option<Subnet>)
      requires kind != Mac && |a| == (if kind == Ipv4 then 4 else 16)
      requires AllWellFormed(tree)
      ensures r == Scan(tree, up, kind, a)
    {
      r := None;
      for i := 0 to |tree|
        invariant Scan(tree, up, kind, a) == var q := Scan(tree[i..], up, kind, a); if q == None then r else q
      {
        hide SamePrefix;
        assert tree[i..][0] == tree[i] && tree[i..][1..] == tree[i + 1..];
        if tree[i].kind != kind {
          continue;
        }
        var c := MaskCmp(a, tree[i].address, tree[i].prefix);
        if c == 0 {
          r := Some(tree[i]);
          if Usable(tree[i], up) {
            return;
          }
        }
      }
    }

    /** subnet_cache_flush_table. */
    method FlushTable(kind: Kind)
      requires Apart()
      modifies v4.keys, v4.values, v6.keys, v6.values
      ensures kind != Ipv6 ==> v4.Valid() && (forall i :: 0 <= i < v4.values.Length ==> v4.values[i] == None)
      ensures kind != Ipv4 ==> v6.Valid() && (forall i :: 0 <= i < v6.values.Length ==> v6.values[i] == None)
      ensures kind == Ipv4 ==> unchanged(v6.keys) && unchanged(v6.values)
      ensures kind == Ipv6 ==> unchanged(v4.keys) && unchanged(v4.values)
    {
      if kind != Ipv6 {
        v4.Clear();
      }
      if kind != Ipv4 {
        v6.Clear();
      }
    }

    /** subnet_cache_flush: after the tree changed by s, forget what that may concern. */
    method CacheFlush(s: Subnet, ghost t: seq<Subnet>)
      requires Apart() && v4.Valid() && v6.Valid() && WellFormed(s)
      requires Coherent(v4, Ipv4, t) && Coherent(v6, Ipv6, t) && OnlyConcerns(t, tree, s, up)
      modifies v4.keys, v4.values, v6.keys, v6.values
      ensures v4.Valid() && v6.Valid() && Coherent(v4, Ipv4, tree) && Coherent(v6, Ipv6, tree)
    {
      match s.kind {
        case Ipv4 =>
          StillAgrees(v6.keys[..], v6.values[..], v6.values[..], t, tree, s, up, Ipv6);
          if s.prefix == 32 {
            v4.Delete(s.address);
            StillAgrees(v4.keys[..], old(v4.values[..]), v4.values[..], t, tree, s, up, Ipv4);
            return;
          }
        case Ipv6 =>
          StillAgrees(v4.keys[..], v4.values[..], v4.values[..], t, tree, s, up, Ipv4);
          if s.prefix == 128 {
            v6.Delete(s.address);
            StillAgrees(v6.keys[..], old(v6.values[..]), v6.values[..], t, tree, s, up, Ipv6);
            return;
          }
        case Mac =>
          StillAgrees(v4.keys[..], v4.values[..], v4.values[..], t, tree, s, up, Ipv4);
          StillAgrees(v6.keys[..], v6.values[..], v6.values[..], t, tree, s, up, Ipv6);
          return;
      }
      FlushTable(s.kind);
      assert s.kind == Ipv4 ==> v6.keys[..] == old(v6.keys[..]) && v6.values[..] == old(v6.values[..]);
      assert s.kind == Ipv6 ==> v4.keys[..] == old(v4.keys[..]) && v4.values[..] == old(v4.values[..]);
    }

    /** subnet_add. */
    method Add(owner: Option<Name>, subnet: Subnet)
      requires Valid() && WellFormed(subnet)
      modifies this`tree, v4.keys, v4.values, v6.keys, v6.values
      ensures Valid() && tree == Insert(Before(), old(tree), subnet.(owner := owner))
    {
      var s := subnet.(owner := owner);
      ghost var t := tree;
      InsertSorted(t, s);
      InsertConcerns(t, s, up);
      tree := Insert(Before(), tree, s);
      CacheFlush(s, t);
    }

    /** subnet_del. */
    method Del(subnet: Subnet)
      requires Valid() && WellFormed(subnet)
      modifies this`tree, v4.keys, v4.values, v6.keys, v6.values
      ensures Valid() && Removed(old(tree), subnet, tree)
    {
      ghost var t := tree;
      if Occupied(Before(), tree, subnet) {
        TakenPlace(tree, subnet);
        var k :| 0 <= k < |tree| && Compare(subnet, tree[k]) == 0;
        tree := tree[..k] + tree[k + 1..];
      }
      RemovedSorted(t, subnet, tree);
      RemovedConcerns(t, subnet, tree, up);
      CacheFlush(subnet, t);
    }

    /** graph(): the caches are flushed before reachability changes. */
    method Graph(reachable: set<Name>)
      requires Valid()
      modifies this`up, v4.keys, v4.values, v6.keys, v6.values
      ensures Valid() && up == reachable
    {
      v4.Clear();
      v6.Clear();
      up := reachable;
    }
  }

  lemma TakenPlace(t: seq<Subnet>, s: Subnet)
    requires Occupied(Before(), t, s)
    ensures exists k :: 0 <= k < |t| && Compare(s, t[k]) == 0
  {
    var k := Place(Before(), t, s, 0);
    CompareFlip(t[k], s);
    CompareFlip(s, t[k]);
  }

  /** What stays live and lies outside s is still right. */
  lemma StillAgrees(keys: seq<Bytes>, values: seq<Option<Subnet>>, values': seq<Option<Subnet>>,
                    t: seq<Subnet>, t': seq<Subnet>, s: Subnet, up: set<Name>, kind: Kind)
    requires |keys| == |values| == |values'| && Agrees(keys, values, Uncached(t, up, kind)) && OnlyConcerns(t, t', s, up) && WellFormed(s)
    requires forall i :: 0 <= i < |keys| && values'[i].Some? ==> values'[i] == values[i]
    requires s.kind == kind ==> s.prefix == 8 * |s.address| && forall i :: 0 <= i < |keys| && values'[i].Some? ==> keys[i] != s.address
    ensures Agrees(keys, values', Uncached(t', up, kind))
  {
    forall i | 0 <= i < |keys| && values'[i].Some?
      ensures values'[i] == Scan(t', up, kind, keys[i])
    {
      if Matches(s, kind, keys[i]) {
        HostMatches(s, kind, keys[i]);
      }
      assert values[i] == Uncached(t, up, kind)(keys[i]);
    }
  }

  /** A live search result is what the reference says. */
  lemma Cached<K(!new), V(!new)>(keys: seq<K>, values: seq<Option<V>>, hash: K -> nat, key: K, reference: K -> Option<V>)
    requires Wellkept(keys, values, hash) && Agrees(keys, values, reference) && Lookup(keys, values, hash(key), key).Some?
    ensures Lookup(keys, values, hash(key), key) == reference(key)
  {
  }
}
