/** subnet_parse.c: address masks and the order of subnets. */
module SubnetOrder {
  import opened Basics
  import opened OrderedIndex

  type Bytes = seq<bv8>
  type Name = Bytes

  datatype Kind = Mac | Ipv4 | Ipv6

  datatype Subnet = Subnet(owner: Option<Name>, kind: Kind, prefix: nat, address: Bytes, weight: int)

  /** Bit j of a byte, from the most significant one. */
  predicate Bit(b: bv8, j: int) {
    if j == 0 then b & 0x80 != 0 else if j == 1 then b & 0x40 != 0 else if j == 2 then b & 0x20 != 0
    else if j == 3 then b & 0x10 != 0 else if j == 4 then b & 0x08 != 0 else if j == 5 then b & 0x04 != 0
    else if j == 6 then b & 0x02 != 0 else b & 0x01 != 0
  }

  /** Bit i of an address, in network order. */
  predicate BitAt(a: Bytes, i: int)
    requires 0 <= i < 8 * |a|
  {
    Bit(a[i / 8], i % 8)
  }

  /** The first n bits are the same. */
  ghost predicate SamePrefix(a: Bytes, b: Bytes, n: nat)
    requires |a| == |b| && n <= 8 * |a|
  {
    forall i :: 0 <= i < n ==> BitAt(a, i) == BitAt(b, i)
  }

  /** Nothing is set after the first n bits. */
  ghost predicate Canonical(a: Bytes, n: nat)
    requires n <= 8 * |a|
  {
    forall i :: n <= i < 8 * |a| ==> !BitAt(a, i)
  }

  /** 0x100 - (1 << (8 - m)). */
  function TopMask(m: nat): (r: bv8) {
    if m == 0 then 0x00 else if m == 1 then 0x80 else if m == 2 then 0xC0 else if m == 3 then 0xE0
    else if m == 4 then 0xF0 else if m == 5 then 0xF8 else if m == 6 then 0xFC else if m == 7 then 0xFE else 0xFF
  }

  /** 0xff >> m. */
  function LowMask(m: nat): (r: bv8) {
    if m == 0 then 0xFF else if m == 1 then 0x7F else if m == 2 then 0x3F else if m == 3 then 0x1F
    else if m == 4 then 0x0F else if m == 5 then 0x07 else if m == 6 then 0x03 else if m == 7 then 0x01 else 0x00
  }

  /** The first m bits of two bytes are the same, one by one. */
  ghost predicate SameTop(x: bv8, y: bv8, m: nat) {
    && (m > 0 ==> Bit(x, 0) == Bit(y, 0)) && (m > 1 ==> Bit(x, 1) == Bit(y, 1))
    && (m > 2 ==> Bit(x, 2) == Bit(y, 2)) && (m > 3 ==> Bit(x, 3) == Bit(y, 3))
    && (m > 4 ==> Bit(x, 4) == Bit(y, 4)) && (m > 5 ==> Bit(x, 5) == Bit(y, 5))
    && (m > 6 ==> Bit(x, 6) == Bit(y, 6)) && (m > 7 ==> Bit(x, 7) == Bit(y, 7))
  }

  ghost predicate NoLow(x: bv8, m: nat) {
    && (m <= 0 ==> !Bit(x, 0)) && (m <= 1 ==> !Bit(x, 1)) && (m <= 2 ==> !Bit(x, 2)) && (m <= 3 ==> !Bit(x, 3))
    && (m <= 4 ==> !Bit(x, 4)) && (m <= 5 ==> !Bit(x, 5)) && (m <= 6 ==> !Bit(x, 6)) && (m <= 7 ==> !Bit(x, 7))
  }

  lemma TopMasked(x: bv8, y: bv8, m: nat)
    requires m <= 8
    ensures x & TopMask(m) == y & TopMask(m) <==> SameTop(x, y, m)
  {
  }

  lemma LowMasked(x: bv8, m: nat)
    requires m <= 8
    ensures x & LowMask(m) == 0 <==> NoLow(x, m)
  {
  }

  lemma TopBits(x: bv8, y: bv8, m: nat)
    requires m <= 8
    ensures x & TopMask(m) == y & TopMask(m) <==> (forall j :: 0 <= j < m ==> Bit(x, j) == Bit(y, j))
  {
    TopMasked(x, y, m);
    hide TopMask;
    hide Bit;
    assert SameTop(x, y, m) <==> (forall j :: 0 <= j < m ==> Bit(x, j) == Bit(y, j));
  }

  lemma LowBits(x: bv8, m: nat)
    requires m <= 8
    ensures x & LowMask(m) == 0 <==> (forall j :: m <= j < 8 ==> !Bit(x, j))
  {
    LowMasked(x, m);
    hide LowMask;
    hide Bit;
    assert NoLow(x, m) <==> (forall j :: m <= j < 8 ==> !Bit(x, j));
  }

  /** The difference of two bytes. */
  function Diff(x: bv8, y: bv8): (d: int)
    ensures d == 0 <==> x == y
  {
    x as int - y as int
  }

  /** maskcmp. */
  method MaskCmp(a: Bytes, b: Bytes, masklen: nat) returns (r: int)
    requires |a| == |b| && masklen <= 8 * |a|
    ensures r == 0 <==> SamePrefix(a, b, masklen)
  {
    hide Bit;
    hide Diff;
    hide TopMask;
    hide SamePrefix;
    var m, i := masklen, 0;
    while m >= 8
      invariant masklen == 8 * i + m && (forall k :: 0 <= k < i ==> a[k] == b[k])
    {
      r := Diff(a[i], b[i]);
      if r != 0 {
        ByteDiffers(a, b, masklen, i);
        return;
      }
      m, i := m - 8, i + 1;
    }
    if m != 0 {
      r := Diff(a[i] & TopMask(m), b[i] & TopMask(m));
      TopBits(a[i], b[i], m);
      BytesAndBits(a, b, i, m);
      return;
    }
    BytesOnly(a, b, i);
    return 0;
  }

  lemma ByteDiffers(a: Bytes, b: Bytes, n: nat, i: nat)
    requires |a| == |b| && n <= 8 * |a| && 8 * i + 8 <= n && a[i] != b[i]
    ensures !SamePrefix(a, b, n)
  {
    TopBits(a[i], b[i], 8);
    assert a[i] & 0xFF == a[i] && b[i] & 0xFF == b[i];
    hide Bit;
    var j :| 0 <= j < 8 && Bit(a[i], j) != Bit(b[i], j);
    assert BitAt(a, 8 * i + j) != BitAt(b, 8 * i + j);
  }

  lemma BytesAndBits(a: Bytes, b: Bytes, i: nat, m: nat)
    requires |a| == |b| && i < |a| && m < 8 && (forall k :: 0 <= k < i ==> a[k] == b[k])
    ensures SamePrefix(a, b, 8 * i + m) <==> (forall j :: 0 <= j < m ==> Bit(a[i], j) == Bit(b[i], j))
  {
    hide Bit;
    if forall j :: 0 <= j < m ==> Bit(a[i], j) == Bit(b[i], j) {
      forall t | 0 <= t < 8 * i + m
        ensures BitAt(a, t) == BitAt(b, t)
      {
        assert t / 8 < i || (t / 8 == i && t % 8 < m);
      }
    }
    if SamePrefix(a, b, 8 * i + m) {
      forall j | 0 <= j < m
        ensures Bit(a[i], j) == Bit(b[i], j)
      {
        assert BitAt(a, 8 * i + j) == BitAt(b, 8 * i + j);
      }
    }
  }

  lemma BytesOnly(a: Bytes, b: Bytes, i: nat)
    requires |a| == |b| && i <= |a| && (forall k :: 0 <= k < i ==> a[k] == b[k])
    ensures SamePrefix(a, b, 8 * i)
  {
  }

  /** maskcheck. */
  method MaskCheck(a: Bytes, masklen: nat) returns (r: bool)
    requires masklen <= 8 * |a|
    ensures r <==> Canonical(a, masklen)
  {
    hide Bit;
    var i, m := masklen / 8, masklen % 8;
    if m != 0 {
      LowBits(a[i], m);
      if a[i] & LowMask(m) != 0 {
        BitSet(a, masklen, i, m);
        return false;
      }
      i := i + 1;
    }
    while i < |a|
      invariant masklen / 8 <= i <= |a| && (m != 0 ==> masklen / 8 < i)
      invariant forall t :: masklen <= t < 8 * i ==> !BitAt(a, t)
    {
      LowBits(a[i], 0);
      if a[i] != 0 {
        assert a[i] & 0xFF == a[i];
        BitSet(a, masklen, i, 0);
        return false;
      }
      i := i + 1;
    }
    return true;
  }

  lemma BitSet(a: Bytes, n: nat, i: nat, m: nat)
    requires i < |a| && m < 8 && n <= 8 * i + m && a[i] & LowMask(m) != 0
    ensures !Canonical(a, n)
  {
    LowBits(a[i], m);
    hide Bit;
    var j :| m <= j < 8 && Bit(a[i], j);
    assert BitAt(a, 8 * i + j);
  }

  /** Two canonical addresses with the same prefix are the same address. */
  lemma CanonicalUnique(a: Bytes, b: Bytes, n: nat)
    requires |a| == |b| && n <= 8 * |a| && SamePrefix(a, b, n) && Canonical(a, n) && Canonical(b, n)
    ensures a == b
  {
    hide Bit;
    forall t | 0 <= t < 8 * |a|
      ensures BitAt(a, t) == BitAt(b, t)
    {
    }
    FullPrefix(a, b);
  }

  lemma FullPrefix(a: Bytes, b: Bytes)
    requires |a| == |b| && SamePrefix(a, b, 8 * |a|)
    ensures a == b
  {
    hide Bit;
    forall i | 0 <= i < |a|
      ensures a[i] == b[i]
    {
      forall j | 0 <= j < 8
        ensures Bit(a[i], j) == Bit(b[i], j)
      {
        assert BitAt(a, 8 * i + j) == BitAt(b, 8 * i + j);
      }
      TopBits(a[i], b[i], 8);
      assert a[i] & 0xFF == a[i] && b[i] & 0xFF == b[i];
    }
  }

  // The order.

  /** memcmp of equally long addresses, strcmp of names; only the sign matters. */
  function Lex(a: Bytes, b: Bytes): (c: int) {
    if a == [] || b == [] then |a| - |b|
    else if a[0] < b[0] then -1
    else if a[0] > b[0] then 1
    else Lex(a[1..], b[1..])
  }

  lemma {:induction false} LexFlip(a: Bytes, b: Bytes)
    ensures Lex(a, b) < 0 <==> Lex(b, a) > 0
    ensures Lex(a, b) == 0 <==> a == b
  {
    if a != [] && b != [] && a[0] == b[0] {
      LexFlip(a[1..], b[1..]);
      assert a == [a[0]] + a[1..] && b == [b[0]] + b[1..];
    }
  }

  lemma {:induction false} LexChain(a: Bytes, b: Bytes, c: Bytes)
    requires Lex(a, b) < 0 && Lex(b, c) < 0
    ensures Lex(a, c) < 0
  {
    if a != [] && a[0] == b[0] == c[0] {
      LexChain(a[1..], b[1..], c[1..]);
    }
  }

  function Rank(k: Kind): (r: int) {
    match k
    case Mac => 0
    case Ipv4 => 1
    case Ipv6 => 2
  }

  /** subnet_compare. */
  function Compare(a: Subnet, b: Subnet): (c: int) {
    if a.kind != b.kind then Rank(a.kind) - Rank(b.kind)
    else if a.kind != Mac && a.prefix != b.prefix then b.prefix - a.prefix
    else if a.address != b.address then Lex(a.address, b.address)
    else if a.weight != b.weight then a.weight - b.weight
    else if a.owner.None? || b.owner.None? then 0
    else Lex(a.owner.value, b.owner.value)
  }

  /** A subnet as str2net makes it. */
  ghost predicate WellFormed(s: Subnet) {
    match s.kind
    case Mac => s.prefix == 0 && |s.address| == 6
    case Ipv4 => s.prefix <= 32 && |s.address| == 4
    case Ipv6 => s.prefix <= 128 && |s.address| == 16
  }

  /** One with an owner and one without, otherwise the same. */
  predicate Clash(a: Subnet, b: Subnet) {
    a.(owner := None) == b.(owner := None) && a.owner.None? != b.owner.None?
  }

  lemma CompareFlip(a: Subnet, b: Subnet)
    ensures Compare(a, b) < 0 <==> Compare(b, a) > 0
    ensures WellFormed(a) && WellFormed(b) ==> (Compare(a, b) == 0 <==> a == b || Clash(a, b))
  {
    LexFlip(a.address, b.address);
    if a.owner.Some? && b.owner.Some? {
      LexFlip(a.owner.value, b.owner.value);
    }
  }

  lemma CompareChain(a: Subnet, b: Subnet, c: Subnet)
    requires Compare(a, b) < 0 && Compare(b, c) < 0
    ensures Compare(a, c) < 0
  {
    LexFlip(a.address, b.address);
    LexFlip(b.address, c.address);
    LexFlip(a.address, c.address);
    if Lex(a.address, b.address) < 0 && Lex(b.address, c.address) < 0 {
      LexChain(a.address, b.address, c.address);
    }
    if a.owner.Some? && b.owner.Some? && c.owner.Some? {
      if Lex(a.owner.value, b.owner.value) < 0 && Lex(b.owner.value, c.owner.value) < 0 {
        LexChain(a.owner.value, b.owner.value, c.owner.value);
      }
    }
    hide Lex;
  }

  /** The order as the subnet tree uses it. */
  function Before(): (f: (Subnet, Subnet) -> bool) { (a, b) => Compare(a, b) < 0 }

  /** Strictly increasing: what the subnet tree holds. */
  ghost predicate Sorted(t: seq<Subnet>) { Increasing(Before(), t) }

  lemma SubnetSits(t: seq<Subnet>, s: Subnet)
    ensures Sits(Before(), t, s)
  {
    hide Compare;
    CompareFlip(s, s);
    forall x | Compare(x, s) < 0
      ensures !(Compare(s, x) < 0)
    {
      CompareFlip(x, s);
    }
    forall x, y | Compare(s, x) < 0 && Compare(x, y) < 0
      ensures Compare(s, y) < 0
    {
      CompareChain(s, x, y);
    }
  }

  ghost predicate AllWellFormed(t: seq<Subnet>) { forall i :: 0 <= i < |t| ==> WellFormed(t[i]) }

  lemma EqualIff(a: Subnet, b: Subnet)
    requires WellFormed(a) && WellFormed(b)
    ensures !Before()(a, b) && !Before()(b, a) <==> a == b || Clash(a, b)
    ensures Compare(a, b) == 0 <==> a == b || Clash(a, b)
  {
    CompareFlip(a, b);
    CompareFlip(b, a);
  }

  /** An insertion keeps the order, and adds exactly the subnet unless it clashes. */
  lemma InsertSorted(t: seq<Subnet>, s: Subnet)
    requires Sorted(t) && AllWellFormed(t) && WellFormed(s)
    ensures Sorted(Insert(Before(), t, s)) && AllWellFormed(Insert(Before(), t, s))
    ensures (forall x :: x in Insert(Before(), t, s) <==> x in t || x == s) <==> forall x :: x in t ==> !Clash(x, s)
  {
    SubnetSits(t, s);
    InsertSits(Before(), t, s);
    OccupiedIff(Before(), t, s);
    hide *;
    var r := Insert(Before(), t, s);
    forall x | x in t
      ensures !Before()(x, s) && !Before()(s, x) <==> x == s || Clash(x, s)
    {
      Member(t, x);
      EqualIff(x, s);
    }
    assert Occupied(Before(), t, s) <==> s in t || exists x :: x in t && Clash(x, s);
    if x :| x in t && Clash(x, s) {
      NoTwins(t, x, s);
    }
    SortedIs(r);
    forall i | 0 <= i < |r|
      ensures WellFormed(r[i])
    {
      assert r[i] in r;
      if r[i] in t {
        Member(t, r[i]);
      }
    }
    WellFormedBy(r);
  }

  lemma SortedIs(t: seq<Subnet>)
    ensures Sorted(t) <==> Increasing(Before(), t)
  {
  }

  lemma WellFormedBy(t: seq<Subnet>)
    requires forall i :: 0 <= i < |t| ==> WellFormed(t[i])
    ensures AllWellFormed(t)
  {
  }

  lemma Member(t: seq<Subnet>, x: Subnet)
    requires AllWellFormed(t) && x in t
    ensures WellFormed(x)
  {
  }

  /** Subnets that clash are not both in the tree. */
  lemma NoTwins(t: seq<Subnet>, x: Subnet, s: Subnet)
    requires Sorted(t) && AllWellFormed(t) && WellFormed(s) && x in t && Clash(x, s)
    ensures s !in t && x != s
  {
    Member(t, x);
    EqualIff(x, s);
    EqualIff(s, x);
    hide Compare;
  }

  /** t without something that compares equal to s, if there is any. When several do, the
      shape of the tree decides which. */
  ghost predicate Removed(t: seq<Subnet>, s: Subnet, r: seq<Subnet>) {
    if Occupied(Before(), t, s) then exists k :: 0 <= k < |t| && Compare(s, t[k]) == 0 && r == t[..k] + t[k + 1..]
    else r == t
  }

  /** A deletion keeps the order, and removes exactly the subnet unless another one of the
      tree clashes with it. */
  lemma RemovedSorted(t: seq<Subnet>, s: Subnet, r: seq<Subnet>)
    requires Sorted(t) && AllWellFormed(t) && WellFormed(s) && Removed(t, s, r)
    ensures Sorted(r) && AllWellFormed(r)
    ensures (forall x :: x in r <==> x in t && x != s) <==> forall x :: x in t ==> !Clash(x, s)
  {
    SubnetSits(t, s);
    OccupiedIff(Before(), t, s);
    hide Compare;
    hide WellFormed;
    hide Sits;
    forall x | x in t
      ensures !Before()(x, s) && !Before()(s, x) <==> x == s || Clash(x, s)
      ensures Clash(x, s) ==> s !in t
    {
      EqualIff(x, s);
      if Clash(x, s) {
        NoTwins(t, x, s);
      }
    }
    if Occupied(Before(), t, s) {
      var k :| 0 <= k < |t| && Compare(s, t[k]) == 0 && r == t[..k] + t[k + 1..];
      CompareFlip(t[k], t[k]);
      Without(Before(), t, k);
      assert t[k] in t;
      EqualIff(s, t[k]);
      RestWellFormed(t, k);
      assert t[k] !in r;
      if t[k] != s {
        assert Clash(t[k], s);
      }
    }
  }

  lemma RestWellFormed(t: seq<Subnet>, k: nat)
    requires AllWellFormed(t) && k < |t|
    ensures AllWellFormed(t[..k] + t[k + 1..])
  {
    hide WellFormed;
    var r := t[..k] + t[k + 1..];
    assert forall i :: 0 <= i < |r| ==> r[i] == t[if i < k then i else i + 1];
  }
}
