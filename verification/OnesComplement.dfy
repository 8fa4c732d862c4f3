/** route.c: the one's-complement checksum of RFC 1071 and its incremental update. */
module OnesComplement {
  import opened Basics

  type Byte = b: int | 0 <= b < 256
  type Word = w: int | 0 <= w < 0x1_0000

  /** The byte order of the machine. */
  datatype Order = Little | Big

  function WordOf(o: Order, x: Byte, y: Byte): (w: Word) { if o == Little then x + 256 * y else 256 * x + y }

  /** The sum of the words of a buffer; an odd last byte is added as it is. */
  function Sum(o: Order, d: seq<Byte>): (s: nat) {
    if d == [] then 0 else if |d| == 1 then d[0] else WordOf(o, d[0], d[1]) + Sum(o, d[2..])
  }

  /** Carries folded back in until 16 bits are left. */
  function Fold(n: nat): (w: Word) {
    if n < 0x1_0000 then n else Fold(n % 0x1_0000 + n / 0x1_0000)
  }

  /** inet_checksum, as long as the 32-bit sum does not overflow. */
  function Checksum(o: Order, d: seq<Byte>, prev: Word): (c: Word) {
    0xFFFF - Fold(0xFFFF - prev + Sum(o, d))
  }

  /** A checksum field that is right makes the checksum come out as zero. */
  predicate Valid(o: Order, d: seq<Byte>) { Checksum(o, d, 0xFFFF) == 0 }

  // Folding is arithmetic modulo 65535 in which only nothing is zero.

  lemma Step(n: nat)
    ensures n == 0xFFFF * (n / 0x1_0000) + (n % 0x1_0000 + n / 0x1_0000)
  {
  }

  lemma {:induction false} FoldIs(n: nat) returns (q: nat)
    ensures n == 0xFFFF * q + Fold(n) && (Fold(n) == 0 <==> n == 0)
  {
    if n < 0x1_0000 {
      q := 0;
    } else {
      Step(n);
      var r := FoldIs(n % 0x1_0000 + n / 0x1_0000);
      q := n / 0x1_0000 + r;
    }
  }

  /** Congruent numbers that are both zero or both not fold to the same word. */
  lemma FoldSame(m: nat, n: nat, q: int)
    requires m == n + 0xFFFF * q && (m == 0 <==> n == 0)
    ensures Fold(m) == Fold(n)
  {
    var a := FoldIs(m);
    var b := FoldIs(n);
    var x, y := Fold(m), Fold(n);
    assert x - y == 0xFFFF * (b + q - a);
    OneMultiple(x, y, b + q - a);
  }

  lemma OneMultiple(x: int, y: int, k: int)
    requires 0 <= x <= 0xFFFF && 0 <= y <= 0xFFFF && x - y == 0xFFFF * k && (x == 0 <==> y == 0)
    ensures x == y
  {
  }

  /** A buffer checks exactly if its sum is a multiple of 65535 other than zero. */
  lemma ValidIff(o: Order, d: seq<Byte>)
    ensures Valid(o, d) <==> Sum(o, d) > 0 && Sum(o, d) % 0xFFFF == 0
  {
    var q := FoldIs(Sum(o, d));
    Remainder(Sum(o, d), q, Fold(Sum(o, d)));
    hide Fold;
    hide Sum;
  }

  lemma Remainder(n: int, q: int, f: int)
    requires n == 0xFFFF * q + f && 0 <= f <= 0xFFFF
    ensures n % 0xFFFF == 0 <==> f == 0 || f == 0xFFFF
  {
  }

  lemma {:induction false} SumSplit(o: Order, a: seq<Byte>, b: seq<Byte>)
    requires |a| % 2 == 0
    ensures Sum(o, a + b) == Sum(o, a) + Sum(o, b)
  {
    if a == [] {
      assert a + b == b;
    } else {
      SumSplit(o, a[2..], b);
      assert (a + b)[2..] == a[2..] + b;
    }
  }

  /** Summing on where an even-length part left off is summing the whole. */
  lemma Chains(o: Order, a: seq<Byte>, b: seq<Byte>, prev: Word)
    requires |a| % 2 == 0
    ensures Checksum(o, a + b, prev) == Checksum(o, b, Checksum(o, a, prev))
  {
    SumSplit(o, a, b);
    var x, y := 0xFFFF - prev + Sum(o, a), Sum(o, b);
    var q := FoldIs(x);
    FoldSame(x + y, Fold(x) + y, q);
  }

  /** The buffer with a word at an even place replaced. */
  function WithWord(o: Order, d: seq<Byte>, i: nat, w: Word): (r: seq<Byte>)
    requires i + 2 <= |d|
  {
    if o == Little then d[i := w % 256][i + 1 := w / 256] else d[i := w / 256][i + 1 := w % 256]
  }

  function WordAt(o: Order, d: seq<Byte>, i: nat): (w: Word)
    requires i + 2 <= |d|
  {
    WordOf(o, d[i], d[i + 1])
  }

  lemma SumAt(o: Order, d: seq<Byte>, i: nat)
    requires i % 2 == 0 && i + 2 <= |d|
    ensures Sum(o, d) == Sum(o, d[..i]) + WordAt(o, d, i) + Sum(o, d[i + 2..])
  {
    assert d == d[..i] + d[i..];
    SumSplit(o, d[..i], d[i..]);
    assert d[i..][2..] == d[i + 2..];
  }

  /** Replacing a word changes the sum by the difference. */
  lemma SumWith(o: Order, d: seq<Byte>, i: nat, w: Word)
    requires i % 2 == 0 && i + 2 <= |d|
    ensures Sum(o, WithWord(o, d, i, w)) == Sum(o, d) - WordAt(o, d, i) + w
  {
    var r := WithWord(o, d, i, w);
    SumAt(o, d, i);
    SumAt(o, r, i);
    assert r[..i] == d[..i] && r[i + 2..] == d[i + 2..];
    assert WordAt(o, r, i) == w;
    hide Sum;
  }

  /** A buffer with its own checksum put into a zero word at an even place checks. */
  lemma InsertedChecks(o: Order, d: seq<Byte>, i: nat)
    requires i % 2 == 0 && i + 2 <= |d| && d[i] == 0 && d[i + 1] == 0
    ensures Valid(o, WithWord(o, d, i, Checksum(o, d, 0xFFFF)))
  {
    var c := Checksum(o, d, 0xFFFF);
    SumWith(o, d, i, c);
    var s := Sum(o, d);
    var q := FoldIs(s);
    assert s + c == 0xFFFF * (q + 1);
    FoldSame(s + c, 0xFFFF, q);
    assert Fold(0xFFFF) == 0xFFFF;
    hide Sum;
    hide WithWord;
    hide Fold;
    assert Valid(o, WithWord(o, d, i, c));
  }

  // Byte order.

  lemma {:induction false} SwappedSum(d: seq<Byte>) returns (q: int)
    requires |d| % 2 == 0
    ensures Sum(Big, d) == 256 * Sum(Little, d) - 0xFFFF * q
    ensures Sum(Big, d) == 0 <==> Sum(Little, d) == 0
  {
    if d == [] {
      q := 0;
    } else {
      var r := SwappedSum(d[2..]);
      q := r + d[1];
    }
  }

  lemma SwapMultiple(x: int, y: int, q: int)
    requires y == 256 * x - 0xFFFF * q
    ensures x % 0xFFFF == 0 <==> y % 0xFFFF == 0
  {
    if x % 0xFFFF == 0 {
      var k := x / 0xFFFF;
      assert y == 0xFFFF * (256 * k - q);
      MultipleOf(y, 256 * k - q);
    }
    if y % 0xFFFF == 0 {
      var k := y / 0xFFFF;
      assert 256 * y == 0xFFFF * (256 * k) && 0x1_0000 * x == 256 * y + 0xFFFF * (256 * q);
      assert x == 0xFFFF * (256 * k + 256 * q - x);
      MultipleOf(x, 256 * k + 256 * q - x);
    }
  }

  lemma MultipleOf(n: int, k: int)
    requires n == 0xFFFF * k
    ensures n % 0xFFFF == 0
  {
  }

  /** Whether an even-length buffer checks does not depend on the byte order. */
  lemma OrderIrrelevant(d: seq<Byte>)
    requires |d| % 2 == 0
    ensures Valid(Little, d) <==> Valid(Big, d)
  {
    var q := SwappedSum(d);
    SwapMultiple(Sum(Little, d), Sum(Big, d), q);
    ValidIff(Little, d);
    ValidIff(Big, d);
    hide Valid;
    hide Sum;
  }

  /** An odd last byte other than zero breaks that: no buffer checks both ways ... */
  lemma NeverBoth(d: seq<Byte>, z: Byte)
    requires |d| % 2 == 0 && z != 0
    ensures !(Valid(Little, d + [z]) && Valid(Big, d + [z]))
  {
    var q := SwappedSum(d);
    var x, y := Sum(Little, d), Sum(Big, d);
    LastByte(Little, d, z);
    LastByte(Big, d, z);
    hide Valid;
    hide Sum;
    if (x + z) % 0xFFFF == 0 && (y + z) % 0xFFFF == 0 {
      var a, b := (x + z) / 0xFFFF, (y + z) / 0xFFFF;
      assert x + z == 0xFFFF * a && y + z == 0xFFFF * b;
      assert 255 * z == 0xFFFF * (256 * a - b - q);
      NoMultiple(z, 256 * a - b - q);
    }
  }

  /** ... while some check one way, so that zero is the only last byte that is safe. */
  lemma OrderMatters(z: Byte)
    ensures (forall d: seq<Byte> | |d| % 2 == 0 :: Valid(Little, d + [z]) <==> Valid(Big, d + [z])) <==> z == 0
  {
    if z == 0 {
      forall d: seq<Byte> | |d| % 2 == 0
        ensures Valid(Little, d + [z]) <==> Valid(Big, d + [z])
      {
        OrderIrrelevant(d);
        LastByte(Little, d, z);
        LastByte(Big, d, z);
        ValidIff(Little, d);
        ValidIff(Big, d);
        hide *;
      }
    } else {
      var d: seq<Byte> := [255 - z, 255];
      assert Sum(Little, d) == 0xFFFF - z;
      LastByte(Little, d, z);
      NeverBoth(d, z);
    }
  }

  lemma LastByte(o: Order, d: seq<Byte>, z: Byte)
    requires |d| % 2 == 0
    ensures Valid(o, d + [z]) <==> Sum(o, d) + z > 0 && (Sum(o, d) + z) % 0xFFFF == 0
  {
    SumSplit(o, d, [z]);
    ValidIff(o, d + [z]);
  }

  lemma NoMultiple(z: int, k: int)
    requires 0 < z < 256
    ensures 255 * z != 0xFFFF * k
  {
  }

  // The code: a 32-bit accumulator.

  function Sum32(o: Order, d: seq<Byte>, acc: nat): (s: nat) {
    if d == [] then acc
    else if |d| == 1 then (acc + d[0]) % U32
    else Sum32(o, d[2..], (acc + WordOf(o, d[0], d[1])) % U32)
  }

  function Checksum32(o: Order, d: seq<Byte>, prev: Word): (c: Word) {
    0xFFFF - Fold(Sum32(o, d, 0xFFFF - prev))
  }

  lemma WrapTwice(a: nat, b: nat)
    ensures (a % U32 + b) % U32 == (a + b) % U32
  {
  }

  lemma {:induction false} Sum32Is(o: Order, d: seq<Byte>, acc: nat)
    requires acc < U32
    ensures Sum32(o, d, acc) == (acc + Sum(o, d)) % U32
  {
    if |d| > 1 {
      var w := WordOf(o, d[0], d[1]);
      Sum32Is(o, d[2..], (acc + w) % U32);
      WrapTwice(acc + w, Sum(o, d[2..]));
    }
  }

  lemma {:induction false} SumBound(o: Order, d: seq<Byte>)
    ensures 2 * Sum(o, d) <= 0xFFFF * |d|
  {
    if |d| > 1 {
      SumBound(o, d[2..]);
    }
  }

  /** Up to 131072 bytes the accumulator does not overflow. */
  lemma NoOverflow(o: Order, d: seq<Byte>, prev: Word)
    requires |d| <= 131072
    ensures Checksum32(o, d, prev) == Checksum(o, d, prev)
  {
    SumBound(o, d);
    Sum32Is(o, d, 0xFFFF - prev);
    Small(0xFFFF - prev + Sum(o, d));
    SameSum(o, d, prev);
    hide *;
  }

  lemma Small(x: nat)
    requires x < U32
    ensures x % U32 == x
  {
  }

  lemma SameSum(o: Order, d: seq<Byte>, prev: Word)
    requires Sum32(o, d, 0xFFFF - prev) == 0xFFFF - prev + Sum(o, d)
    ensures Checksum32(o, d, prev) == Checksum(o, d, prev)
  {
    hide Fold;
    hide Sum;
    hide Sum32;
  }

  /** n words of 0xffff. */
  function Ones(n: nat): (d: seq<Byte>) { if n == 0 then [] else [255, 255] + Ones(n - 1) }

  lemma {:induction false} SumOnes(o: Order, n: nat)
    ensures |Ones(n)| == 2 * n && Sum(o, Ones(n)) == 0xFFFF * n
  {
    if n > 0 {
      SumOnes(o, n - 1);
      assert Ones(n)[2..] == Ones(n - 1);
    }
  }

  lemma SumAfterOnes(o: Order, n: nat, tail: seq<Byte>)
    ensures |Ones(n) + tail| == 2 * n + |tail| && Sum(o, Ones(n) + tail) == 0xFFFF * n + Sum(o, tail)
  {
    SumOnes(o, n);
    SumSplit(o, Ones(n), tail);
  }

  /** A buffer of n bytes on which the accumulator wraps. */
  function Heavy(n: nat): (d: seq<Byte>)
    requires n > 131072
  {
    Ones(65536) + ([1] + seq(n - 131073, _ => 0))
  }

  lemma {:induction false} SumZeros(o: Order, n: nat)
    ensures Sum(o, seq(n, _ => 0)) == 0
  {
    if n > 1 {
      SumZeros(o, n - 2);
      assert seq<Byte>(n, _ => 0)[2..] == seq<Byte>(n - 2, _ => 0);
    }
  }

  lemma SumHeavy(o: Order, n: nat) returns (x: nat)
    requires n > 131072
    ensures |Heavy(n)| == n && 1 <= x <= 256 && Sum(o, Heavy(n)) == 0xFFFF * 65536 + x
  {
    hide Ones;
    var tail: seq<Byte> := [1] + seq(n - 131073, _ => 0);
    SumAfterOnes(o, 65536, tail);
    x := Sum(o, tail);
    if |tail| > 1 {
      assert tail[2..] == seq<Byte>(n - 131074, _ => 0);
      SumZeros(o, n - 131074);
    }
  }

  lemma HeavyWraps(o: Order, n: nat)
    requires n > 131072
    ensures |Heavy(n)| == n && Checksum32(o, Heavy(n), 0) != Checksum(o, Heavy(n), 0)
  {
    var d := Heavy(n);
    var x := SumHeavy(o, n);
    Sum32Is(o, d, 0xFFFF);
    Numbers(x);
    FoldSame(0xFFFF + 0xFFFF * 65536 + x, x, 65537);
    OtherSum(o, d);
    hide *;
  }

  lemma Numbers(x: nat)
    requires 1 <= x <= 256
    ensures (0xFFFF + 0xFFFF * 65536 + x) % U32 == x - 1 && Fold(x - 1) == x - 1 && Fold(x) == x
  {
  }

  /** The code computes the checksum of every buffer of n bytes, whatever the previous sum,
      exactly if n is at most 131072. */
  lemma ExactIff(o: Order, n: nat)
    ensures (forall d: seq<Byte>, prev: Word | |d| == n :: Checksum32(o, d, prev) == Checksum(o, d, prev)) <==> n <= 131072
  {
    if n <= 131072 {
      forall d: seq<Byte>, prev: Word | |d| == n
        ensures Checksum32(o, d, prev) == Checksum(o, d, prev)
      {
        NoOverflow(o, d, prev);
      }
    } else {
      HeavyWraps(o, n);
    }
    hide *;
  }

  lemma OtherSum(o: Order, d: seq<Byte>)
    requires Fold(Sum32(o, d, 0xFFFF)) != Fold(0xFFFF + Sum(o, d))
    ensures Checksum32(o, d, 0) != Checksum(o, d, 0)
  {
    hide Fold;
    hide Sum;
    hide Sum32;
  }

  /** inet_checksum. */
  method InetChecksum(o: Order, d: seq<Byte>, prev: Word) returns (c: Word)
    ensures c == Checksum32(o, d, prev)
    ensures |d| <= 131072 ==> c == Checksum(o, d, prev)
  {
    var checksum: nat := 0xFFFF - prev;
    var i, len := 0, |d|;
    while len >= 2
      invariant 0 <= i && 0 <= len && i + len == |d| && Sum32(o, d, 0xFFFF - prev) == Sum32(o, d[i..], checksum)
    {
      assert d[i..][2..] == d[i + 2..];
      checksum := (checksum + WordOf(o, d[i], d[i + 1])) % U32;
      i, len := i + 2, len - 2;
    }
    if len != 0 {
      checksum := (checksum + d[i]) % U32;
    }
    if |d| <= 131072 {
      NoOverflow(o, d, prev);
    }
    hide Sum32;
    hide Sum;
    c := Folded(checksum);
    c := 0xFFFF - c;
  }

  /** The folding loop. */
  method Folded(sum: nat) returns (c: Word)
    ensures c == Fold(sum)
  {
    var checksum := sum;
    while checksum / 0x1_0000 != 0
      invariant Fold(checksum) == Fold(sum)
      decreases checksum
    {
      checksum := checksum % 0x1_0000 + checksum / 0x1_0000;
    }
    c := checksum;
  }
}
