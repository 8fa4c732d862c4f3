/** The circular bitmap behind both replay windows: sequence number s has bit s % 8 of
    byte (s / 8) % n. */
module ReplayBitmap {

  /** 1 << k. */
  function Mask(k: nat): (m: bv8)
    requires k < 8
  {
    if k == 0 then 1 else if k == 1 then 2 else if k == 2 then 4 else if k == 3 then 8
    else if k == 4 then 16 else if k == 5 then 32 else if k == 6 then 64 else 128
  }

  predicate HasBit(b: bv8, k: nat)
    requires k < 8
  {
    b & Mask(k) != 0
  }

  function SetBit(b: bv8, k: nat): (r: bv8)
    requires k < 8
  {
    b | Mask(k)
  }

  function DropBit(b: bv8, k: nat): (r: bv8)
    requires k < 8
  {
    b & !Mask(k)
  }

  function Slot(n: nat, s: nat): (i: nat)
    requires n > 0
    ensures i < n
  {
    (s / 8) % n
  }

  /** Is s marked as missing? */
  predicate Late(bits: seq<bv8>, s: nat)
    requires |bits| > 0
  {
    HasBit(bits[Slot(|bits|, s)], s % 8)
  }

  function Mark(bits: seq<bv8>, s: nat): (r: seq<bv8>)
    requires |bits| > 0
    ensures |r| == |bits|
  {
    var i := Slot(|bits|, s);
    bits[i := SetBit(bits[i], s % 8)]
  }

  function Clear(bits: seq<bv8>, s: nat): (r: seq<bv8>)
    requires |bits| > 0
    ensures |r| == |bits|
  {
    var i := Slot(|bits|, s);
    bits[i := DropBit(bits[i], s % 8)]
  }

  /** Marking every number from lo up to hi, as the loops of the source do. */
  function MarkRange(bits: seq<bv8>, lo: nat, hi: nat): (r: seq<bv8>)
    requires |bits| > 0
    ensures |r| == |bits|
    decreases hi - lo
  {
    if lo >= hi then bits else Mark(MarkRange(bits, lo, hi - 1), hi - 1)
  }

  predicate SameBit(n: nat, s: nat, t: nat)
    requires n > 0
  {
    Slot(n, s) == Slot(n, t) && s % 8 == t % 8
  }

  lemma MaskBits(b: bv8, i: nat, j: nat)
    requires i < 8 && j < 8
    ensures HasBit(SetBit(b, i), j) <==> i == j || HasBit(b, j)
    ensures HasBit(DropBit(b, i), j) <==> i != j && HasBit(b, j)
  {
    MaskDisjoint(i, j);
    var m, k := Mask(i), Mask(j);
    if i != j {
      assert (b | m) & k == (b & k) | (m & k);
      assert (b & !m) & k == (b & k) & !m;
      assert k & !m == k;
      assert (b & !m) & k == b & (k & !m);
    } else {
      assert (b | m) & m == m;
      assert (b & !m) & m == 0;
    }
  }

  lemma MaskDisjoint(i: nat, j: nat)
    requires i < 8 && j < 8
    ensures Mask(i) != 0
    ensures i != j ==> Mask(i) & Mask(j) == 0 && Mask(j) & !Mask(i) == Mask(j)
  {
  }

  lemma MarkLate(bits: seq<bv8>, s: nat, t: nat)
    requires |bits| > 0
    ensures Late(Mark(bits, s), t) <==> SameBit(|bits|, s, t) || Late(bits, t)
  {
    hide HasBit;
    hide SetBit;
    hide DropBit;
    hide Slot;
    MaskBits(bits[Slot(|bits|, s)], s % 8, t % 8);
  }

  lemma ClearLate(bits: seq<bv8>, s: nat, t: nat)
    requires |bits| > 0
    ensures Late(Clear(bits, s), t) <==> !SameBit(|bits|, s, t) && Late(bits, t)
  {
    hide HasBit;
    hide SetBit;
    hide DropBit;
    hide Slot;
    MaskBits(bits[Slot(|bits|, s)], s % 8, t % 8);
  }

  lemma MulMono(n: nat, a: int, b: int)
    requires a <= b
    ensures n * a <= n * b
  {
  }

  lemma ModUnique(x: nat, n: nat, q: nat, r: nat)
    requires r < n && x == n * q + r
    ensures x % n == r
  {
    var k := x / n;
    assert x == n * k + x % n;
    assert q < k ==> n * (q + 1) <= n * k by { if q < k { MulMono(n, q + 1, k); } }
    assert k < q ==> n * (k + 1) <= n * q by { if k < q { MulMono(n, k + 1, q); } }
    assert n * (q + 1) == n * q + n && n * (k + 1) == n * k + n;
  }

  lemma DistinctModulo(a: nat, b: nat, n: nat)
    requires a < b < a + n
    ensures a % n != b % n
  {
    var q, r, d := a / n, a % n, b - a;
    assert a == n * q + r;
    if r + d < n {
      ModUnique(b, n, q, r + d);
    } else {
      assert n * (q + 1) == n * q + n;
      ModUnique(b, n, q + 1, r + d - n);
    }
  }

  /** Numbers less than a window apart have different bits. */
  lemma WindowDistinct(n: nat, s: nat, t: nat)
    requires n > 0 && s < t < s + 8 * n
    ensures !SameBit(n, s, t)
  {
    if s % 8 == t % 8 {
      assert s / 8 < t / 8 < s / 8 + n;
      DistinctModulo(s / 8, t / 8, n);
    }
  }

  /** A range no longer than the window: inside it everything is marked, and what lies
      before it but within a window of its end is untouched. */
  lemma {:induction false} MarkRangeLate(bits: seq<bv8>, lo: nat, hi: nat, t: nat)
    requires |bits| > 0 && lo <= hi
    requires t < hi <= t + 8 * |bits|
    ensures Late(MarkRange(bits, lo, hi), t) <==> lo <= t || Late(bits, t)
    decreases hi - lo
  {
    if lo < hi {
      var n := |bits|;
      var inner := MarkRange(bits, lo, hi - 1);
      MarkLate(inner, hi - 1, t);
      if t < hi - 1 {
        WindowDistinct(n, t, hi - 1);
        MarkRangeLate(bits, lo, hi - 1, t);
      }
    }
  }
}
