/** utils.c: tinc's base64, least significant bits first and without padding. */
module Base64 {

  datatype Alphabet = Original | UrlSafe

  datatype Result = Fail | Done(bytes: seq<bv8>)

  /** alphabet[v]. */
  function Symbol(a: Alphabet, v: bv32): (c: bv8)
    requires v < 64
    ensures c != 0 && Value(c) == v
  {
    if v < 26 then (v as bv8) + 65
    else if v < 52 then (v as bv8) + 71
    else if v < 62 then (v as bv8) - 4
    else if v == 62 then (if a == Original then 43 else 45)
    else (if a == Original then 47 else 95)
  }

  /** base64_decode[c]; minus one, sign-extended, outside both alphabets. */
  function Value(c: bv8): (v: bv32) {
    if 65 <= c <= 90 then (c - 65) as bv32
    else if 97 <= c <= 122 then (c - 71) as bv32
    else if 48 <= c <= 57 then (c + 4) as bv32
    else if c == 43 || c == 45 then 62
    else if c == 47 || c == 95 then 63
    else 0xFFFF_FFFF
  }

  /** In one of the two alphabets. */
  predicate Known(c: bv8) { Value(c) != 0xFFFF_FFFF }

  /** Byte j of a triplet. */
  function Byte(t: bv32, j: nat): (b: bv8) {
    if j == 0 then (t & 0xFF) as bv8 else if j == 1 then ((t >> 8) & 0xFF) as bv8 else ((t >> 16) & 0xFF) as bv8
  }

  function Pack3(x: bv8, y: bv8, z: bv8): (t: bv32) { x as bv32 | (y as bv32 << 8) | (z as bv32 << 16) }

  /** Six bits of a triplet. */
  function Piece(t: bv32, j: nat): (v: bv32)
    ensures v < 64
  {
    if j == 0 then t & 63 else if j == 1 then (t >> 6) & 63 else if j == 2 then (t >> 12) & 63 else (t >> 18) & 63
  }

  /** Three bytes as four symbols. */
  function Quad(a: Alphabet, x: bv8, y: bv8, z: bv8): (s: seq<bv8>)
    ensures |s| == 4
  {
    var t := Pack3(x, y, z);
    [Symbol(a, Piece(t, 0)), Symbol(a, Piece(t, 1)), Symbol(a, Piece(t, 2)), Symbol(a, Piece(t, 3))]
  }

  /** b64encode_tinc_internal. */
  function Encoded(a: Alphabet, x: seq<bv8>): (s: seq<bv8>) {
    if x == [] then []
    else if |x| == 1 then Quad(a, x[0], 0, 0)[..2]
    else if |x| == 2 then Quad(a, x[0], x[1], 0)[..3]
    else Quad(a, x[0], x[1], x[2]) + Encoded(a, x[3..])
  }

  lemma {:induction false} EncodedLength(a: Alphabet, x: seq<bv8>)
    ensures |Encoded(a, x)| == |x| / 3 * 4 + (if |x| % 3 == 0 then 0 else |x| % 3 + 1)
  {
    hide Quad;
    if |x| >= 3 {
      EncodedLength(a, x[3..]);
    }
  }

  function Shifted(v: bv32, k: nat): (r: bv32)
    requires k < 4
  {
    if k == 0 then v else if k == 1 then v << 6 else if k == 2 then v << 12 else v << 18
  }

  function Or(t: bv32, u: bv32): (r: bv32) { t | u }

  /** The triplet after k symbols from place i on. */
  function Triplet(s: seq<bv8>, i: nat, k: nat): (t: bv32)
    requires k <= 4 && i + k <= |s|
  {
    if k == 0 then 0 else Or(Triplet(s, i, k - 1), Shifted(Value(s[i + k - 1]), k - 1))
  }

  predicate Overflow(t: bv32) { t & 0xFF00_0000 != 0 }

  /** The bytes that k symbols with triplet t stand for. */
  function Bytes(t: bv32, k: nat): (b: seq<bv8>)
    requires k <= 4
    ensures |b| == if k < 2 then 0 else k - 1
  {
    if k < 2 then [] else if k == 2 then [Byte(t, 0)] else if k == 3 then [Byte(t, 0), Byte(t, 1)] else [Byte(t, 0), Byte(t, 1), Byte(t, 2)]
  }

  /** b64decode_tinc from the group at place i on. */
  function Decoded(s: seq<bv8>, i: nat): (r: Result)
    requires i <= |s|
    decreases |s| - i
  {
    var k := if |s| - i < 4 then |s| - i else 4;
    var t := Triplet(s, i, k);
    if Overflow(t) then Fail
    else if k < 4 then Done(Bytes(t, k))
    else
      var rest := Decoded(s, i + 4);
      if rest == Fail then Fail else Done(Bytes(t, 4) + rest.bytes)
  }

  lemma KnownFits(c: bv8)
    ensures Known(c) <==> Value(c) < 64
  {
  }

  lemma ShiftFits(v: bv32, k: nat)
    requires k < 4
    ensures v < 64 ==> !Overflow(Shifted(v, k))
    ensures v == 0xFFFF_FFFF ==> Overflow(Shifted(v, k))
  {
  }

  lemma OverflowOr(t: bv32, u: bv32)
    ensures Overflow(Or(t, u)) <==> Overflow(t) || Overflow(u)
  {
    TopOr(t, u);
    assert Or(t, u) == t | u;
    hide Or;
  }

  lemma TopOr(t: bv32, u: bv32)
    ensures (t | u) & 0xFF00_0000 != 0 <==> t & 0xFF00_0000 != 0 || u & 0xFF00_0000 != 0
  {
  }

  /** The sentinel bits show exactly if a symbol is unknown. */
  lemma {:induction false} TripletFits(s: seq<bv8>, i: nat, k: nat)
    requires k <= 4 && i + k <= |s|
    ensures Overflow(Triplet(s, i, k)) <==> exists j :: i <= j < i + k && !Known(s[j])
  {
    if k > 0 {
      hide Value;
      hide Shifted;
      TripletFits(s, i, k - 1);
      var c := s[i + k - 1];
      KnownFits(c);
      ShiftFits(Value(c), k - 1);
      OverflowOr(Triplet(s, i, k - 1), Shifted(Value(c), k - 1));
      hide Overflow;
      hide Or;
      hide Known;
      assert Overflow(Triplet(s, i, k)) <==> Overflow(Triplet(s, i, k - 1)) || !Known(c);
    }
  }

  /** Decoding fails exactly on strings with a symbol outside both alphabets. */
  lemma {:induction false} FailsIff(s: seq<bv8>, i: nat)
    requires i <= |s|
    ensures Decoded(s, i) == Fail <==> exists j :: i <= j < |s| && !Known(s[j])
    decreases |s| - i
  {
    hide Known;
    var k := if |s| - i < 4 then |s| - i else 4;
    TripletFits(s, i, k);
    hide Overflow;
    hide Triplet;
    if k == 4 {
      FailsIff(s, i + 4);
    }
  }

  // Which text an encoding is: the alphabets, and the order of the bits.

  /** Symbols follow each other from A to Z, a to z and 0 to 9; the last two tell the
      alphabets apart. */
  lemma SymbolIs(a: Alphabet, v: bv32)
    requires v < 64
    ensures v == 0 ==> Symbol(a, v) == 65
    ensures v == 26 ==> Symbol(a, v) == 97
    ensures v == 52 ==> Symbol(a, v) == 48
    ensures v < 25 || 26 <= v < 51 || 52 <= v < 61 ==> Symbol(a, v + 1) == Symbol(a, v) + 1
    ensures Symbol(Original, 62) == 43 && Symbol(Original, 63) == 47
    ensures Symbol(UrlSafe, 62) == 45 && Symbol(UrlSafe, 63) == 95
  {
  }

  predicate LetterOrDigit(c: bv8) { 65 <= c <= 90 || 97 <= c <= 122 || 48 <= c <= 57 }

  predicate Allowed(a: Alphabet, c: bv8) {
    LetterOrDigit(c) || if a == Original then c == 43 || c == 47 else c == 45 || c == 95
  }

  lemma SymbolAllowed(a: Alphabet, v: bv32)
    requires v < 64
    ensures Allowed(a, Symbol(a, v))
  {
  }

  /** An encoding consists of letters, digits and the two further symbols of its alphabet. */
  lemma {:induction false} TextAllowed(a: Alphabet, x: seq<bv8>)
    ensures forall c :: c in Encoded(a, x) ==> Allowed(a, c)
  {
    hide Allowed;
    if x != [] {
      var y, z := if |x| > 1 then x[1] else 0, if |x| > 2 then x[2] else 0;
      QuadAllowed(a, x[0], y, z);
      hide Quad;
      if |x| > 2 {
        TextAllowed(a, x[3..]);
      }
    }
  }

  lemma QuadAllowed(a: Alphabet, x: bv8, y: bv8, z: bv8)
    ensures forall c :: c in Quad(a, x, y, z) ==> Allowed(a, c)
  {
    hide Allowed;
    hide Symbol;
    hide Piece;
    hide Pack3;
    var t := Pack3(x, y, z);
    SymbolAllowed(a, Piece(t, 0));
    SymbolAllowed(a, Piece(t, 1));
    SymbolAllowed(a, Piece(t, 2));
    SymbolAllowed(a, Piece(t, 3));
  }

  /** Bit b of a symbol's value. */
  predicate SymbolBit(v: bv32, b: nat)
    requires b < 6
  {
    if b == 0 then v & 1 != 0 else if b == 1 then v & 2 != 0 else if b == 2 then v & 4 != 0
    else if b == 3 then v & 8 != 0 else if b == 4 then v & 16 != 0 else v & 32 != 0
  }

  predicate ByteBit(c: bv8, b: nat)
    requires b < 8
  {
    if b == 0 then c & 1 != 0 else if b == 1 then c & 2 != 0 else if b == 2 then c & 4 != 0 else if b == 3 then c & 8 != 0
    else if b == 4 then c & 16 != 0 else if b == 5 then c & 32 != 0 else if b == 6 then c & 64 != 0 else c & 128 != 0
  }

  /** Bit i of the input, least significant bits first; zero behind its end. */
  predicate InputBit(x: seq<bv8>, i: nat) { i / 8 < |x| && ByteBit(x[i / 8], i % 8) }

  lemma SymbolBits(v: bv32)
    ensures (SymbolBit(v, 0) <==> v & 1 != 0) && (SymbolBit(v, 1) <==> v & 2 != 0) && (SymbolBit(v, 2) <==> v & 4 != 0)
    ensures (SymbolBit(v, 3) <==> v & 8 != 0) && (SymbolBit(v, 4) <==> v & 16 != 0) && (SymbolBit(v, 5) <==> v & 32 != 0)
  {
  }

  lemma ByteBits(c: bv8)
    ensures (ByteBit(c, 0) <==> c & 1 != 0) && (ByteBit(c, 1) <==> c & 2 != 0) && (ByteBit(c, 2) <==> c & 4 != 0)
    ensures (ByteBit(c, 3) <==> c & 8 != 0) && (ByteBit(c, 4) <==> c & 16 != 0) && (ByteBit(c, 5) <==> c & 32 != 0)
    ensures (ByteBit(c, 6) <==> c & 64 != 0) && (ByteBit(c, 7) <==> c & 128 != 0)
  {
  }

  lemma PackBits0(x: bv8, y: bv8, z: bv8)
    ensures ((x as bv32 | (y as bv32 << 8) | (z as bv32 << 16)) & 63) & 1 != 0 <==> x & 1 != 0
    ensures ((x as bv32 | (y as bv32 << 8) | (z as bv32 << 16)) & 63) & 2 != 0 <==> x & 2 != 0
    ensures ((x as bv32 | (y as bv32 << 8) | (z as bv32 << 16)) & 63) & 4 != 0 <==> x & 4 != 0
    ensures ((x as bv32 | (y as bv32 << 8) | (z as bv32 << 16)) & 63) & 8 != 0 <==> x & 8 != 0
    ensures ((x as bv32 | (y as bv32 << 8) | (z as bv32 << 16)) & 63) & 16 != 0 <==> x & 16 != 0
    ensures ((x as bv32 | (y as bv32 << 8) | (z as bv32 << 16)) & 63) & 32 != 0 <==> x & 32 != 0
  {
  }

  lemma PackBits1(x: bv8, y: bv8, z: bv8)
    ensures (((x as bv32 | (y as bv32 << 8) | (z as bv32 << 16)) >> 6) & 63) & 1 != 0 <==> x & 64 != 0
    ensures (((x as bv32 | (y as bv32 << 8) | (z as bv32 << 16)) >> 6) & 63) & 2 != 0 <==> x & 128 != 0
    ensures (((x as bv32 | (y as bv32 << 8) | (z as bv32 << 16)) >> 6) & 63) & 4 != 0 <==> y & 1 != 0
    ensures (((x as bv32 | (y as bv32 << 8) | (z as bv32 << 16)) >> 6) & 63) & 8 != 0 <==> y & 2 != 0
    ensures (((x as bv32 | (y as bv32 << 8) | (z as bv32 << 16)) >> 6) & 63) & 16 != 0 <==> y & 4 != 0
    ensures (((x as bv32 | (y as bv32 << 8) | (z as bv32 << 16)) >> 6) & 63) & 32 != 0 <==> y & 8 != 0
  {
  }

  lemma PackBits2(x: bv8, y: bv8, z: bv8)
    ensures (((x as bv32 | (y as bv32 << 8) | (z as bv32 << 16)) >> 12) & 63) & 1 != 0 <==> y & 16 != 0
    ensures (((x as bv32 | (y as bv32 << 8) | (z as bv32 << 16)) >> 12) & 63) & 2 != 0 <==> y & 32 != 0
    ensures (((x as bv32 | (y as bv32 << 8) | (z as bv32 << 16)) >> 12) & 63) & 4 != 0 <==> y & 64 != 0
    ensures (((x as bv32 | (y as bv32 << 8) | (z as bv32 << 16)) >> 12) & 63) & 8 != 0 <==> y & 128 != 0
    ensures (((x as bv32 | (y as bv32 << 8) | (z as bv32 << 16)) >> 12) & 63) & 16 != 0 <==> z & 1 != 0
    ensures (((x as bv32 | (y as bv32 << 8) | (z as bv32 << 16)) >> 12) & 63) & 32 != 0 <==> z & 2 != 0
  {
  }

  lemma PackBits3(x: bv8, y: bv8, z: bv8)
    ensures (((x as bv32 | (y as bv32 << 8) | (z as bv32 << 16)) >> 18) & 63) & 1 != 0 <==> z & 4 != 0
    ensures (((x as bv32 | (y as bv32 << 8) | (z as bv32 << 16)) >> 18) & 63) & 2 != 0 <==> z & 8 != 0
    ensures (((x as bv32 | (y as bv32 << 8) | (z as bv32 << 16)) >> 18) & 63) & 4 != 0 <==> z & 16 != 0
    ensures (((x as bv32 | (y as bv32 << 8) | (z as bv32 << 16)) >> 18) & 63) & 8 != 0 <==> z & 32 != 0
    ensures (((x as bv32 | (y as bv32 << 8) | (z as bv32 << 16)) >> 18) & 63) & 16 != 0 <==> z & 64 != 0
    ensures (((x as bv32 | (y as bv32 << 8) | (z as bv32 << 16)) >> 18) & 63) & 32 != 0 <==> z & 128 != 0
  {
  }

  lemma PieceBit0(x: bv8, y: bv8, z: bv8)
    ensures SymbolBit(Piece(Pack3(x, y, z), 0), 0) <==> ByteBit(x, 0)
    ensures SymbolBit(Piece(Pack3(x, y, z), 0), 1) <==> ByteBit(x, 1)
    ensures SymbolBit(Piece(Pack3(x, y, z), 0), 2) <==> ByteBit(x, 2)
    ensures SymbolBit(Piece(Pack3(x, y, z), 0), 3) <==> ByteBit(x, 3)
    ensures SymbolBit(Piece(Pack3(x, y, z), 0), 4) <==> ByteBit(x, 4)
    ensures SymbolBit(Piece(Pack3(x, y, z), 0), 5) <==> ByteBit(x, 5)
  {
    hide *;
    PackBits0(x, y, z);
    PackIs(x, y, z);
    PieceIs(Pack3(x, y, z));
    SymbolBits(Piece(Pack3(x, y, z), 0));
    ByteBits(x);
  }

  lemma PieceBit1(x: bv8, y: bv8, z: bv8)
    ensures SymbolBit(Piece(Pack3(x, y, z), 1), 0) <==> ByteBit(x, 6)
    ensures SymbolBit(Piece(Pack3(x, y, z), 1), 1) <==> ByteBit(x, 7)
    ensures SymbolBit(Piece(Pack3(x, y, z), 1), 2) <==> ByteBit(y, 0)
    ensures SymbolBit(Piece(Pack3(x, y, z), 1), 3) <==> ByteBit(y, 1)
    ensures SymbolBit(Piece(Pack3(x, y, z), 1), 4) <==> ByteBit(y, 2)
    ensures SymbolBit(Piece(Pack3(x, y, z), 1), 5) <==> ByteBit(y, 3)
  {
    hide *;
    PackBits1(x, y, z);
    PackIs(x, y, z);
    PieceIs(Pack3(x, y, z));
    SymbolBits(Piece(Pack3(x, y, z), 1));
    ByteBits(x);
    ByteBits(y);
  }

  lemma PieceBit2(x: bv8, y: bv8, z: bv8)
    ensures SymbolBit(Piece(Pack3(x, y, z), 2), 0) <==> ByteBit(y, 4)
    ensures SymbolBit(Piece(Pack3(x, y, z), 2), 1) <==> ByteBit(y, 5)
    ensures SymbolBit(Piece(Pack3(x, y, z), 2), 2) <==> ByteBit(y, 6)
    ensures SymbolBit(Piece(Pack3(x, y, z), 2), 3) <==> ByteBit(y, 7)
    ensures SymbolBit(Piece(Pack3(x, y, z), 2), 4) <==> ByteBit(z, 0)
    ensures SymbolBit(Piece(Pack3(x, y, z), 2), 5) <==> ByteBit(z, 1)
  {
    hide *;
    PackBits2(x, y, z);
    PackIs(x, y, z);
    PieceIs(Pack3(x, y, z));
    SymbolBits(Piece(Pack3(x, y, z), 2));
    ByteBits(y);
    ByteBits(z);
  }

  lemma PieceBit3(x: bv8, y: bv8, z: bv8)
    ensures SymbolBit(Piece(Pack3(x, y, z), 3), 0) <==> ByteBit(z, 2)
    ensures SymbolBit(Piece(Pack3(x, y, z), 3), 1) <==> ByteBit(z, 3)
    ensures SymbolBit(Piece(Pack3(x, y, z), 3), 2) <==> ByteBit(z, 4)
    ensures SymbolBit(Piece(Pack3(x, y, z), 3), 3) <==> ByteBit(z, 5)
    ensures SymbolBit(Piece(Pack3(x, y, z), 3), 4) <==> ByteBit(z, 6)
    ensures SymbolBit(Piece(Pack3(x, y, z), 3), 5) <==> ByteBit(z, 7)
  {
    hide *;
    PackBits3(x, y, z);
    PackIs(x, y, z);
    PieceIs(Pack3(x, y, z));
    SymbolBits(Piece(Pack3(x, y, z), 3));
    ByteBits(z);
  }

  lemma PackIs(x: bv8, y: bv8, z: bv8)
    ensures Pack3(x, y, z) == (x as bv32 | (y as bv32 << 8) | (z as bv32 << 16))
  {
  }

  lemma PieceBit(x: bv8, y: bv8, z: bv8, j: nat, b: nat)
    requires j < 4 && b < 6
    ensures SymbolBit(Piece(Pack3(x, y, z), j), b) <==> InputBit([x, y, z], 6 * j + b)
  {
    hide *;
    BitNumber(j, b);
    if j == 0 {
      PieceBit0(x, y, z);
      InputThree(x, y, z, b);
    } else if j == 1 {
      PieceBit1(x, y, z);
      InputThree(x, y, z, 6 + b);
    } else if j == 2 {
      PieceBit2(x, y, z);
      InputThree(x, y, z, 12 + b);
    } else {
      PieceBit3(x, y, z);
      InputThree(x, y, z, 18 + b);
    }
  }

  lemma BitNumber(j: nat, b: nat)
    requires j < 4 && b < 6
    ensures j == 0 || j == 1 || j == 2 || j == 3
    ensures b == 0 || b == 1 || b == 2 || b == 3 || b == 4 || b == 5
  {
  }

  lemma InputThree(x: bv8, y: bv8, z: bv8, i: nat)
    requires i < 24
    ensures InputBit([x, y, z], i) <==> ByteBit(if i < 8 then x else if i < 16 then y else z, i % 8)
  {
    hide ByteBit;
  }

  /** The bits of the input, six to a symbol and least significant first, are the bits of
      the text. */
  lemma {:induction false} TextBits(a: Alphabet, x: seq<bv8>, j: nat, b: nat)
    requires j < |Encoded(a, x)| && b < 6
    ensures SymbolBit(Value(Encoded(a, x)[j]), b) <==> InputBit(x, 6 * j + b)
  {
    hide *;
    EncodedStart(a, x, j);
    var y, z := if |x| > 1 then x[1] else 0, if |x| > 2 then x[2] else 0;
    if j < 4 {
      QuadAt(a, x[0], y, z, j);
      PieceBit(x[0], y, z, j, b);
      InputFront(x, 6 * j + b, y, z);
    } else {
      TextBits(a, x[3..], j - 4, b);
      InputRest(x, 6 * j + b);
    }
  }

  lemma EncodedStart(a: Alphabet, x: seq<bv8>, j: nat)
    requires j < |Encoded(a, x)|
    ensures x != []
    ensures j < 4 ==> Encoded(a, x)[j] == Quad(a, x[0], if |x| > 1 then x[1] else 0, if |x| > 2 then x[2] else 0)[j]
    ensures j >= 4 ==> |x| > 3 && j - 4 < |Encoded(a, x[3..])| && Encoded(a, x)[j] == Encoded(a, x[3..])[j - 4]
  {
    hide Quad;
    if |x| == 3 {
      assert Encoded(a, x[3..]) == [];
    }
  }

  lemma QuadAt(a: Alphabet, x: bv8, y: bv8, z: bv8, j: nat)
    requires j < 4
    ensures Value(Quad(a, x, y, z)[j]) == Piece(Pack3(x, y, z), j)
  {
    hide *;
    QuadValues(a, x, y, z);
    assert j == 0 || j == 1 || j == 2 || j == 3;
  }

  lemma InputFront(x: seq<bv8>, i: nat, y: bv8, z: bv8)
    requires x != [] && i < 24 && y == (if |x| > 1 then x[1] else 0) && z == (if |x| > 2 then x[2] else 0)
    ensures InputBit(x, i) <==> InputBit([x[0], y, z], i)
  {
    var k := i / 8;
    assert k < |x| ==> [x[0], y, z][k] == x[k];
    assert k >= |x| ==> [x[0], y, z][k] == 0;
    ByteBits(0);
  }

  lemma InputRest(x: seq<bv8>, i: nat)
    requires |x| >= 3 && i >= 24
    ensures InputBit(x, i) <==> InputBit(x[3..], i - 24)
  {
    assert (i - 24) / 8 == i / 8 - 3 && (i - 24) % 8 == i % 8;
  }

  // Round trip.

  lemma TripletIs(s: seq<bv8>, i: nat, v: seq<bv32>, k: nat)
    requires 2 <= k <= 4 && i + k <= |s| && |v| == 4 && (forall j :: 0 <= j < k ==> Value(s[i + j]) == v[j])
    ensures Triplet(s, i, k) == Joined(v, k)
  {
    hide Value;
    hide Shifted;
    hide Or;
    assert Triplet(s, i, 0) == 0;
    assert Triplet(s, i, 1) == Or(0, Shifted(v[0], 0));
    assert Triplet(s, i, 2) == Joined(v, 2);
    if k > 2 {
      assert Triplet(s, i, 3) == Joined(v, 3);
    }
    if k > 3 {
      assert Triplet(s, i, 4) == Joined(v, 4);
    }
  }

  /** The first k pieces, put together. */
  function Joined(v: seq<bv32>, k: nat): (t: bv32)
    requires 2 <= k <= 4 && |v| == 4
  {
    var two := Or(Or(0, Shifted(v[0], 0)), Shifted(v[1], 1));
    if k == 2 then two else if k == 3 then Or(two, Shifted(v[2], 2)) else Or(Or(two, Shifted(v[2], 2)), Shifted(v[3], 3))
  }

  lemma Pieces(t: bv32)
    ensures t < 0x100_0000 ==> (((0 | (t & 63)) | (((t >> 6) & 63) << 6)) | (((t >> 12) & 63) << 12)) | (((t >> 18) & 63) << 18) == t
    ensures t < 0x1_0000 ==> ((0 | (t & 63)) | (((t >> 6) & 63) << 6)) | (((t >> 12) & 63) << 12) == t
    ensures t < 0x100 ==> (0 | (t & 63)) | (((t >> 6) & 63) << 6) == t
  {
  }

  lemma PackFits(x: bv8, y: bv8, z: bv8)
    ensures Pack3(x, y, z) < 0x100_0000 && (z == 0 ==> Pack3(x, y, z) < 0x1_0000) && (y == 0 && z == 0 ==> Pack3(x, y, z) < 0x100)
  {
  }

  /** The pieces of a triplet put together again; two and three of them suffice for one
      and two bytes. */
  lemma Recompose(t: bv32, k: nat)
    requires 2 <= k <= 4 && t < 0x100_0000 && (k < 4 ==> t < 0x1_0000) && (k < 3 ==> t < 0x100)
    ensures Joined([Piece(t, 0), Piece(t, 1), Piece(t, 2), Piece(t, 3)], k) == t
  {
    var p, q, r, u := Piece(t, 0), Piece(t, 1), Piece(t, 2), Piece(t, 3);
    JoinedOf(p, q, r, u);
    if k == 2 {
      JoinTwo(t);
    } else if k == 3 {
      JoinThree(t);
    } else {
      JoinFour(t);
    }
    hide *;
  }

  function Two(p: bv32, q: bv32): (t: bv32) { Or(Or(0, Shifted(p, 0)), Shifted(q, 1)) }

  lemma JoinedOf(p: bv32, q: bv32, r: bv32, u: bv32)
    ensures var v := [p, q, r, u];
            && Joined(v, 2) == Two(p, q) && Joined(v, 3) == Or(Two(p, q), Shifted(r, 2))
            && Joined(v, 4) == Or(Or(Two(p, q), Shifted(r, 2)), Shifted(u, 3))
  {
    hide Or;
    hide Shifted;
  }

  lemma JoinTwo(t: bv32)
    ensures t < 0x100 ==> Two(Piece(t, 0), Piece(t, 1)) == t
  {
    Pieces(t);
  }

  lemma JoinThree(t: bv32)
    ensures t < 0x1_0000 ==> Or(Two(Piece(t, 0), Piece(t, 1)), Shifted(Piece(t, 2), 2)) == t
  {
    Pieces(t);
  }

  lemma JoinFour(t: bv32)
    ensures t < 0x100_0000 ==> Or(Or(Two(Piece(t, 0), Piece(t, 1)), Shifted(Piece(t, 2), 2)), Shifted(Piece(t, 3), 3)) == t
  {
    Pieces(t);
  }

  lemma PieceIs(t: bv32)
    ensures Piece(t, 0) == t & 63 && Piece(t, 1) == (t >> 6) & 63 && Piece(t, 2) == (t >> 12) & 63 && Piece(t, 3) == (t >> 18) & 63
  {
  }

  lemma JoinedIs(v: seq<bv32>, k: nat)
    requires 2 <= k <= 4 && |v| == 4
    ensures k == 2 ==> Joined(v, k) == (0 | v[0]) | (v[1] << 6)
    ensures k == 3 ==> Joined(v, k) == ((0 | v[0]) | (v[1] << 6)) | (v[2] << 12)
    ensures k == 4 ==> Joined(v, k) == (((0 | v[0]) | (v[1] << 6)) | (v[2] << 12)) | (v[3] << 18)
  {
  }

  lemma Unpack(x: bv8, y: bv8, z: bv8)
    ensures var t := Pack3(x, y, z);
            !Overflow(t) && Byte(t, 0) == x && Byte(t, 1) == y && Byte(t, 2) == z
  {
  }

  lemma GroupTriplet(a: Alphabet, x: bv8, y: bv8, z: bv8, s: seq<bv8>, i: nat, k: nat)
    requires 2 <= k <= 4 && i + k <= |s| && s[i..i + k] == Quad(a, x, y, z)[..k]
    requires (k < 4 ==> z == 0) && (k < 3 ==> y == 0)
    ensures Triplet(s, i, k) == Pack3(x, y, z)
  {
    hide *;
    var t := Pack3(x, y, z);
    var v := [Piece(t, 0), Piece(t, 1), Piece(t, 2), Piece(t, 3)];
    GroupValues(a, x, y, z, s, i, k, v);
    TripletIs(s, i, v, k);
    PackFits(x, y, z);
    Recompose(t, k);
  }

  lemma GroupValues(a: Alphabet, x: bv8, y: bv8, z: bv8, s: seq<bv8>, i: nat, k: nat, v: seq<bv32>)
    requires 2 <= k <= 4 && i + k <= |s| && s[i..i + k] == Quad(a, x, y, z)[..k]
    requires var t := Pack3(x, y, z); v == [Piece(t, 0), Piece(t, 1), Piece(t, 2), Piece(t, 3)]
    ensures forall j :: 0 <= j < k ==> Value(s[i + j]) == v[j]
  {
    hide *;
    QuadValues(a, x, y, z);
    forall j | 0 <= j < k
      ensures Value(s[i + j]) == v[j]
    {
      assert s[i + j] == s[i..i + k][j];
    }
  }

  /** A group of k symbols of an encoding gives its bytes back. */
  lemma GroupBack(a: Alphabet, x: bv8, y: bv8, z: bv8, s: seq<bv8>, i: nat, k: nat)
    requires 2 <= k <= 4 && i + k <= |s| && s[i..i + k] == Quad(a, x, y, z)[..k]
    requires (k < 4 ==> z == 0) && (k < 3 ==> y == 0)
    ensures !Overflow(Triplet(s, i, k)) && Bytes(Triplet(s, i, k), k) == [x, y, z][..k - 1]
  {
    hide *;
    var t := Pack3(x, y, z);
    GroupTriplet(a, x, y, z, s, i, k);
    Unpack(x, y, z);
    BytesIs(t, k, x, y, z);
  }

  lemma QuadValues(a: Alphabet, x: bv8, y: bv8, z: bv8)
    ensures var q, t := Quad(a, x, y, z), Pack3(x, y, z);
            Value(q[0]) == Piece(t, 0) && Value(q[1]) == Piece(t, 1) && Value(q[2]) == Piece(t, 2) && Value(q[3]) == Piece(t, 3)
  {
    hide Value;
    hide Pack3;
    hide Piece;
    hide Symbol;
    var q, t := Quad(a, x, y, z), Pack3(x, y, z);
    assert q[0] == Symbol(a, Piece(t, 0)) && q[1] == Symbol(a, Piece(t, 1));
    assert q[2] == Symbol(a, Piece(t, 2)) && q[3] == Symbol(a, Piece(t, 3));
  }

  lemma BytesIs(t: bv32, k: nat, x: bv8, y: bv8, z: bv8)
    requires 2 <= k <= 4 && Byte(t, 0) == x && Byte(t, 1) == y && Byte(t, 2) == z
    ensures Bytes(t, k) == [x, y, z][..k - 1]
  {
    hide Byte;
    assert Bytes(t, k) == [x, y, z][..k - 1];
  }

  lemma Nothing(s: seq<bv8>)
    ensures Decoded(s, |s|) == Done([])
  {
  }

  lemma OneMore(s: seq<bv8>, i: nat, r: seq<bv8>)
    requires i + 4 <= |s| && !Overflow(Triplet(s, i, 4)) && Decoded(s, i + 4) == Done(r)
    ensures Decoded(s, i) == Done(Bytes(Triplet(s, i, 4), 4) + r)
  {
  }

  lemma Last(s: seq<bv8>, i: nat, k: nat)
    requires k < 4 && i + k == |s| && !Overflow(Triplet(s, i, k))
    ensures Decoded(s, i) == Done(Bytes(Triplet(s, i, k), k))
  {
  }

  lemma EncodedIs(a: Alphabet, x: seq<bv8>)
    ensures x == [] ==> Encoded(a, x) == []
    ensures |x| == 1 ==> Encoded(a, x) == Quad(a, x[0], 0, 0)[..2]
    ensures |x| == 2 ==> Encoded(a, x) == Quad(a, x[0], x[1], 0)[..3]
    ensures |x| >= 3 ==> Encoded(a, x) == Quad(a, x[0], x[1], x[2]) + Encoded(a, x[3..])
  {
    hide Quad;
  }

  /** Decoding gives back what was encoded, with either alphabet. */
  lemma {:induction false} RoundTrip(a: Alphabet, x: seq<bv8>, before: seq<bv8>)
    ensures Decoded(before + Encoded(a, x), |before|) == Done(x)
  {
    hide *;
    var e := Encoded(a, x);
    EncodedIs(a, x);
    var s, i := before + e, |before|;
    if x == [] {
      assert s == before;
      Nothing(s);
    } else if |x| == 1 {
      assert s[i..i + 2] == e;
      GroupBack(a, x[0], 0, 0, s, i, 2);
      Last(s, i, 2);
      assert [x[0], 0, 0][..1] == x;
    } else if |x| == 2 {
      assert s[i..i + 3] == e;
      GroupBack(a, x[0], x[1], 0, s, i, 3);
      Last(s, i, 3);
      assert [x[0], x[1], 0][..2] == x;
    } else {
      var q, rest := Quad(a, x[0], x[1], x[2]), Encoded(a, x[3..]);
      assert s == before + q + rest && s[i..i + 4] == q && q[..4] == q;
      GroupBack(a, x[0], x[1], x[2], s, i, 4);
      RoundTrip(a, x[3..], before + q);
      OneMore(s, i, x[3..]);
      assert [x[0], x[1], x[2]][..3] + x[3..] == x;
    }
  }

  // What any string of known symbols decodes to.

  lemma JoinBits0(p: bv32, q: bv32, r: bv32, s: bv32)
    requires p < 64 && q < 64 && r < 64 && s < 64
    ensures ((((((0 | p) | (q << 6)) | (r << 12)) | (s << 18)) & 0xFF) as bv8) & 1 != 0 <==> p & 1 != 0
    ensures ((((((0 | p) | (q << 6)) | (r << 12)) | (s << 18)) & 0xFF) as bv8) & 2 != 0 <==> p & 2 != 0
    ensures ((((((0 | p) | (q << 6)) | (r << 12)) | (s << 18)) & 0xFF) as bv8) & 4 != 0 <==> p & 4 != 0
    ensures ((((((0 | p) | (q << 6)) | (r << 12)) | (s << 18)) & 0xFF) as bv8) & 8 != 0 <==> p & 8 != 0
    ensures ((((((0 | p) | (q << 6)) | (r << 12)) | (s << 18)) & 0xFF) as bv8) & 16 != 0 <==> p & 16 != 0
    ensures ((((((0 | p) | (q << 6)) | (r << 12)) | (s << 18)) & 0xFF) as bv8) & 32 != 0 <==> p & 32 != 0
    ensures ((((((0 | p) | (q << 6)) | (r << 12)) | (s << 18)) & 0xFF) as bv8) & 64 != 0 <==> q & 1 != 0
    ensures ((((((0 | p) | (q << 6)) | (r << 12)) | (s << 18)) & 0xFF) as bv8) & 128 != 0 <==> q & 2 != 0
  {
  }

  lemma JoinBits1(p: bv32, q: bv32, r: bv32, s: bv32)
    requires p < 64 && q < 64 && r < 64 && s < 64
    ensures (((((((0 | p) | (q << 6)) | (r << 12)) | (s << 18)) >> 8) & 0xFF) as bv8) & 1 != 0 <==> q & 4 != 0
    ensures (((((((0 | p) | (q << 6)) | (r << 12)) | (s << 18)) >> 8) & 0xFF) as bv8) & 2 != 0 <==> q & 8 != 0
    ensures (((((((0 | p) | (q << 6)) | (r << 12)) | (s << 18)) >> 8) & 0xFF) as bv8) & 4 != 0 <==> q & 16 != 0
    ensures (((((((0 | p) | (q << 6)) | (r << 12)) | (s << 18)) >> 8) & 0xFF) as bv8) & 8 != 0 <==> q & 32 != 0
    ensures (((((((0 | p) | (q << 6)) | (r << 12)) | (s << 18)) >> 8) & 0xFF) as bv8) & 16 != 0 <==> r & 1 != 0
    ensures (((((((0 | p) | (q << 6)) | (r << 12)) | (s << 18)) >> 8) & 0xFF) as bv8) & 32 != 0 <==> r & 2 != 0
    ensures (((((((0 | p) | (q << 6)) | (r << 12)) | (s << 18)) >> 8) & 0xFF) as bv8) & 64 != 0 <==> r & 4 != 0
    ensures (((((((0 | p) | (q << 6)) | (r << 12)) | (s << 18)) >> 8) & 0xFF) as bv8) & 128 != 0 <==> r & 8 != 0
  {
  }

  lemma JoinBits2(p: bv32, q: bv32, r: bv32, s: bv32)
    requires p < 64 && q < 64 && r < 64 && s < 64
    ensures (((((((0 | p) | (q << 6)) | (r << 12)) | (s << 18)) >> 16) & 0xFF) as bv8) & 1 != 0 <==> r & 16 != 0
    ensures (((((((0 | p) | (q << 6)) | (r << 12)) | (s << 18)) >> 16) & 0xFF) as bv8) & 2 != 0 <==> r & 32 != 0
    ensures (((((((0 | p) | (q << 6)) | (r << 12)) | (s << 18)) >> 16) & 0xFF) as bv8) & 4 != 0 <==> s & 1 != 0
    ensures (((((((0 | p) | (q << 6)) | (r << 12)) | (s << 18)) >> 16) & 0xFF) as bv8) & 8 != 0 <==> s & 2 != 0
    ensures (((((((0 | p) | (q << 6)) | (r << 12)) | (s << 18)) >> 16) & 0xFF) as bv8) & 16 != 0 <==> s & 4 != 0
    ensures (((((((0 | p) | (q << 6)) | (r << 12)) | (s << 18)) >> 16) & 0xFF) as bv8) & 32 != 0 <==> s & 8 != 0
    ensures (((((((0 | p) | (q << 6)) | (r << 12)) | (s << 18)) >> 16) & 0xFF) as bv8) & 64 != 0 <==> s & 16 != 0
    ensures (((((((0 | p) | (q << 6)) | (r << 12)) | (s << 18)) >> 16) & 0xFF) as bv8) & 128 != 0 <==> s & 32 != 0
  {
  }

  lemma ByteOf0(v: seq<bv32>)
    requires |v| == 4 && v[0] < 64 && v[1] < 64 && v[2] < 64 && v[3] < 64
    ensures ByteBit(Byte(Joined(v, 4), 0), 0) <==> SymbolBit(v[0], 0)
    ensures ByteBit(Byte(Joined(v, 4), 0), 1) <==> SymbolBit(v[0], 1)
    ensures ByteBit(Byte(Joined(v, 4), 0), 2) <==> SymbolBit(v[0], 2)
    ensures ByteBit(Byte(Joined(v, 4), 0), 3) <==> SymbolBit(v[0], 3)
    ensures ByteBit(Byte(Joined(v, 4), 0), 4) <==> SymbolBit(v[0], 4)
    ensures ByteBit(Byte(Joined(v, 4), 0), 5) <==> SymbolBit(v[0], 5)
    ensures ByteBit(Byte(Joined(v, 4), 0), 6) <==> SymbolBit(v[1], 0)
    ensures ByteBit(Byte(Joined(v, 4), 0), 7) <==> SymbolBit(v[1], 1)
  {
    hide *;
    JoinBits0(v[0], v[1], v[2], v[3]);
    JoinedIs(v, 4);
    ByteIs(Joined(v, 4));
    ByteBits(Byte(Joined(v, 4), 0));
    SymbolBits(v[0]);
    SymbolBits(v[1]);
  }

  lemma ByteOf1(v: seq<bv32>)
    requires |v| == 4 && v[0] < 64 && v[1] < 64 && v[2] < 64 && v[3] < 64
    ensures ByteBit(Byte(Joined(v, 4), 1), 0) <==> SymbolBit(v[1], 2)
    ensures ByteBit(Byte(Joined(v, 4), 1), 1) <==> SymbolBit(v[1], 3)
    ensures ByteBit(Byte(Joined(v, 4), 1), 2) <==> SymbolBit(v[1], 4)
    ensures ByteBit(Byte(Joined(v, 4), 1), 3) <==> SymbolBit(v[1], 5)
    ensures ByteBit(Byte(Joined(v, 4), 1), 4) <==> SymbolBit(v[2], 0)
    ensures ByteBit(Byte(Joined(v, 4), 1), 5) <==> SymbolBit(v[2], 1)
    ensures ByteBit(Byte(Joined(v, 4), 1), 6) <==> SymbolBit(v[2], 2)
    ensures ByteBit(Byte(Joined(v, 4), 1), 7) <==> SymbolBit(v[2], 3)
  {
    hide *;
    JoinBits1(v[0], v[1], v[2], v[3]);
    JoinedIs(v, 4);
    ByteIs(Joined(v, 4));
    ByteBits(Byte(Joined(v, 4), 1));
    SymbolBits(v[1]);
    SymbolBits(v[2]);
  }

  lemma ByteOf2(v: seq<bv32>)
    requires |v| == 4 && v[0] < 64 && v[1] < 64 && v[2] < 64 && v[3] < 64
    ensures ByteBit(Byte(Joined(v, 4), 2), 0) <==> SymbolBit(v[2], 4)
    ensures ByteBit(Byte(Joined(v, 4), 2), 1) <==> SymbolBit(v[2], 5)
    ensures ByteBit(Byte(Joined(v, 4), 2), 2) <==> SymbolBit(v[3], 0)
    ensures ByteBit(Byte(Joined(v, 4), 2), 3) <==> SymbolBit(v[3], 1)
    ensures ByteBit(Byte(Joined(v, 4), 2), 4) <==> SymbolBit(v[3], 2)
    ensures ByteBit(Byte(Joined(v, 4), 2), 5) <==> SymbolBit(v[3], 3)
    ensures ByteBit(Byte(Joined(v, 4), 2), 6) <==> SymbolBit(v[3], 4)
    ensures ByteBit(Byte(Joined(v, 4), 2), 7) <==> SymbolBit(v[3], 5)
  {
    hide *;
    JoinBits2(v[0], v[1], v[2], v[3]);
    JoinedIs(v, 4);
    ByteIs(Joined(v, 4));
    ByteBits(Byte(Joined(v, 4), 2));
    SymbolBits(v[2]);
    SymbolBits(v[3]);
  }

  lemma ByteIs(t: bv32)
    ensures Byte(t, 0) == (t & 0xFF) as bv8 && Byte(t, 1) == ((t >> 8) & 0xFF) as bv8 && Byte(t, 2) == ((t >> 16) & 0xFF) as bv8
  {
  }

  predicate Small(v: seq<bv32>) { |v| == 4 && v[0] < 64 && v[1] < 64 && v[2] < 64 && v[3] < 64 }

  lemma JoinedBit0(v: seq<bv32>, i: nat)
    requires Small(v) && 0 <= i < 8
    ensures ByteBit(Byte(Joined(v, 4), 0), i % 8) <==> SymbolBit(v[i / 6], i % 6)
  {
    ByteOf0(v);
    hide *;
    if i == 0 {
      assert i % 8 == 0 && i / 6 == 0 && i % 6 == 0;
    } else if i == 1 {
      assert i % 8 == 1 && i / 6 == 0 && i % 6 == 1;
    } else if i == 2 {
      assert i % 8 == 2 && i / 6 == 0 && i % 6 == 2;
    } else if i == 3 {
      assert i % 8 == 3 && i / 6 == 0 && i % 6 == 3;
    } else if i == 4 {
      assert i % 8 == 4 && i / 6 == 0 && i % 6 == 4;
    } else if i == 5 {
      assert i % 8 == 5 && i / 6 == 0 && i % 6 == 5;
    } else if i == 6 {
      assert i % 8 == 6 && i / 6 == 1 && i % 6 == 0;
    } else if i == 7 {
      assert i % 8 == 7 && i / 6 == 1 && i % 6 == 1;
    }
  }

  lemma JoinedBit1(v: seq<bv32>, i: nat)
    requires Small(v) && 8 <= i < 16
    ensures ByteBit(Byte(Joined(v, 4), 1), i % 8) <==> SymbolBit(v[i / 6], i % 6)
  {
    ByteOf1(v);
    hide *;
    if i == 8 {
      assert i % 8 == 0 && i / 6 == 1 && i % 6 == 2;
    } else if i == 9 {
      assert i % 8 == 1 && i / 6 == 1 && i % 6 == 3;
    } else if i == 10 {
      assert i % 8 == 2 && i / 6 == 1 && i % 6 == 4;
    } else if i == 11 {
      assert i % 8 == 3 && i / 6 == 1 && i % 6 == 5;
    } else if i == 12 {
      assert i % 8 == 4 && i / 6 == 2 && i % 6 == 0;
    } else if i == 13 {
      assert i % 8 == 5 && i / 6 == 2 && i % 6 == 1;
    } else if i == 14 {
      assert i % 8 == 6 && i / 6 == 2 && i % 6 == 2;
    } else if i == 15 {
      assert i % 8 == 7 && i / 6 == 2 && i % 6 == 3;
    }
  }

  lemma JoinedBit2(v: seq<bv32>, i: nat)
    requires Small(v) && 16 <= i < 24
    ensures ByteBit(Byte(Joined(v, 4), 2), i % 8) <==> SymbolBit(v[i / 6], i % 6)
  {
    ByteOf2(v);
    hide *;
    if i == 16 {
      assert i % 8 == 0 && i / 6 == 2 && i % 6 == 4;
    } else if i == 17 {
      assert i % 8 == 1 && i / 6 == 2 && i % 6 == 5;
    } else if i == 18 {
      assert i % 8 == 2 && i / 6 == 3 && i % 6 == 0;
    } else if i == 19 {
      assert i % 8 == 3 && i / 6 == 3 && i % 6 == 1;
    } else if i == 20 {
      assert i % 8 == 4 && i / 6 == 3 && i % 6 == 2;
    } else if i == 21 {
      assert i % 8 == 5 && i / 6 == 3 && i % 6 == 3;
    } else if i == 22 {
      assert i % 8 == 6 && i / 6 == 3 && i % 6 == 4;
    } else if i == 23 {
      assert i % 8 == 7 && i / 6 == 3 && i % 6 == 5;
    }
  }

  lemma JoinedBit(v: seq<bv32>, i: nat)
    requires Small(v) && i < 24
    ensures ByteBit(Byte(Joined(v, 4), i / 8), i % 8) <==> SymbolBit(v[i / 6], i % 6)
  {
    hide Byte;
    hide Joined;
    hide ByteBit;
    hide SymbolBit;
    if i < 8 {
      JoinedBit0(v, i);
    } else if i < 16 {
      JoinedBit1(v, i);
    } else {
      JoinedBit2(v, i);
    }
  }

  /** The values of k symbols from place i on, and zeros. */
  function Values(s: seq<bv8>, i: nat, k: nat): (v: seq<bv32>)
    requires k <= 4 && i + k <= |s|
    ensures |v| == 4
  {
    seq(4, j requires 0 <= j < 4 => if j < k then Value(s[i + j]) else 0)
  }

  lemma OrZero(t: bv32, k: nat)
    requires k < 4
    ensures Or(t, Shifted(0, k)) == t
  {
  }

  lemma ZerosJoin(v: seq<bv32>, k: nat)
    requires 2 <= k <= 4 && |v| == 4 && (k < 4 ==> v[3] == 0) && (k < 3 ==> v[2] == 0)
    ensures Joined(v, k) == Joined(v, 4)
  {
    hide Or;
    hide Shifted;
    var two := Joined(v, 2);
    if k == 2 {
      OrZero(two, 2);
      OrZero(two, 3);
    } else if k == 3 {
      OrZero(Joined(v, 3), 3);
    }
  }

  lemma ValueSmall(s: seq<bv8>, i: nat, k: nat, j: nat)
    requires k <= 4 && i + k <= |s| && j < 4 && forall j :: i <= j < i + k ==> Known(s[j])
    ensures Values(s, i, k)[j] < 64 && (j < k ==> Values(s, i, k)[j] == Value(s[i + j])) && (j >= k ==> Values(s, i, k)[j] == 0)
  {
    if j < k {
      assert Known(s[i + j]);
      KnownFits(s[i + j]);
    }
    hide Value;
    hide Known;
  }

  lemma TripletJoins(s: seq<bv8>, i: nat, k: nat)
    requires 2 <= k <= 4 && i + k <= |s| && forall j :: i <= j < i + k ==> Known(s[j])
    ensures Triplet(s, i, k) == Joined(Values(s, i, k), 4) && Small(Values(s, i, k))
  {
    hide *;
    var v := Values(s, i, k);
    ValueSmall(s, i, k, 0);
    ValueSmall(s, i, k, 1);
    ValueSmall(s, i, k, 2);
    ValueSmall(s, i, k, 3);
    SmallBy(v);
    forall j | 0 <= j < k
      ensures Value(s[i + j]) == v[j]
    {
      ValueSmall(s, i, k, j);
    }
    TripletIs(s, i, v, k);
    ZerosJoin(v, k);
  }

  lemma SmallBy(v: seq<bv32>)
    requires |v| == 4 && v[0] < 64 && v[1] < 64 && v[2] < 64 && v[3] < 64
    ensures Small(v)
  {
  }

  lemma GroupBit(s: seq<bv8>, i: nat, k: nat, n: nat)
    requires 2 <= k <= 4 && i + k <= |s| && (forall j :: i <= j < i + k ==> Known(s[j])) && n < 8 * (k - 1)
    ensures n / 8 < k - 1 && n / 6 < k
    ensures ByteBit(Bytes(Triplet(s, i, k), k)[n / 8], n % 8) <==> SymbolBit(Value(s[i + n / 6]), n % 6)
  {
    TripletJoins(s, i, k);
    JoinedBit(Values(s, i, k), n);
    hide Triplet;
    hide Byte;
    hide ByteBit;
    hide SymbolBit;
    hide Value;
    hide Joined;
    hide Known;
    assert Bytes(Triplet(s, i, k), k)[n / 8] == Byte(Triplet(s, i, k), n / 8);
  }

  /** Decoding any known symbols, encoded or not: their bits, six from each and least
      significant first, as far as they fill bytes. A single symbol left over is dropped. */
  lemma {:induction false} DecodedBits(s: seq<bv8>, i: nat)
    requires i <= |s| && forall j :: i <= j < |s| ==> Known(s[j])
    ensures var r, rest := Decoded(s, i), (|s| - i) % 4;
            && r.Done? && |r.bytes| == (|s| - i) / 4 * 3 + (if rest < 2 then 0 else rest - 1)
            && forall n :: 0 <= n < 8 * |r.bytes| ==> SameBit(r.bytes, s, i, n)
    decreases |s| - i
  {
    hide *;
    var k := if |s| - i < 4 then |s| - i else 4;
    TripletFits(s, i, k);
    BytesCount(Triplet(s, i, k), k);
    forall n: nat | 2 <= k && n < 8 * (k - 1)
      ensures SameBit(Bytes(Triplet(s, i, k), k), s, i, n)
    {
      GroupBit(s, i, k, n);
      FoldBit(Bytes(Triplet(s, i, k), k), s, i, n);
    }
    if k < 4 {
      Last(s, i, k);
    } else {
      DecodedBits(s, i + 4);
      var rest := Decoded(s, i + 4).bytes;
      OneMore(s, i, rest);
      forall n: nat | n < 8 * (3 + |rest|)
        ensures SameBit(Bytes(Triplet(s, i, 4), 4) + rest, s, i, n)
      {
        ShiftBit(Bytes(Triplet(s, i, 4), 4), rest, s, i, n);
      }
    }
  }

  /** Bit n of the bytes is bit n of the symbols from place i on. */
  ghost predicate SameBit(r: seq<bv8>, s: seq<bv8>, i: nat, n: nat) {
    n / 8 < |r| && i + n / 6 < |s| && (ByteBit(r[n / 8], n % 8) <==> SymbolBit(Value(s[i + n / 6]), n % 6))
  }

  lemma FoldBit(r: seq<bv8>, s: seq<bv8>, i: nat, n: nat)
    requires n / 8 < |r| && i + n / 6 < |s| && (ByteBit(r[n / 8], n % 8) <==> SymbolBit(Value(s[i + n / 6]), n % 6))
    ensures SameBit(r, s, i, n)
  {
  }

  lemma BytesCount(t: bv32, k: nat)
    requires k <= 4
    ensures |Bytes(t, k)| == if k < 2 then 0 else k - 1
  {
  }

  lemma ShiftBit(a: seq<bv8>, r: seq<bv8>, s: seq<bv8>, i: nat, n: nat)
    requires |a| == 3 && n < 8 * (3 + |r|)
    requires n < 24 ==> SameBit(a, s, i, n)
    requires n >= 24 ==> SameBit(r, s, i + 4, n - 24)
    ensures SameBit(a + r, s, i, n)
  {
    hide ByteBit;
    hide SymbolBit;
    hide Value;
    if n >= 24 {
      var m := n - 24;
      assert n / 8 == 3 + m / 8 && n % 8 == m % 8 && n / 6 == 4 + m / 6 && n % 6 == m % 6;
      assert (a + r)[n / 8] == r[m / 8];
    }
  }

  // The code: one buffer may be both source and destination.

  function Low6(t: bv32): (v: bv32)
    ensures v < 64
  {
    t & 63
  }

  function Next(t: bv32): (r: bv32) { t >> 6 }

  lemma StepBits(t: bv32)
    requires t < 0x100_0000
    ensures ((t >> 6) >> 6) & 63 == (t >> 12) & 63 && ((t >> 6) >> 6) >> 6 == (t >> 18) & 63
    ensures t < 0x1_0000 ==> (t >> 6) >> 6 == (t >> 12) & 63
    ensures t < 0x100 ==> t >> 6 == (t >> 6) & 63
  {
  }

  lemma Steps(t: bv32)
    requires t < 0x100_0000
    ensures Low6(t) == Piece(t, 0) && Low6(Next(t)) == Piece(t, 1) && Low6(Next(Next(t))) == Piece(t, 2)
    ensures Next(Next(Next(t))) == Piece(t, 3)
    ensures t < 0x1_0000 ==> Next(Next(t)) == Piece(t, 2)
    ensures t < 0x100 ==> Next(t) == Piece(t, 1)
  {
    StepBits(t);
    PieceIs(t);
    assert Low6(t) == t & 63 && Next(t) == t >> 6 && Low6(t >> 6) == (t >> 6) & 63;
    assert Next(t >> 6) == (t >> 6) >> 6 && Low6((t >> 6) >> 6) == ((t >> 6) >> 6) & 63;
    assert Next((t >> 6) >> 6) == ((t >> 6) >> 6) >> 6;
    hide *;
  }

  /** What the symbols are made of. */
  lemma Pick(a: Alphabet, x: bv8, y: bv8, z: bv8, count: nat)
    requires 2 <= count <= 4 && (count < 4 ==> z == 0) && (count < 3 ==> y == 0)
    ensures var t, q := Pack3(x, y, z), Quad(a, x, y, z);
            && q[0] == Symbol(a, Low6(t))
            && (if count == 2 then Next(t) < 64 && q[1] == Symbol(a, Next(t)) else q[1] == Symbol(a, Low6(Next(t))))
            && (count == 3 ==> Next(Next(t)) < 64 && q[2] == Symbol(a, Next(Next(t))))
            && (count == 4 ==> q[2] == Symbol(a, Low6(Next(Next(t)))) && Next(Next(Next(t))) < 64 && q[3] == Symbol(a, Next(Next(Next(t)))))
  {
    var t, q := Pack3(x, y, z), Quad(a, x, y, z);
    assert q[0] == Symbol(a, Piece(t, 0)) && q[1] == Symbol(a, Piece(t, 1)) && q[2] == Symbol(a, Piece(t, 2)) && q[3] == Symbol(a, Piece(t, 3));
    hide *;
    PackFits(x, y, z);
    Steps(t);
  }

  /** The first count symbols of a triplet; the last one takes all the bits that are left. */
  method Put(dst: array<bv8>, di: nat, a: Alphabet, x: bv8, y: bv8, z: bv8, count: nat)
    requires 2 <= count <= 4 && (count < 4 ==> z == 0) && (count < 3 ==> y == 0) && di + count <= dst.Length
    modifies dst
    ensures dst[di..di + count] == Quad(a, x, y, z)[..count]
    ensures forall k :: 0 <= k < dst.Length && (k < di || di + count <= k) ==> dst[k] == old(dst[k])
  {
    hide *;
    Pick(a, x, y, z, count);
    var triplet := Pack3(x, y, z);
    dst[di] := Symbol(a, Low6(triplet));
    triplet := Next(triplet);
    if count == 2 {
      dst[di + 1] := Symbol(a, triplet);
      return;
    }
    dst[di + 1] := Symbol(a, Low6(triplet));
    triplet := Next(triplet);
    if count == 3 {
      dst[di + 2] := Symbol(a, triplet);
      return;
    }
    dst[di + 2] := Symbol(a, Low6(triplet));
    triplet := Next(triplet);
    dst[di + 3] := Symbol(a, triplet);
  }

  /** b64encode_tinc and b64encode_tinc_urlsafe. */
  method Encode(src: array<bv8>, dst: array<bv8>, length: nat, a: Alphabet) returns (n: nat)
    requires length <= src.Length && |Encoded(a, src[..length])| < dst.Length
    modifies dst
    ensures n < dst.Length && dst[..n] == Encoded(a, old(src[..length])) && dst[n] == 0
    ensures forall k :: n < k < dst.Length ==> dst[k] == old(dst[k])
  {
    hide *;
    ghost var x := src[..length];
    ghost var g := length / 3;
    var si, di := length / 3 * 3, length / 3 * 4;
    n := Tail(src, dst, length, a, si, di);
    while si > 0
      invariant 0 <= si == 3 * g <= length && di == 4 * g <= n < dst.Length
      invariant dst[di..n] == Encoded(a, x[si..]) && dst[n] == 0
      invariant forall k :: 0 <= k < si ==> src[k] == x[k]
      invariant forall k :: n < k < dst.Length ==> dst[k] == old(dst[k])
    {
      di, si, g := di - 4, si - 3, g - 1;
      Group(src, dst, a, si, di, n, x);
    }
    assert x[0..] == x && dst[0..n] == dst[..n];
  }

  /** One complete group, in front of what is already there. */
  method Group(src: array<bv8>, dst: array<bv8>, a: Alphabet, si: nat, di: nat, ghost n: nat, ghost x: seq<bv8>)
    requires si + 3 <= |x| && |x| <= src.Length && (forall k :: 0 <= k < si + 3 ==> src[k] == x[k])
    requires di + 4 <= n < dst.Length && dst[di + 4..n] == Encoded(a, x[si + 3..])
    modifies dst
    ensures dst[di..n] == Encoded(a, x[si..])
    ensures forall k :: 0 <= k < dst.Length && (k < di || n <= k) ==> dst[k] == old(dst[k])
  {
    hide *;
    Put(dst, di, a, src[si], src[si + 1], src[si + 2], 4);
    assert dst[di + 4..n] == old(dst[di + 4..n]);
    assert dst[di..n] == dst[di..di + 4] + dst[di + 4..n];
    GroupIs(a, x, si);
  }

  /** The last, incomplete group and the terminator. */
  method Tail(src: array<bv8>, dst: array<bv8>, length: nat, a: Alphabet, si: nat, di: nat) returns (n: nat)
    requires length <= src.Length && |Encoded(a, src[..length])| < dst.Length && si == length / 3 * 3 && di == length / 3 * 4
    modifies dst
    ensures di <= n < dst.Length && dst[di..n] == Encoded(a, old(src[si..length])) && dst[n] == 0
    ensures forall k :: 0 <= k < dst.Length && (k < di || n < k) ==> dst[k] == old(dst[k])
  {
    hide Quad;
    TailIs(a, src[..length], si);
    EncodedLength(a, src[..length]);
    assert src[..length][si..] == src[si..length];
    hide Encoded;
    if length % 3 == 2 {
      Put(dst, di, a, src[si], src[si + 1], 0, 3);
      dst[di + 3] := 0;
      n := di + 3;
    } else if length % 3 == 1 {
      Put(dst, di, a, src[si], 0, 0, 2);
      dst[di + 2] := 0;
      n := di + 2;
    } else {
      dst[di] := 0;
      n := di;
    }
  }

  lemma TailIs(a: Alphabet, x: seq<bv8>, si: nat)
    requires si == |x| / 3 * 3
    ensures |x| % 3 == 0 ==> Encoded(a, x[si..]) == []
    ensures |x| % 3 == 1 ==> Encoded(a, x[si..]) == Quad(a, x[si], 0, 0)[..2]
    ensures |x| % 3 == 2 ==> Encoded(a, x[si..]) == Quad(a, x[si], x[si + 1], 0)[..3]
  {
    hide Quad;
  }

  lemma GroupIs(a: Alphabet, x: seq<bv8>, si: nat)
    requires si + 3 <= |x|
    ensures Encoded(a, x[si..]) == Quad(a, x[si], x[si + 1], x[si + 2]) + Encoded(a, x[si + 3..])
    ensures Quad(a, x[si], x[si + 1], x[si + 2])[..4] == Quad(a, x[si], x[si + 1], x[si + 2])
  {
    hide Quad;
    assert x[si..][3..] == x[si + 3..];
  }

  /** The string in a buffer: everything before the first zero byte. */
  function Text(s: seq<bv8>): (t: seq<bv8>)
    ensures |t| <= |s| && t == s[..|t|] && (|t| < |s| ==> s[|t|] == 0) && (forall i :: 0 <= i < |t| ==> t[i] != 0)
  {
    if s == [] || s[0] == 0 then [] else [s[0]] + Text(s[1..])
  }

  /** How many bytes a string of this length may decode to. */
  function Room(n: nat): (r: nat) { n / 4 * 3 + (if n % 4 < 2 then 0 else n % 4 - 1) }

  /** What comes out if these bytes come first. */
  function After(b: seq<bv8>, r: Result): (q: Result) { if r == Fail then Fail else Done(b + r.bytes) }

  lemma AfterMore(s: seq<bv8>, i: nat, b: seq<bv8>)
    requires i + 4 <= |s|
    ensures var t := Triplet(s, i, 4);
            After(b, Decoded(s, i)) == if Overflow(t) then Fail else After(b + Bytes(t, 4), Decoded(s, i + 4))
  {
    hide Triplet;
    hide Overflow;
    hide Bytes;
    var t, rest := Triplet(s, i, 4), Decoded(s, i + 4);
    if rest.Done? {
      assert b + (Bytes(t, 4) + rest.bytes) == (b + Bytes(t, 4)) + rest.bytes;
    }
  }

  lemma AfterLast(s: seq<bv8>, i: nat, k: nat, b: seq<bv8>)
    requires k < 4 && i + k == |s|
    ensures After(b, Decoded(s, i)) == if Overflow(Triplet(s, i, k)) then Fail else Done(b + Bytes(Triplet(s, i, k), k))
  {
  }

  lemma TripletMore(s: seq<bv8>, i: nat, k: nat)
    requires k < 4 && i + k < |s|
    ensures Triplet(s, i, 0) == 0
    ensures Triplet(s, i, k + 1) == Or(Triplet(s, i, k), Shifted(Value(s[i + k]), k))
  {
    hide Value;
    hide Shifted;
    hide Or;
  }

  /** b64decode_tinc: zero if a symbol is unknown, and otherwise the length of what the
      string stands for. */
  method Decode(src: array<bv8>, dst: array<bv8>, length: nat) returns (n: nat)
    requires length <= src.Length && Room(|Text(src[..length])|) <= dst.Length
    modifies dst
    ensures Returned(Decoded(Text(old(src[..length])), 0), n, dst[..])
  {
    ghost var s := Text(src[..length]);
    assert forall j :: 0 <= j < |s| ==> src[j] == s[j] && s[j] != 0;
    assert |s| < length ==> src[|s|] == 0;
    assert After([], Decoded(s, 0)) == Decoded(s, 0);
    hide *;
    var i, o: nat, triplet: bv32 := 0, 0, 0;
    ghost var g, k := 0, 0;
    TripletZero(s, 0);
    assert dst[..0] == [];
    while i < length && src[i] != 0
      invariant 0 <= i == 4 * g + k <= |s| <= length && 0 <= k < 4 && o == 3 * g <= dst.Length
      invariant triplet == Triplet(s, 4 * g, k)
      invariant Decoded(s, 0) == After(dst[..o], Decoded(s, 4 * g))
      invariant forall j :: i <= j < length ==> src[j] == old(src[j])
    {
      var bad;
      triplet, o, bad := Take(src[i], dst, i, o, triplet, s, g, k);
      if bad {
        ReturnedFail(dst[..]);
        return 0;
      }
      g, k := if k == 3 then g + 1 else g, if k == 3 then 0 else k + 1;
      i := i + 1;
    }
    n := Finish(dst, i, o, triplet, s, g, k);
  }

  /** One symbol; the fourth one of a group completes three bytes. */
  method Take(c: bv8, dst: array<bv8>, i: nat, o: nat, t: bv32, ghost s: seq<bv8>, ghost g: nat, ghost k: nat)
    returns (triplet: bv32, o': nat, bad: bool)
    requires i == 4 * g + k < |s| && k < 4 && o == 3 * g && c == s[i] && t == Triplet(s, 4 * g, k) && Room(|s|) <= dst.Length
    requires o <= dst.Length && Decoded(s, 0) == After(dst[..o], Decoded(s, 4 * g))
    modifies dst
    ensures if bad then Decoded(s, 0) == Fail
            else var g', k' := if k == 3 then g + 1 else g, if k == 3 then 0 else k + 1;
                 && o' == 3 * g' <= dst.Length && triplet == Triplet(s, 4 * g', k')
                 && Decoded(s, 0) == After(dst[..o'], Decoded(s, 4 * g'))
                 && (forall j :: o' <= j < dst.Length ==> dst[j] == old(dst[j]))
  {
    hide *;
    TripletMore(s, 4 * g, k);
    RoomFits(|s|, g, k);
    triplet, o', bad := Or(t, Shifted(Value(c), i % 4)), o, false;
    if i % 4 == 3 {
      AfterMore(s, 4 * g, dst[..o]);
      if Overflow(triplet) {
        bad := true;
        return;
      }
      Store(dst, o, triplet, 4);
      triplet, o' := 0, o + 3;
      TripletZero(s, 4 * (g + 1));
    }
  }

  /** The last, incomplete group. */
  method Finish(dst: array<bv8>, i: nat, o: nat, triplet: bv32, ghost s: seq<bv8>, ghost g: nat, ghost k: nat) returns (n: nat)
    requires i == 4 * g + k == |s| && k < 4 && o == 3 * g && triplet == Triplet(s, 4 * g, k) && Room(|s|) <= dst.Length
    requires o <= dst.Length && Decoded(s, 0) == After(dst[..o], Decoded(s, 4 * g))
    modifies dst
    ensures Returned(Decoded(s, 0), n, dst[..])
  {
    hide *;
    RoomFits(|s|, g, k);
    AfterLast(s, 4 * g, k, dst[..o]);
    if Overflow(triplet) {
      ReturnedFail(dst[..]);
      return 0;
    }
    Store(dst, o, triplet, i % 4);
    n := if i % 4 == 3 then i / 4 * 3 + 2 else if i % 4 == 2 then i / 4 * 3 + 1 else i / 4 * 3;
    assert dst[..][..n] == dst[..n];
    ReturnedDone(dst[..n], n, dst[..]);
  }

  /** The return value and the buffer tell the result. */
  predicate Returned(r: Result, n: nat, dst: seq<bv8>) {
    match r
    case Fail => n == 0
    case Done(b) => n == |b| <= |dst| && dst[..n] == b
  }

  lemma ReturnedFail(dst: seq<bv8>)
    ensures Returned(Fail, 0, dst)
  {
  }

  lemma ReturnedDone(b: seq<bv8>, n: nat, dst: seq<bv8>)
    requires n == |b| <= |dst| && dst[..n] == b
    ensures Returned(Done(b), n, dst)
  {
  }

  /** The bytes of k symbols, at place o. */
  method Store(dst: array<bv8>, o: nat, triplet: bv32, k: nat)
    requires k <= 4 && o + |Bytes(triplet, k)| <= dst.Length
    modifies dst
    ensures dst[..o + |Bytes(triplet, k)|] == old(dst[..o]) + Bytes(triplet, k)
    ensures forall j :: o + |Bytes(triplet, k)| <= j < dst.Length ==> dst[j] == old(dst[j])
  {
    hide *;
    BytesAt(triplet);
    if k >= 2 {
      dst[o] := Byte(triplet, 0);
    }
    if k >= 3 {
      dst[o + 1] := Byte(triplet, 1);
    }
    if k == 4 {
      dst[o + 2] := Byte(triplet, 2);
    }
  }

  lemma TripletZero(s: seq<bv8>, i: nat)
    requires i <= |s|
    ensures Triplet(s, i, 0) == 0
  {
  }

  lemma BytesAt(t: bv32)
    ensures Bytes(t, 0) == [] && Bytes(t, 1) == [] && Bytes(t, 2) == [Byte(t, 0)] && Bytes(t, 3) == [Byte(t, 0), Byte(t, 1)]
    ensures Bytes(t, 4) == [Byte(t, 0), Byte(t, 1), Byte(t, 2)]
  {
  }

  lemma RoomFits(n: nat, g: nat, k: nat)
    requires k < 4 && 4 * g + k <= n
    ensures 3 * g + (if k < 2 then 0 else k - 1) <= Room(n) && (4 * g + 4 <= n ==> 3 * g + 3 <= Room(n))
    ensures (4 * g + k) / 4 == g && (4 * g + k) % 4 == k
  {
  }

  lemma {:induction false} EncodedNonZero(a: Alphabet, x: seq<bv8>)
    ensures forall i :: 0 <= i < |Encoded(a, x)| ==> Encoded(a, x)[i] != 0
  {
    hide Symbol;
    hide Piece;
    hide Pack3;
    if |x| >= 3 {
      EncodedNonZero(a, x[3..]);
    }
  }

  lemma {:induction false} TextIs(s: seq<bv8>, rest: seq<bv8>)
    requires forall i :: 0 <= i < |s| ==> s[i] != 0
    ensures Text(s + [0] + rest) == s
  {
    var b := s + [0] + rest;
    if s != [] {
      TextIs(s[1..], rest);
      assert b[1..] == s[1..] + [0] + rest;
    }
  }

  /** Decoding the buffer that an encoding leaves behind gives the bytes back. */
  lemma BufferRoundTrip(a: Alphabet, x: seq<bv8>, rest: seq<bv8>)
    ensures Decoded(Text(Encoded(a, x) + [0] + rest), 0) == Done(x)
  {
    EncodedNonZero(a, x);
    TextIs(Encoded(a, x), rest);
    RoundTrip(a, x, []);
    assert [] + Encoded(a, x) == Encoded(a, x);
    hide *;
  }
}
