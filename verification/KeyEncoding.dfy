/** Column values as index keys. */
module KeyEncoding {
  import opened Wrappers
  import opened ByteCodec
  import opened KeyOrder
  import opened RowFormat

  /** n in w bytes, most significant byte first. */
  function BigEndian(n: nat, w: nat): (b: Bytes)
    ensures |b| == w
  {
    if w == 0 then [] else BigEndian(n / 256, w - 1) + [n % 256]
  }

  function FromBigEndian(b: Bytes): nat {
    if b == [] then 0 else 256 * FromBigEndian(b[..|b| - 1]) + b[|b| - 1]
  }

  function Pow256(w: nat): (p: int)
    ensures p >= 1
  {
    if w == 0 then 1 else 256 * Pow256(w - 1)
  }

  lemma {:induction false} BigEndianRoundTrip(n: nat, w: nat)
    requires n < Pow256(w)
    ensures FromBigEndian(BigEndian(n, w)) == n
  {
    if w > 0 {
      BigEndianRoundTrip(n / 256, w - 1);
      assert BigEndian(n, w)[..w - 1] == BigEndian(n / 256, w - 1);
    }
  }

  /** The top bit of the first byte is the top bit of the number. */
  lemma {:induction false} FirstByte(n: nat, w: nat)
    requires 0 < w && n < Pow256(w)
    ensures BigEndian(n, w)[0] >= 128 <==> n >= 128 * Pow256(w - 1)
  {
    if w > 1 {
      FirstByte(n / 256, w - 1);
    } else {
      assert BigEndian(n, 1) == [n % 256];
    }
  }

  /** Byte strings of one width compare as the numbers they stand for. */
  lemma {:induction false} BigEndianOrder(m: nat, n: nat, w: nat)
    requires m < Pow256(w) && n < Pow256(w)
    ensures Less(BigEndian(m, w), BigEndian(n, w)) <==> m < n
  {
    if w > 0 {
      BigEndianOrder(m / 256, n / 256, w - 1);
      LessSnoc(BigEndian(m / 256, w - 1), m % 256, BigEndian(n / 256, w - 1), n % 256);
      if BigEndian(m / 256, w - 1) == BigEndian(n / 256, w - 1) {
        BigEndianRoundTrip(m / 256, w - 1);
        BigEndianRoundTrip(n / 256, w - 1);
      }
    }
  }

  lemma {:induction false} LessSnoc(a: Bytes, x: Byte, b: Bytes, y: Byte)
    requires |a| == |b|
    ensures Less(a + [x], b + [y]) <==> Less(a, b) || (a == b && x < y)
  {
    if a == [] {
      assert a + [x] == [x] && b + [y] == [y];
    } else {
      assert (a + [x])[1..] == a[1..] + [x] && (b + [y])[1..] == b[1..] + [y];
      assert a == b <==> a[0] == b[0] && a[1..] == b[1..] by {
        assert a == [a[0]] + a[1..] && b == [b[0]] + b[1..];
      }
      LessSnoc(a[1..], x, b[1..], y);
    }
  }

  // ----- flipping bits -----

  /** b ^ 0x80 */
  function FlipTop(b: Byte): Byte {
    if b < 128 then b + 128 else b - 128
  }

  /** ~b & 0xFF */
  function FlipAll(b: Byte): Byte {
    255 - b
  }

  function MapBytes(b: Bytes, f: Byte -> Byte): (c: Bytes)
    ensures |c| == |b| && forall i :: 0 <= i < |b| ==> c[i] == f(b[i])
  {
    seq(|b|, i requires 0 <= i < |b| => f(b[i]))
  }

  lemma FlipTwice(b: Bytes)
    ensures MapBytes(MapBytes(b, FlipTop), FlipTop) == b
    ensures MapBytes(MapBytes(b, FlipAll), FlipAll) == b
  {
  }

  // ----- keys -----

  /** The bytes of an integer as the two's complement pattern of 64 bits. */
  function Pattern(n: int): (m: nat)
    requires IsInt64(n)
    ensures m < U64_LIMIT
  {
    if n < 0 then n + U64_LIMIT else n
  }

  function EncodeInt(n: int): (k: Key)
    requires IsInt64(n)
    ensures |k| == 8
  {
    if n < 0 then MapBytes(BigEndian(Pattern(n), 8), FlipAll) else MapBytes(BigEndian(Pattern(n), 8), FlipTop)
  }

  function Reversed(b: Bytes): (r: Bytes)
    ensures |r| == |b| && forall i :: 0 <= i < |b| ==> r[i] == b[|b| - 1 - i]
  {
    seq(|b|, i requires 0 <= i < |b| => b[|b| - 1 - i])
  }

  // A double as its eight bytes, the sign and the exponent in the last two.

  predicate SignBit(bits: Bytes)
    requires |bits| == 8
  {
    bits[7] >= 128
  }

  predicate AllZero(b: Bytes) {
    forall i :: 0 <= i < |b| ==> b[i] == 0
  }

  /** 0.0 or -0.0 */
  predicate IsZero(bits: Bytes)
    requires |bits| == 8
  {
    bits[7] % 128 == 0 && AllZero(bits[..7])
  }

  predicate IsNaN(bits: Bytes)
    requires |bits| == 8
  {
    bits[7] % 128 == 127 && bits[6] >= 240 && !(bits[6] == 240 && AllZero(bits[..6]))
  }

  /** value < 0, which holds neither of -0.0 nor of any NaN */
  predicate BelowZero(bits: Bytes)
    requires |bits| == 8
  {
    SignBit(bits) && !IsZero(bits) && !IsNaN(bits)
  }

  function EncodeFloat(bits: Bytes): (k: Key)
    requires |bits| == 8
    ensures |k| == 8
  {
    MapBytes(Reversed(bits), if BelowZero(bits) then FlipAll else FlipTop)
  }

  function DecodeFloat(k: Key): (bits: Bytes)
    requires |k| == 8
    ensures |bits| == 8
  {
    Reversed(MapBytes(k, if k[0] >= 128 then FlipTop else FlipAll))
  }

  function EncodeKey(f: Field): (k: Key)
    requires FieldConforms(f, TypeOf(f))
  {
    match f
    case Int(n) => EncodeInt(n)
    case Float(bits) => EncodeFloat(bits)
    case Bool(b) => [if b then 1 else 0]
    case Str(bytes) => BigEndian(|bytes|, 4) + bytes
  }

  function TypeOf(f: Field): ColumnType {
    match f
    case Int(_) => INTEGER
    case Float(_) => FLOAT
    case Str(_) => TEXT
    case Bool(_) => BOOLEAN
  }

  function Unpattern(m: nat): int {
    if m >= 0x8000_0000_0000_0000 then m - U64_LIMIT else m
  }

  function DecodeInt(k: Key): int
    requires |k| == 8
  {
    Unpattern(FromBigEndian(if k[0] >= 128 then MapBytes(k, FlipTop) else MapBytes(k, FlipAll)))
  }

  /** What a key stands for; None stands for the exceptions of keys of the wrong length. */
  function DecodeKey(k: Key, t: ColumnType): Option<Field> {
    match t
    case INTEGER => if |k| == 8 then Some(Int(DecodeInt(k))) else None
    case BOOLEAN => if |k| == 1 then Some(Bool(k[0] != 0)) else None
    case TEXT => if |k| >= 4 then Some(Str(Slice(k, 4, 4 + FromBigEndian(k[..4])))) else None
    case FLOAT => if |k| == 8 then Some(Float(DecodeFloat(k))) else None
  }

  lemma Pow256Eight()
    ensures Pow256(4) == U32_LIMIT && Pow256(8) == U64_LIMIT && Pow256(7) == 0x100_0000_0000_0000
  {
    assert Pow256(2) == 0x1_0000 && Pow256(6) == 0x1_0000_0000_0000;
  }

  /** The top bit of the encoding separates the negative integers from the others. */
  lemma EncodedTop(n: int)
    requires IsInt64(n)
    ensures EncodeInt(n)[0] >= 128 <==> n >= 0
  {
    Pow256Eight();
    FirstByte(Pattern(n), 8);
    hide BigEndian, Pow256;
  }

  lemma IntRoundTrip(n: int)
    requires IsInt64(n)
    ensures DecodeInt(EncodeInt(n)) == n
  {
    Pow256Eight();
    EncodedTop(n);
    FlipTwice(BigEndian(Pattern(n), 8));
    BigEndianRoundTrip(Pattern(n), 8);
    hide BigEndian, FromBigEndian, Pow256, MapBytes;
  }

  /** A double that sorts and decodes by its sign bit: any but -0.0 and the NaNs that have it set. */
  predicate CleanSign(bits: Bytes)
    requires |bits| == 8
  {
    SignBit(bits) ==> BelowZero(bits)
  }

  lemma FloatRoundTripIff(bits: Bytes)
    requires |bits| == 8
    ensures DecodeFloat(EncodeFloat(bits)) == bits <==> CleanSign(bits)
  {
    var raw, k := Reversed(bits), EncodeFloat(bits);
    hide IsZero, IsNaN;
    if CleanSign(bits) {
      FlipTwice(raw);
      assert Reversed(raw) == bits;
    } else {
      assert k[0] == FlipTop(raw[0]) < 128;
      assert DecodeFloat(k)[7] == FlipAll(k[0]) != bits[7];
    }
  }

  /** Values of which a column has a key of their own. */
  predicate KeyValue(f: Field, t: ColumnType) {
    FieldConforms(f, t) && (f.Float? ==> CleanSign(f.bits))
  }

  /** Equality of doubles: no NaN equals anything, and both zeros are equal. */
  predicate FloatEqual(x: Bytes, y: Bytes)
    requires |x| == 8 && |y| == 8
  {
    !IsNaN(x) && !IsNaN(y) && (x == y || (IsZero(x) && IsZero(y)))
  }

  lemma CleanZero(x: Bytes)
    requires |x| == 8 && IsZero(x) && CleanSign(x)
    ensures x == Zeros(8)
  {
    assert x == x[..7] + [x[7]];
    assert forall i :: 0 <= i < 7 ==> x[i] == x[..7][i];
  }

  /** Two doubles with keys of their own, one of them a number, are equal exactly when their keys are. */
  lemma FloatEqualIffKeys(x: Bytes, y: Bytes)
    requires |x| == 8 && |y| == 8 && CleanSign(x) && CleanSign(y) && !IsNaN(y)
    ensures FloatEqual(x, y) <==> EncodeFloat(x) == EncodeFloat(y)
  {
    hide EncodeFloat, DecodeFloat, CleanSign, IsZero, IsNaN;
    FloatRoundTripIff(x);
    FloatRoundTripIff(y);
    if IsZero(x) && IsZero(y) {
      CleanZero(x);
      CleanZero(y);
    }
  }

  /** Decoding undoes encoding, except of -0.0 and the NaNs with a sign. */
  lemma KeyRoundTrip(f: Field, t: ColumnType)
    requires FieldConforms(f, t)
    ensures DecodeKey(EncodeKey(f), t) == Some(f) <==> KeyValue(f, t)
  {
    hide FromBigEndian, BigEndian, EncodeInt, DecodeInt, EncodeFloat, DecodeFloat, CleanSign;
    match f
    case Int(n) => IntRoundTrip(n);
    case Float(bits) => FloatRoundTripIff(bits);
    case Bool(_) =>
    case Str(bytes) =>
      Pow256Eight();
      BigEndianRoundTrip(|bytes|, 4);
      var k := EncodeKey(f);
      assert k[..4] == BigEndian(|bytes|, 4) && k[4..] == bytes && k[4..4 + |bytes|] == bytes;
  }

  /** Different values of a column have different keys. */
  lemma KeyInjective(f: Field, g: Field, t: ColumnType)
    requires KeyValue(f, t) && KeyValue(g, t)
    ensures EncodeKey(f) == EncodeKey(g) <==> f == g
  {
    KeyRoundTrip(f, t);
    KeyRoundTrip(g, t);
  }

  const NegativeZero: Bytes := [0, 0, 0, 0, 0, 0, 0, 128]
  const LargeNegative: Bytes := [127, 127, 127, 127, 127, 127, 127, 255]

  /** -0.0 has the key of a large negative number, and not the key of 0.0, which it equals. */
  lemma NegativeZeroCollides()
    ensures IsZero(NegativeZero) && BelowZero(LargeNegative)
    ensures EncodeFloat(NegativeZero) == EncodeFloat(LargeNegative) != EncodeFloat(Zeros(8))
  {
    assert LargeNegative[0] == 127;
    assert EncodeFloat(NegativeZero)[0] == 0 && EncodeFloat(Zeros(8))[0] == 128;
  }

  // ----- order -----

  /** Every negative integer sorts before every other one. */
  lemma NegativesFirst(a: int, b: int)
    requires IsInt64(a) && IsInt64(b) && a < 0 <= b
    ensures Less(EncodeInt(a), EncodeInt(b))
  {
    EncodedTop(a);
    EncodedTop(b);
  }

  lemma {:induction false} FlipReverses(a: Bytes, b: Bytes)
    requires |a| == |b|
    ensures Less(MapBytes(a, FlipAll), MapBytes(b, FlipAll)) <==> Less(b, a)
  {
    if a != [] {
      assert MapBytes(a, FlipAll)[1..] == MapBytes(a[1..], FlipAll);
      assert MapBytes(b, FlipAll)[1..] == MapBytes(b[1..], FlipAll);
      FlipReverses(a[1..], b[1..]);
    }
  }

  /** Among themselves the negative integers sort backwards. */
  lemma NegativesReversed(a: int, b: int)
    requires IsInt64(a) && IsInt64(b) && a < 0 && b < 0
    ensures Less(EncodeInt(a), EncodeInt(b)) <==> b < a
  {
    Pow256Eight();
    FlipReverses(BigEndian(Pattern(a), 8), BigEndian(Pattern(b), 8));
    BigEndianOrder(Pattern(b), Pattern(a), 8);
    hide BigEndian, Less, MapBytes, Pow256;
  }

  /** Where two byte strings of one length first differ. */
  function FirstDiff(a: Bytes, b: Bytes): (i: nat)
    requires |a| == |b| && a != b
    ensures i < |a| && a[..i] == b[..i] && a[i] != b[i]
  {
    if a[0] != b[0] then 0
    else
      assert a == [a[0]] + a[1..] && b == [b[0]] + b[1..];
      var i := 1 + FirstDiff(a[1..], b[1..]);
      assert a[..i] == [a[0]] + a[1..][..i - 1] && b[..i] == [b[0]] + b[1..][..i - 1];
      i
  }

  /** The first difference decides the order. */
  lemma {:induction false} LessAtFirstDiff(a: Bytes, b: Bytes, i: nat)
    requires |a| == |b| && i < |a| && a[..i] == b[..i] && a[i] != b[i]
    ensures Less(a, b) <==> a[i] < b[i]
  {
    if i > 0 {
      assert a[0] == a[..i][0] == b[..i][0] == b[0];
      assert a[1..][..i - 1] == a[..i][1..] && b[1..][..i - 1] == b[..i][1..];
      LessAtFirstDiff(a[1..], b[1..], i - 1);
    }
  }

  /** Of two byte values, flipping the top bits keeps the order exactly within a half. */
  predicate SameHalf(x: Byte, y: Byte) {
    x < 128 <==> y < 128
  }

  /** At their first differing byte, both numbers have the byte in the same half. */
  predicate DifferWithinHalf(a: nat, b: nat)
    requires a < U64_LIMIT && b < U64_LIMIT && a != b
  {
    Pow256Eight();
    BigEndianRoundTrip(a, 8);
    BigEndianRoundTrip(b, 8);
    var x, y := BigEndian(a, 8), BigEndian(b, 8);
    SameHalf(x[FirstDiff(x, y)], y[FirstDiff(x, y)])
  }

  /** Every byte has its top bit flipped, not the first alone: the others sort as numbers in part. */
  lemma OthersOrderedIff(a: int, b: int)
    requires IsInt64(a) && IsInt64(b) && a >= 0 && b >= 0 && a != b
    ensures Less(EncodeInt(a), EncodeInt(b)) <==> (a < b <==> DifferWithinHalf(a, b))
  {
    Pow256Eight();
    BigEndianRoundTrip(a, 8);
    BigEndianRoundTrip(b, 8);
    BigEndianOrder(a, b, 8);
    var x, y := BigEndian(a, 8), BigEndian(b, 8);
    hide BigEndian, FromBigEndian, Pow256, FirstDiff, Less;
    var i := FirstDiff(x, y);
    LessAtFirstDiff(x, y, i);
    var u, v := MapBytes(x, FlipTop), MapBytes(y, FlipTop);
    assert u[..i] == v[..i] by {
      forall j | 0 <= j < i ensures u[j] == v[j] { assert x[j] == x[..i][j] == y[..i][j] == y[j]; }
    }
    LessAtFirstDiff(u, v, i);
  }

  /**
   * The order of INTEGER keys, for every two of them: they sort as the numbers do exactly when the smaller
   * one alone is negative, or neither is and the numbers differ first within a half of the values of a byte.
   */
  lemma NumericOrderIff(a: int, b: int)
    requires IsInt64(a) && IsInt64(b) && a < b
    ensures Less(EncodeInt(a), EncodeInt(b)) <==> b >= 0 && (a < 0 || DifferWithinHalf(a, b))
    ensures Less(EncodeInt(b), EncodeInt(a)) <==> !Less(EncodeInt(a), EncodeInt(b))
  {
    hide EncodeInt, Less, DifferWithinHalf;
    if b < 0 {
      NegativesReversed(a, b);
    } else if a < 0 {
      NegativesFirst(a, b);
    } else {
      OthersOrderedIff(a, b);
    }
    KeyInjective(Int(a), Int(b), INTEGER);
    StrictTotalOrder();
  }

  /** The two numbers differ in their last byte alone. */
  lemma LastByteDiffers()
    ensures !DifferWithinHalf(127, 128)
  {
    var x, y := BigEndian(127, 8), BigEndian(128, 8);
    assert x == BigEndian(0, 7) + [127] && y == BigEndian(0, 7) + [128];
    hide BigEndian;
    assert forall j | 0 <= j < 7 :: x[j] == BigEndian(0, 7)[j] == y[j];
    assert x[7] == 127 && y[7] == 128;
    hide Less, EncodeInt, FromBigEndian, Pow256;
    assert FirstDiff(x, y) == 7;
  }

  /** The smallest pair out of order. */
  lemma NotNumericOrder()
    ensures Less(EncodeInt(128), EncodeInt(127))
  {
    hide DifferWithinHalf, Less, EncodeInt;
    LastByteDiffers();
    NumericOrderIff(127, 128);
  }
}
