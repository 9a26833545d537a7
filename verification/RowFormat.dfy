/** Rows as bytes: a bitmap of NULLs, the column count, and the other fields in column order. */
module RowFormat {
  import opened Wrappers
  import opened ByteCodec

  const U64_LIMIT := 0x1_0000_0000_0000_0000

  datatype ColumnType = INTEGER | FLOAT | TEXT | BOOLEAN

  /** A double is kept as its eight bytes, a text as its encoded bytes. */
  datatype Field = Int(n: int) | Float(bits: Bytes) | Str(bytes: Bytes) | Bool(b: bool)

  /** None is NULL. */
  type Row = seq<Option<Field>>

  predicate IsInt64(n: int) {
    -0x8000_0000_0000_0000 <= n < 0x8000_0000_0000_0000
  }

  predicate FieldConforms(f: Field, t: ColumnType) {
    match f
    case Int(n) => t == INTEGER && IsInt64(n)
    case Float(bits) => t == FLOAT && |bits| == 8
    case Str(bytes) => t == TEXT && |bytes| < U32_LIMIT
    case Bool(_) => t == BOOLEAN
  }

  predicate Conforms(row: Row, types: seq<ColumnType>) {
    |row| == |types| < U16_LIMIT
    && forall i :: 0 <= i < |row| && row[i].Some? ==> FieldConforms(row[i].value, types[i])
  }

  // ----- 64-bit integers -----

  /** Two's complement, least significant byte first. */
  function I64(n: int): (b: Bytes)
    requires IsInt64(n)
    ensures |b| == 8
  {
    var m := if n < 0 then n + U64_LIMIT else n;
    U32(m % U32_LIMIT) + U32(m / U32_LIMIT)
  }

  function GetI64(d: Bytes, off: nat): (n: int)
    requires off + 8 <= |d|
  {
    var m := GetU32(d, off) + U32_LIMIT * GetU32(d, off + 4);
    if m >= 0x8000_0000_0000_0000 then m - U64_LIMIT else m
  }

  /** An integer takes eight bytes, the least significant first; negative ones are counted down from 2^64. */
  lemma I64Value(n: int)
    requires IsInt64(n)
    ensures GetU32(I64(n), 0) + U32_LIMIT * GetU32(I64(n), 4) == if n < 0 then n + U64_LIMIT else n
  {
    var b, m := I64(n), if n < 0 then n + U64_LIMIT else n;
    assert b[0..4] == U32(m % U32_LIMIT) && b[4..8] == U32(m / U32_LIMIT);
    GetU32Of(b, 0, m % U32_LIMIT);
    GetU32Of(b, 4, m / U32_LIMIT);
    hide U32, GetU32, I64;
  }

  lemma GetI64Of(d: Bytes, off: nat, n: int)
    requires IsInt64(n) && off + 8 <= |d| && d[off..off + 8] == I64(n)
    ensures GetI64(d, off) == n
  {
    var m := if n < 0 then n + U64_LIMIT else n;
    hide U32, GetU32;
    assert d[off..off + 4] == d[off..off + 8][..4] == U32(m % U32_LIMIT);
    assert d[off + 4..off + 8] == d[off..off + 8][4..] == U32(m / U32_LIMIT);
    GetU32Of(d, off, m % U32_LIMIT);
    GetU32Of(d, off + 4, m / U32_LIMIT);
  }

  // ----- the bitmap -----

  function Pow2(n: nat): (p: int)
    ensures p >= 1
  {
    if n == 0 then 1 else 2 * Pow2(n - 1)
  }

  lemma Pow2Eight()
    ensures Pow2(8) == 256
  {
    assert Pow2(4) == 16 && Pow2(6) == 64;
  }

  /** Bit k of a number. */
  predicate HasBit(b: nat, k: nat) {
    if k == 0 then b % 2 == 1 else HasBit(b / 2, k - 1)
  }

  /** Bitwise or with 1 shifted left by k. */
  function OrBit(b: nat, k: nat): nat {
    if k == 0 then (if b % 2 == 1 then b else b + 1) else 2 * OrBit(b / 2, k - 1) + b % 2
  }

  lemma {:induction false} OrBitBound(b: nat, k: nat, n: nat)
    requires b < Pow2(n) && k < n
    ensures OrBit(b, k) < Pow2(n)
  {
    if k > 0 {
      OrBitBound(b / 2, k - 1, n - 1);
    } else {
      assert Pow2(n) % 2 == 0;
    }
  }

  /** Setting a bit sets that bit and no other. */
  lemma {:induction false} OrBitBits(b: nat, k: nat, j: nat)
    ensures HasBit(OrBit(b, k), j) <==> j == k || HasBit(b, j)
  {
    if k > 0 && j > 0 {
      OrBitBits(b / 2, k - 1, j - 1);
    }
  }

  function SetBit(b: Byte, k: nat): Byte
    requires k < 8
  {
    Pow2Eight();
    OrBitBound(b, k, 8);
    OrBit(b, k)
  }

  lemma SetBitBits(b: Byte, k: nat, j: nat)
    requires k < 8
    ensures HasBit(SetBit(b, k), j) <==> j == k || HasBit(b, j)
  {
    OrBitBits(b, k, j);
  }

  lemma {:induction false} ZeroBits(k: nat)
    ensures !HasBit(0, k)
  {
    if k > 0 {
      ZeroBits(k - 1);
    }
  }

  /** The number of bytes a bitmap of n flags takes. */
  function BitmapSize(n: nat): (size: nat)
    ensures 8 * size >= n && 8 * size < n + 8
  {
    (n + 7) / 8
  }

  /** Flag i of a bitmap. */
  predicate Flag(bitmap: Bytes, i: nat)
    requires i < 8 * |bitmap|
  {
    HasBit(bitmap[i / 8], i % 8)
  }

  /** A bitmap has exactly the bits of the flags; the bits left over in its last byte are zero. */
  ghost predicate IsBitmap(bitmap: Bytes, flags: seq<bool>) {
    && |bitmap| == BitmapSize(|flags|)
    && forall i :: 0 <= i < 8 * |bitmap| ==> (Flag(bitmap, i) <==> i < |flags| && flags[i])
  }

  lemma FlagSet(bitmap: Bytes, k: nat, i: nat)
    requires k < 8 * |bitmap| && i < 8 * |bitmap|
    ensures Flag(bitmap[k / 8 := SetBit(bitmap[k / 8], k % 8)], i) <==> i == k || Flag(bitmap, i)
  {
    SetBitBits(bitmap[k / 8], k % 8, i % 8);
    hide SetBit, HasBit;
    assert i / 8 == k / 8 && i % 8 == k % 8 ==> i == k;
  }

  method EncodeNullFlags(flags: seq<bool>) returns (bitmap: Bytes)
    ensures IsBitmap(bitmap, flags)
  {
    hide SetBit, HasBit, Flag;
    bitmap := Zeros(BitmapSize(|flags|));
    forall i | 0 <= i < 8 * |bitmap|
      ensures !Flag(bitmap, i)
    {
      NoFlags(bitmap, i);
    }
    for k := 0 to |flags|
      invariant |bitmap| == BitmapSize(|flags|)
      invariant forall i :: 0 <= i < 8 * |bitmap| ==> (Flag(bitmap, i) <==> i < k && flags[i])
    {
      if flags[k] {
        ghost var before := bitmap;
        bitmap := bitmap[k / 8 := SetBit(bitmap[k / 8], k % 8)];
        forall i | 0 <= i < 8 * |bitmap|
          ensures Flag(bitmap, i) <==> i == k || Flag(before, i)
        {
          FlagSet(before, k, i);
        }
      }
    }
  }

  lemma NoFlags(bitmap: Bytes, i: nat)
    requires i < 8 * |bitmap| && forall j :: 0 <= j < |bitmap| ==> bitmap[j] == 0
    ensures !Flag(bitmap, i)
  {
    ZeroBits(i % 8);
  }

  /** There is only one bitmap of given flags: the encoding is a function of them. */
  lemma BitmapUnique(a: Bytes, b: Bytes, flags: seq<bool>)
    requires IsBitmap(a, flags) && IsBitmap(b, flags)
    ensures a == b
  {
    forall j | 0 <= j < |a|
      ensures a[j] == b[j]
    {
      forall k | 0 <= k < 8
        ensures HasBit(a[j], k) <==> HasBit(b[j], k)
      {
        BitAt(a, j, k);
        BitAt(b, j, k);
      }
      hide HasBit;
      Pow2Eight();
      SameBits(a[j], b[j], 8);
    }
  }

  lemma BitAt(a: Bytes, j: nat, k: nat)
    requires j < |a| && k < 8
    ensures Flag(a, 8 * j + k) <==> HasBit(a[j], k)
  {
    hide HasBit;
    assert (8 * j + k) / 8 == j && (8 * j + k) % 8 == k;
  }

  lemma {:induction false} SameBits(a: nat, b: nat, n: nat)
    requires a < Pow2(n) && b < Pow2(n) && forall k :: 0 <= k < n ==> (HasBit(a, k) <==> HasBit(b, k))
    ensures a == b
  {
    if n > 0 {
      forall k | 0 <= k < n - 1
        ensures HasBit(a / 2, k) <==> HasBit(b / 2, k)
      {
        assert HasBit(a, k + 1) <==> HasBit(b, k + 1);
      }
      SameBits(a / 2, b / 2, n - 1);
      assert HasBit(a, 0) <==> HasBit(b, 0);
    }
  }

  // ----- rows -----

  function Flags(row: Row): (flags: seq<bool>)
    ensures |flags| == |row| && forall i :: 0 <= i < |row| ==> flags[i] == row[i].None?
  {
    seq(|row|, i requires 0 <= i < |row| => row[i].None?)
  }

  function FieldBytes(f: Field, t: ColumnType): Bytes
    requires FieldConforms(f, t)
  {
    match f
    case Int(n) => I64(n)
    case Float(bits) => bits
    case Str(bytes) => U32(|bytes|) + bytes
    case Bool(b) => [if b then 1 else 0]
  }

  /** The fields of the first n columns that are not NULL, one behind the other. */
  function Body(row: Row, types: seq<ColumnType>, n: nat): Bytes
    requires Conforms(row, types) && n <= |row|
  {
    if n == 0 then []
    else Body(row, types, n - 1) + if row[n - 1].Some? then FieldBytes(row[n - 1].value, types[n - 1]) else []
  }

  /** The bytes of a row. */
  ghost predicate IsImage(data: Bytes, row: Row, types: seq<ColumnType>)
    requires Conforms(row, types)
  {
    exists bitmap :: IsBitmap(bitmap, Flags(row)) && data == bitmap + U16(|row|) + Body(row, types, |row|)
  }

  method SerializeRow(row: Row, types: seq<ColumnType>) returns (data: Bytes)
    requires Conforms(row, types)
    ensures IsImage(data, row, types) && |data| >= 2
  {
    var bitmap := EncodeNullFlags(Flags(row));
    hide IsBitmap, FieldBytes, FieldConforms, U16;
    data := bitmap + U16(|types|);
    for i := 0 to |row|
      invariant data == bitmap + U16(|row|) + Body(row, types, i)
    {
      if row[i].Some? {
        data := data + FieldBytes(row[i].value, types[i]);
      }
    }
  }

  // ----- reading -----

  /** data[lo:hi], which is clipped to the string. */
  function Slice(data: Bytes, lo: nat, hi: nat): Bytes
    requires lo <= hi
  {
    if lo >= |data| then [] else if hi > |data| then data[lo..] else data[lo..hi]
  }

  /** A field and the offset behind it; None where the data is too short. */
  function ReadField(data: Bytes, t: ColumnType, off: nat): Option<(Field, nat)> {
    match t
    case INTEGER => if off + 8 <= |data| then Some((Int(GetI64(data, off)), off + 8)) else None
    case FLOAT => if off + 8 <= |data| then Some((Float(data[off..off + 8]), off + 8)) else None
    case BOOLEAN => if off + 1 <= |data| then Some((Bool(data[off] != 0), off + 1)) else None
    case TEXT =>
      if off + 4 > |data| then None
      else
        var n := GetU32(data, off);
        Some((Str(Slice(data, off + 4, off + 4 + n)), off + 4 + n))
  }

  /** Columns i to count; None where a flag or a field is missing. */
  function ReadFields(data: Bytes, types: seq<ColumnType>, flags: seq<bool>, i: nat, count: nat, off: nat): Option<Row>
    requires |flags| == |types|
    decreases count - i
  {
    if i >= count then Some([])
    else if i >= |flags| then None
    else if flags[i] then Prepend(None, ReadFields(data, types, flags, i + 1, count, off))
    else
      match ReadField(data, types[i], off)
      case None => None
      case Some((f, next)) => Prepend(Some(f), ReadFields(data, types, flags, i + 1, count, next))
  }

  function Prepend(f: Option<Field>, rest: Option<Row>): Option<Row> {
    if rest.None? then None else Some([f] + rest.value)
  }

  function ReadFlags(bitmap: Bytes, n: nat): (flags: seq<bool>)
    requires n <= 8 * |bitmap|
    ensures |flags| == n && forall i :: 0 <= i < n ==> flags[i] == Flag(bitmap, i)
  {
    seq(n, i requires 0 <= i < n => Flag(bitmap, i))
  }

  /** Reading a row from any bytes; None stands for the exceptions of malformed data. */
  function Decode(data: Bytes, types: seq<ColumnType>): Option<Row> {
    var size := BitmapSize(|types|);
    if data == [] then Some([])
    else if |data| < size + 2 then None
    else ReadFields(data, types, ReadFlags(data[..size], |types|), 0, GetU16(data, size), size + 2)
  }

  method DecodeNullFlags(bitmap: Bytes, n: nat) returns (flags: seq<bool>)
    requires n <= 8 * |bitmap|
    ensures flags == ReadFlags(bitmap, n)
  {
    flags := [];
    for i := 0 to n
      invariant flags == ReadFlags(bitmap, n)[..i]
    {
      flags := flags + [HasBit(bitmap[i / 8], i % 8)];
    }
  }

  function Extend(done: Row, rest: Option<Row>): Option<Row> {
    if rest.None? then None else Some(done + rest.value)
  }

  lemma PrependBehind(done: Row, f: Option<Field>, rest: Option<Row>)
    ensures Extend(done, Prepend(f, rest)) == Extend(done + [f], rest)
  {
    if rest.Some? {
      assert done + ([f] + rest.value) == done + [f] + rest.value;
    }
  }

  lemma ExtendNothing(rest: Option<Row>)
    ensures Extend([], rest) == rest
  {
    if rest.Some? {
      assert [] + rest.value == rest.value;
    }
  }

  method DeserializeRow(data: Bytes, types: seq<ColumnType>) returns (row: Option<Row>)
    ensures row == Decode(data, types)
  {
    hide GetI64, GetU32, GetU16, HasBit, ReadField;
    if data == [] {
      return Some([]);
    }
    var size := BitmapSize(|types|);
    if |data| < size + 2 {
      return None;
    }
    var flags := DecodeNullFlags(data[..size], |types|);
    var count, off := GetU16(data, size), size + 2;
    var done: Row := [];
    ExtendNothing(ReadFields(data, types, flags, 0, count, off));
    for i := 0 to count
      invariant Decode(data, types) == Extend(done, ReadFields(data, types, flags, i, count, off))
    {
      if i >= |flags| {
        return None;
      }
      if flags[i] {
        PrependBehind(done, None, ReadFields(data, types, flags, i + 1, count, off));
        done := done + [None];
      } else {
        var f := ReadField(data, types[i], off);
        if f.None? {
          return None;
        }
        PrependBehind(done, Some(f.value.0), ReadFields(data, types, flags, i + 1, count, f.value.1));
        done, off := done + [Some(f.value.0)], f.value.1;
      }
    }
    assert done + [] == done;
    return Some(done);
  }

  // ----- the round trip -----

  lemma {:induction false} BodyGrows(row: Row, types: seq<ColumnType>, i: nat, n: nat)
    requires Conforms(row, types) && i <= n <= |row|
    ensures |Body(row, types, i)| <= |Body(row, types, n)|
    ensures Body(row, types, n)[..|Body(row, types, i)|] == Body(row, types, i)
  {
    hide FieldBytes, FieldConforms;
    if i < n {
      BodyGrows(row, types, i, n - 1);
      var b := Body(row, types, n);
      assert b[..|Body(row, types, n - 1)|] == Body(row, types, n - 1);
    }
  }

  /** The field lies behind the fields before it. */
  lemma BodyField(row: Row, types: seq<ColumnType>, i: nat)
    requires Conforms(row, types) && i < |row| && row[i].Some?
    ensures var b, lo, f := Body(row, types, |row|), |Body(row, types, i)|, FieldBytes(row[i].value, types[i]);
            lo + |f| == |Body(row, types, i + 1)| <= |b| && b[lo..lo + |f|] == f
  {
    BodyGrows(row, types, i + 1, |row|);
    hide FieldBytes, FieldConforms;
    var b, lo, f := Body(row, types, |row|), |Body(row, types, i)|, FieldBytes(row[i].value, types[i]);
    assert b[lo..lo + |f|] == b[..lo + |f|][lo..];
  }

  lemma ReadFieldOf(data: Bytes, f: Field, t: ColumnType, off: nat)
    requires FieldConforms(f, t)
    requires off + |FieldBytes(f, t)| <= |data| && data[off..off + |FieldBytes(f, t)|] == FieldBytes(f, t)
    ensures ReadField(data, t, off) == Some((f, off + |FieldBytes(f, t)|))
  {
    hide GetU32, U32, GetI64, I64;
    var b := FieldBytes(f, t);
    match f
    case Int(n) => GetI64Of(data, off, n);
    case Float(_) =>
    case Bool(_) => assert data[off] == data[off..off + 1][0];
    case Str(bytes) =>
      assert data[off..off + 4] == data[off..off + |b|][..4] == U32(|bytes|);
      GetU32Of(data, off, |bytes|);
      assert data[off + 4..off + |b|] == data[off..off + |b|][4..] == bytes;
  }

  /** From column i on, with the fields laid out behind the first h bytes. */
  lemma {:induction false} ReadBack(data: Bytes, row: Row, types: seq<ColumnType>, i: nat, h: nat)
    requires Conforms(row, types) && i <= |row|
    requires h + |Body(row, types, |row|)| == |data| && data[h..] == Body(row, types, |row|)
    ensures ReadFields(data, types, Flags(row), i, |row|, h + |Body(row, types, i)|) == Some(row[i..])
    decreases |row| - i
  {
    hide Body, FieldBytes, FieldConforms, ReadField, Flag;
    if i < |row| {
      ReadBack(data, row, types, i + 1, h);
      if row[i].Some? {
        ReadFieldAt(data, row, types, i, h);
      } else {
        BodyNull(row, types, i);
      }
      assert row[i..] == [row[i]] + row[i + 1..];
    } else {
      assert row[i..] == [];
    }
  }

  lemma SliceOfTail(d: Bytes, h: nat, off: nat, n: nat)
    requires h <= off && off + n <= |d|
    ensures d[off..off + n] == d[h..][off - h..off - h + n]
  {
  }

  lemma BodyNull(row: Row, types: seq<ColumnType>, i: nat)
    requires Conforms(row, types) && i < |row| && row[i].None?
    ensures Body(row, types, i + 1) == Body(row, types, i)
  {
  }

  lemma ReadFieldAt(data: Bytes, row: Row, types: seq<ColumnType>, i: nat, h: nat)
    requires Conforms(row, types) && i < |row| && row[i].Some?
    requires h + |Body(row, types, |row|)| == |data| && data[h..] == Body(row, types, |row|)
    ensures ReadField(data, types[i], h + |Body(row, types, i)|)
            == Some((row[i].value, h + |Body(row, types, i + 1)|))
  {
    hide FieldBytes, FieldConforms, ReadField;
    var off := h + |Body(row, types, i)|;
    BodyField(row, types, i);
    var n := |FieldBytes(row[i].value, types[i])|;
    SliceOfTail(data, h, off, n);
    assert FieldConforms(row[i].value, types[i]);
    ReadFieldOf(data, row[i].value, types[i], off);
  }

  /** Reading back what was written yields the row, for any pattern of NULLs. */
  lemma DecodeImage(data: Bytes, row: Row, types: seq<ColumnType>)
    requires Conforms(row, types) && IsImage(data, row, types)
    ensures Decode(data, types) == Some(row)
  {
    var bitmap :| IsBitmap(bitmap, Flags(row)) && data == bitmap + U16(|row|) + Body(row, types, |row|);
    var size := BitmapSize(|types|);
    hide FieldBytes, FieldConforms, Body, Flag, GetU16;
    assert data[..size] == bitmap && data[size + 2..] == Body(row, types, |row|);
    assert data[size..size + 2] == U16(|row|);
    GetU16Of(data, size, |row|);
    assert ReadFlags(bitmap, |types|) == Flags(row);
    BodyNone(row, types);
    ReadBack(data, row, types, 0, size + 2);
    hide U16;
    assert row[0..] == row;
  }

  lemma BodyNone(row: Row, types: seq<ColumnType>)
    requires Conforms(row, types)
    ensures Body(row, types, 0) == []
  {
  }

  /** Every row has one image, and an image belongs to one row. */
  lemma ImageExact(a: Bytes, b: Bytes, r: Row, s: Row, types: seq<ColumnType>)
    requires Conforms(r, types) && IsImage(a, r, types) && Conforms(s, types) && IsImage(b, s, types)
    ensures a == b <==> r == s
  {
    if a == b {
      DecodeImage(a, r, types);
      DecodeImage(b, s, types);
    }
    if r == s {
      hide IsBitmap, Body, U16;
      var x :| IsBitmap(x, Flags(r)) && a == x + U16(|r|) + Body(r, types, |r|);
      var y :| IsBitmap(y, Flags(r)) && b == y + U16(|r|) + Body(r, types, |r|);
      BitmapUnique(x, y, Flags(r));
    }
  }

  // ----- reading any bytes -----

  /** What reading one column means: a NULL takes no bytes; a number, double or truth value must be there in full; a
      text ends where its length says or the data does. */
  predicate FieldRead(data: Bytes, t: ColumnType, isNull: bool, off: nat, next: nat, f: Option<Field>) {
    if isNull then f == None && next == off
    else
      match t
      case INTEGER =>
        && next == off + 8 <= |data| && f.Some? && f.value.Int? && IsInt64(f.value.n)
        && GetU32(data, off) + U32_LIMIT * GetU32(data, off + 4)
           == if f.value.n < 0 then f.value.n + U64_LIMIT else f.value.n
      case FLOAT => next == off + 8 <= |data| && f == Some(Float(data[off..off + 8]))
      case BOOLEAN => next == off + 1 <= |data| && f == Some(Bool(data[off] != 0))
      case TEXT =>
        && off + 4 <= |data| && next == off + 4 + GetU32(data, off) && f.Some? && f.value.Str?
        && off + 4 + |f.value.bytes| == (if next <= |data| then next else |data|)
        && f.value.bytes == data[off + 4..off + 4 + |f.value.bytes|]
  }

  /** The columns lie one behind the other, beginning at these offsets. */
  ghost predicate RowRead(data: Bytes, types: seq<ColumnType>, flags: seq<bool>, i: nat, offs: seq<nat>, row: Row) {
    && i + |row| <= |types| == |flags| && |offs| == |row| + 1
    && forall k :: 0 <= k < |row| ==> FieldRead(data, types[i + k], flags[i + k], offs[k], offs[k + 1], row[k])
  }

  lemma ReadFieldExact(data: Bytes, t: ColumnType, off: nat, next: nat, f: Field)
    ensures ReadField(data, t, off) == Some((f, next)) <==> FieldRead(data, t, false, off, next, Some(f))
  {
    match t
    case INTEGER => IntReadExact(data, off, next, f);
    case TEXT => TextReadExact(data, off, next, f);
    case _ =>
  }

  lemma IntReadExact(data: Bytes, off: nat, next: nat, f: Field)
    ensures ReadField(data, INTEGER, off) == Some((f, next)) <==> FieldRead(data, INTEGER, false, off, next, Some(f))
  {
    hide GetU32;
    if off + 8 <= |data| {
      var m := GetU32(data, off) + U32_LIMIT * GetU32(data, off + 4);
      assert 0 <= m < U64_LIMIT;
    }
  }

  lemma TextReadExact(data: Bytes, off: nat, next: nat, f: Field)
    ensures ReadField(data, TEXT, off) == Some((f, next)) <==> FieldRead(data, TEXT, false, off, next, Some(f))
  {
    hide GetU32;
    if off + 4 <= |data| {
      var n := GetU32(data, off);
      var b := Slice(data, off + 4, off + 4 + n);
      assert off + 4 + |b| == (if off + 4 + n <= |data| then off + 4 + n else |data|);
      assert b == data[off + 4..off + 4 + |b|];
    }
  }

  lemma RowReadTail(data: Bytes, types: seq<ColumnType>, flags: seq<bool>, i: nat, offs: seq<nat>, row: Row)
    requires row != [] && offs != []
    ensures RowRead(data, types, flags, i, offs, row) <==>
            i < |types| == |flags| && |offs| == |row| + 1
            && FieldRead(data, types[i], flags[i], offs[0], offs[1], row[0])
            && RowRead(data, types, flags, i + 1, offs[1..], row[1..])
  {
    hide FieldRead;
    var rest, later := row[1..], offs[1..];
    if i < |types| == |flags| && |offs| == |row| + 1 && RowRead(data, types, flags, i + 1, later, rest)
       && FieldRead(data, types[i], flags[i], offs[0], offs[1], row[0]) {
      forall k | 0 <= k < |row|
        ensures FieldRead(data, types[i + k], flags[i + k], offs[k], offs[k + 1], row[k])
      {
        if k > 0 {
          assert FieldRead(data, types[i + 1 + (k - 1)], flags[i + 1 + (k - 1)], later[k - 1], later[k], rest[k - 1]);
        }
      }
    }
    if RowRead(data, types, flags, i, offs, row) {
      forall k | 0 <= k < |rest|
        ensures FieldRead(data, types[i + 1 + k], flags[i + 1 + k], later[k], later[k + 1], rest[k])
      {
        assert FieldRead(data, types[i + (k + 1)], flags[i + (k + 1)], offs[k + 1], offs[k + 2], row[k + 1]);
      }
    }
  }

  lemma {:induction false} ReadFieldsMeans(data: Bytes, types: seq<ColumnType>, flags: seq<bool>, i: nat, count: nat,
                                           off: nat, row: Row) returns (offs: seq<nat>)
    requires |flags| == |types| && i <= count && i <= |types|
    requires ReadFields(data, types, flags, i, count, off) == Some(row)
    ensures |row| == count - i && offs != [] && offs[0] == off && RowRead(data, types, flags, i, offs, row)
    decreases count - i
  {
    hide ReadField, FieldRead;
    if i == count {
      offs := [off];
    } else {
      var next := off;
      if !flags[i] {
        next := ReadField(data, types[i], off).value.1;
        ReadFieldExact(data, types[i], off, next, ReadField(data, types[i], off).value.0);
      } else {
        NullRead(data, types[i], off);
      }
      var rest := ReadFieldsMeans(data, types, flags, i + 1, count, next, row[1..]);
      offs := [off] + rest;
      assert offs[1..] == rest;
      RowReadTail(data, types, flags, i, offs, row);
    }
  }

  lemma NullRead(data: Bytes, t: ColumnType, off: nat)
    ensures forall next: nat, f :: FieldRead(data, t, true, off, next, f) <==> f == None && next == off
  {
  }

  lemma {:induction false} MeansReadFields(data: Bytes, types: seq<ColumnType>, flags: seq<bool>, i: nat, count: nat,
                                           row: Row, offs: seq<nat>)
    requires |row| == count - i && offs != [] && RowRead(data, types, flags, i, offs, row)
    ensures ReadFields(data, types, flags, i, count, offs[0]) == Some(row)
    decreases count - i
  {
    hide ReadField, FieldRead;
    if row == [] {
    } else {
      RowReadTail(data, types, flags, i, offs, row);
      MeansReadFields(data, types, flags, i + 1, count, row[1..], offs[1..]);
      assert row == [row[0]] + row[1..];
      NullRead(data, types[i], offs[0]);
      if !flags[i] {
        ValueRead(data, types[i], offs[0], offs[1], row[0]);
        ReadFieldExact(data, types[i], offs[0], offs[1], row[0].value);
      }
    }
  }

  lemma ValueRead(data: Bytes, t: ColumnType, off: nat, next: nat, f: Option<Field>)
    requires FieldRead(data, t, false, off, next, f)
    ensures f.Some?
  {
  }

  /** Reading any bytes but none at all succeeds exactly if the bitmap and the column count are there, no more columns
      are counted than the table has, and each column can be read behind the one before; bytes behind the last one do
      not matter. */
  lemma DecodeExact(data: Bytes, types: seq<ColumnType>, row: Row)
    requires data != []
    ensures Decode(data, types) == Some(row) <==>
            var size := BitmapSize(|types|);
            && |data| >= size + 2 && |row| == GetU16(data, size)
            && exists offs :: offs != [] && offs[0] == size + 2
                              && RowRead(data, types, ReadFlags(data[..size], |types|), 0, offs, row)
  {
    hide ReadFields, RowRead, GetU16;
    var size := BitmapSize(|types|);
    if |data| >= size + 2 {
      var flags, count := ReadFlags(data[..size], |types|), GetU16(data, size);
      if ReadFields(data, types, flags, 0, count, size + 2) == Some(row) {
        var offs := ReadFieldsMeans(data, types, flags, 0, count, size + 2, row);
      }
      if |row| == count {
        if offs :| offs != [] && offs[0] == size + 2 && RowRead(data, types, flags, 0, offs, row) {
          MeansReadFields(data, types, flags, 0, count, row, offs);
        }
      }
    }
  }
}
