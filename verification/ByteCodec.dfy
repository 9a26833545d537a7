/** Fixed-width little-endian fields in byte strings, and strings written chunk by chunk. */
module ByteCodec {
  type Byte = x: int | 0 <= x < 256 witness 0

  type Bytes = seq<Byte>

  const PAGE_SIZE := 4096
  const U16_LIMIT := 0x1_0000
  const U32_LIMIT := 0x1_0000_0000

  function U16(n: int): (b: Bytes)
    requires 0 <= n < U16_LIMIT
    ensures |b| == 2
  {
    [n % 256, n / 256]
  }

  function U32(n: int): (b: Bytes)
    requires 0 <= n < U32_LIMIT
    ensures |b| == 4
  {
    U16(n % U16_LIMIT) + U16(n / U16_LIMIT)
  }

  function GetU16(d: Bytes, off: nat): (n: int)
    requires off + 2 <= |d|
    ensures 0 <= n < U16_LIMIT
  {
    var lo: int, hi: int := d[off], d[off + 1];
    lo + 256 * hi
  }

  function GetU32(d: Bytes, off: nat): (n: int)
    requires off + 4 <= |d|
    ensures 0 <= n < U32_LIMIT
  {
    GetU16(d, off) + U16_LIMIT * GetU16(d, off + 2)
  }

  /** The least significant byte comes first. */
  lemma LittleEndian(d: Bytes, off: nat)
    requires off + 4 <= |d|
    ensures var a: int, b: int, c: int, e: int := d[off], d[off + 1], d[off + 2], d[off + 3];
            GetU16(d, off) == a + 0x100 * b && GetU32(d, off) == a + 0x100 * b + 0x1_0000 * c + 0x100_0000 * e
  {
  }

  lemma GetU16Of(d: Bytes, off: nat, n: int)
    requires 0 <= n < U16_LIMIT && off + 2 <= |d| && d[off..off + 2] == U16(n)
    ensures GetU16(d, off) == n
  {
    assert d[off] == d[off..off + 2][0] && d[off + 1] == d[off..off + 2][1];
  }

  lemma GetU32Of(d: Bytes, off: nat, n: int)
    requires 0 <= n < U32_LIMIT && off + 4 <= |d| && d[off..off + 4] == U32(n)
    ensures GetU32(d, off) == n
  {
    assert d[off..off + 2] == d[off..off + 4][..2] == U16(n % U16_LIMIT);
    assert d[off + 2..off + 4] == d[off..off + 4][2..] == U16(n / U16_LIMIT);
    GetU16Of(d, off, n % U16_LIMIT);
    GetU16Of(d, off + 2, n / U16_LIMIT);
  }

  function Zeros(n: nat): (z: Bytes)
    ensures |z| == n
    ensures forall i :: 0 <= i < n ==> z[i] == 0
  {
    seq(n, _ => 0)
  }

  /** Assignment to a slice of a bytearray, or pack_into. */
  function Splice(d: Bytes, off: nat, b: Bytes): (d': Bytes)
    requires off + |b| <= |d|
    ensures |d'| == |d|
    ensures d'[off..off + |b|] == b
  {
    d[..off] + b + d[off + |b|..]
  }

  /** Splicing leaves every slice that it does not touch. */
  lemma SpliceElsewhere(d: Bytes, off: nat, b: Bytes, lo: nat, hi: nat)
    requires off + |b| <= |d| && lo <= hi <= |d| && (hi <= off || off + |b| <= lo)
    ensures Splice(d, off, b)[lo..hi] == d[lo..hi]
  {
    var d' := Splice(d, off, b);
    forall i | lo <= i < hi
      ensures d'[i] == d[i]
    {
      assert i >= off + |b| ==> d'[i] == d[off + |b|..][i - off - |b|];
    }
  }

  /** A zero-filled buffer of n bytes after `done` was written from the front. */
  function Filled(done: Bytes, n: nat): (d: Bytes)
    requires |done| <= n
    ensures |d| == n
  {
    done + Zeros(n - |done|)
  }

  /** Writing at the moving offset extends what was written. */
  lemma WriteNext(done: Bytes, n: nat, b: Bytes)
    requires |done| + |b| <= n
    ensures Splice(Filled(done, n), |done|, b) == Filled(done + b, n)
  {
  }

  // ----- concatenations of chunks -----

  function Flatten(cs: seq<Bytes>): Bytes {
    if cs == [] then [] else Flatten(cs[..|cs| - 1]) + cs[|cs| - 1]
  }

  lemma FlattenNone(cs: seq<Bytes>)
    ensures Flatten(cs[..0]) == []
  {
  }

  lemma FlattenSnoc(cs: seq<Bytes>, i: nat)
    requires i < |cs|
    ensures Flatten(cs[..i + 1]) == Flatten(cs[..i]) + cs[i]
  {
    assert cs[..i + 1][..i] == cs[..i];
  }

  lemma {:induction false} FlattenPrefix(cs: seq<Bytes>, i: nat)
    requires i <= |cs|
    ensures |Flatten(cs[..i])| <= |Flatten(cs)|
    ensures Flatten(cs)[..|Flatten(cs[..i])|] == Flatten(cs[..i])
    decreases |cs| - i
  {
    if i == |cs| {
      assert cs[..i] == cs;
    } else {
      FlattenPrefix(cs, i + 1);
      FlattenSnoc(cs, i);
      var f := Flatten(cs);
      var m := |Flatten(cs[..i])|;
      assert f[..m] == f[..m + |cs[i]|][..m];
    }
  }

  /** Chunk i starts where the chunks before it end. */
  lemma ChunkAt(cs: seq<Bytes>, i: nat)
    requires i < |cs|
    ensures var m := |Flatten(cs[..i])|;
            m + |cs[i]| <= |Flatten(cs)| && Flatten(cs)[m..m + |cs[i]|] == cs[i]
  {
    FlattenPrefix(cs, i + 1);
    FlattenSnoc(cs, i);
    var m := |Flatten(cs[..i])|;
    assert Flatten(cs)[m..m + |cs[i]|] == Flatten(cs)[..m + |cs[i]|][m..];
  }

  lemma {:induction false} FlattenSize(cs: seq<Bytes>, w: nat)
    ensures (forall i :: 0 <= i < |cs| ==> |cs[i]| <= w) ==> |Flatten(cs)| <= |cs| * w
    ensures (forall i :: 0 <= i < |cs| ==> |cs[i]| == w) ==> |Flatten(cs)| == |cs| * w
  {
    if cs != [] {
      FlattenSize(cs[..|cs| - 1], w);
      assert |cs| * w == (|cs| - 1) * w + w;
    }
  }
}
