/** The 32-byte header every page starts with (format "<IBHHHIB16x"). */
module PageHeader {
  import opened Wrappers
  import opened ByteCodec

  const PAGE_HEADER_SIZE := 32
  const SLOT_SIZE := 4
  const MAX_FREE_SPACE := PAGE_SIZE - PAGE_HEADER_SIZE

  datatype PageType = DATA | CATALOG | INDEX

  function TypeByte(t: PageType): Byte {
    match t
    case DATA => 1
    case CATALOG => 2
    case INDEX => 3
  }

  datatype Header = Header(
    pageId: int, pageType: PageType, slotCount: int, freeSpace: int, freeOffset: int, nextPage: int, flags: int)

  /** Every field fits the width the format gives it. */
  predicate Packable(h: Header) {
    && 0 <= h.pageId < U32_LIMIT && 0 <= h.nextPage < U32_LIMIT
    && 0 <= h.slotCount < U16_LIMIT && 0 <= h.freeSpace < U16_LIMIT && 0 <= h.freeOffset < U16_LIMIT
    && 0 <= h.flags < 256
  }

  function Pack(h: Header): (b: Bytes)
    requires Packable(h)
    ensures |b| == PAGE_HEADER_SIZE
  {
    U32(h.pageId) + [TypeByte(h.pageType)] + U16(h.slotCount) + U16(h.freeSpace) + U16(h.freeOffset)
    + U32(h.nextPage) + [h.flags] + Zeros(16)
  }

  /** None stands for the ValueError that an unknown page type raises. */
  function Parse(d: Bytes): Option<Header>
    requires |d| >= PAGE_HEADER_SIZE
  {
    if 1 <= d[4] <= 3 then
      Some(Header(GetU32(d, 0), if d[4] == 1 then DATA else if d[4] == 2 then CATALOG else INDEX,
                  GetU16(d, 5), GetU16(d, 7), GetU16(d, 9), GetU32(d, 11), d[15]))
    else None
  }

  lemma ParsePack(d: Bytes, h: Header)
    requires Packable(h) && |d| >= PAGE_HEADER_SIZE && d[..PAGE_HEADER_SIZE] == Pack(h)
    ensures Parse(d) == Some(h)
  {
    var b := Pack(h);
    FieldAt(d, b, 0, 4);
    FieldAt(d, b, 5, 7);
    FieldAt(d, b, 7, 9);
    FieldAt(d, b, 9, 11);
    FieldAt(d, b, 11, 15);
    assert d[4] == d[..PAGE_HEADER_SIZE][4] == b[4];
    assert d[15] == d[..PAGE_HEADER_SIZE][15] == b[15];
    GetU32Of(d, 0, h.pageId);
    GetU16Of(d, 5, h.slotCount);
    GetU16Of(d, 7, h.freeSpace);
    GetU16Of(d, 9, h.freeOffset);
    GetU32Of(d, 11, h.nextPage);
  }

  /** Where the packed header has its fields. */
  lemma HeaderLayout(h: Header)
    requires Packable(h)
    ensures var b := Pack(h);
            && |b| == 32 && GetU32(b, 0) == h.pageId
            && b[4] == (match h.pageType case DATA => 1 case CATALOG => 2 case INDEX => 3)
            && GetU16(b, 5) == h.slotCount && GetU16(b, 7) == h.freeSpace && GetU16(b, 9) == h.freeOffset
            && GetU32(b, 11) == h.nextPage && b[15] == h.flags && forall i :: 16 <= i < 32 ==> b[i] == 0
  {
    var b := Pack(h);
    assert b[..PAGE_HEADER_SIZE] == b;
    ParsePack(b, h);
    hide U32, U16, GetU32, GetU16;
  }

  lemma FieldAt(d: Bytes, b: Bytes, lo: nat, hi: nat)
    requires |b| <= |d| && lo <= hi <= |b| && d[..|b|] == b
    ensures d[lo..hi] == b[lo..hi]
  {
    forall i | lo <= i < hi
      ensures d[i] == b[i]
    {
      assert d[i] == d[..|b|][i];
    }
  }
}
