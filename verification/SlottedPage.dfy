/** Slotted data pages: a header, a slot array growing up, and rows growing down from the end. */
module SlottedPage {
  import opened Wrappers
  import opened ByteCodec
  import opened PageHeader

  datatype Slot = Slot(offset: int, length: int)

  datatype PageError = NotEnoughSpace | SlotOutOfRange

  function SlotOffset(i: nat): nat {
    PAGE_HEADER_SIZE + i * SLOT_SIZE
  }

  /** Slot entry i of a page image. */
  function ReadSlot(d: Bytes, i: nat): Slot
    requires SlotOffset(i) + SLOT_SIZE <= |d|
  {
    Slot(GetU16(d, SlotOffset(i)), GetU16(d, SlotOffset(i) + 2))
  }

  function SlotBytes(s: Slot): (b: Bytes)
    requires 0 <= s.offset < U16_LIMIT && 0 <= s.length < U16_LIMIT
    ensures |b| == SLOT_SIZE
  {
    U16(s.offset) + U16(s.length)
  }

  lemma ReadSlotOf(d: Bytes, i: nat, s: Slot)
    requires 0 <= s.offset < U16_LIMIT && 0 <= s.length < U16_LIMIT
    requires SlotOffset(i) + SLOT_SIZE <= |d| && d[SlotOffset(i)..SlotOffset(i) + SLOT_SIZE] == SlotBytes(s)
    ensures ReadSlot(d, i) == s
  {
    var b, o := SlotBytes(s), SlotOffset(i);
    assert d[o..o + 2] == d[o..o + 4][..2] == b[..2] == U16(s.offset);
    assert d[o + 2..o + 4] == d[o..o + 4][2..] == b[2..] == U16(s.length);
    GetU16Of(d, o, s.offset);
    GetU16Of(d, o + 2, s.length);
  }

  /** A slot entry depends only on its own four bytes. */
  lemma SameSlot(d: Bytes, d': Bytes, i: nat)
    requires SlotOffset(i) + SLOT_SIZE <= |d| == |d'|
    requires d[SlotOffset(i)..SlotOffset(i) + SLOT_SIZE] == d'[SlotOffset(i)..SlotOffset(i) + SLOT_SIZE]
    ensures ReadSlot(d, i) == ReadSlot(d', i)
  {
    var o := SlotOffset(i);
    forall k | o <= k < o + 4
      ensures d[k] == d'[k]
    {
      assert d[k] == d[o..o + 4][k - o] && d'[k] == d'[o..o + 4][k - o];
    }
  }

  // ----- sound pages -----

  /** The slot is free, or its extent lies between the free offset and the end of the page. */
  predicate ExtentOK(s: Slot, freeOffset: int) {
    s.length > 0 ==> freeOffset <= s.offset && s.offset + s.length <= PAGE_SIZE
  }

  predicate Apart(s: Slot, t: Slot) {
    s.length > 0 && t.length > 0 ==> s.offset + s.length <= t.offset || t.offset + t.length <= s.offset
  }

  function HeaderOf(d: Bytes): Header
    requires |d| == PAGE_SIZE && Parse(d).Some?
  {
    Parse(d).value
  }

  /** The counters describe the gap between the slot array and the lowest row. */
  predicate Counted(h: Header) {
    && h.pageType == DATA
    && h.freeSpace == h.freeOffset - PAGE_HEADER_SIZE - SLOT_SIZE * h.slotCount
    && h.freeOffset <= PAGE_SIZE && h.freeSpace >= 0 && h.slotCount >= 0
  }

  ghost predicate SlotsOK(d: Bytes, count: nat, freeOffset: int)
    requires SlotOffset(count) <= |d|
  {
    && (forall i :: 0 <= i < count ==> ExtentOK(ReadSlot(d, i), freeOffset))
    && (forall i, j :: 0 <= i < j < count ==> Apart(ReadSlot(d, i), ReadSlot(d, j)))
  }

  /** The invariant of data pages: exact counters, and rows that neither overlap one another nor
      reach into the slot array. */
  ghost predicate Sound(d: Bytes) {
    && |d| == PAGE_SIZE && Parse(d).Some? && Counted(HeaderOf(d))
    && SlotsOK(d, HeaderOf(d).slotCount, HeaderOf(d).freeOffset)
  }

  /** What a slot holds: nothing once it was freed. */
  function RowIn(d: Bytes, s: Slot): Option<Bytes>
    requires s.length > 0 ==> 0 <= s.offset && s.offset + s.length <= |d|
  {
    if s.length <= 0 then None else Some(d[s.offset..s.offset + s.length])
  }

  /** The rows of a page by slot number. */
  ghost function Rows(d: Bytes): (rows: seq<Option<Bytes>>)
    requires Sound(d)
    ensures |rows| == HeaderOf(d).slotCount
    ensures forall i :: 0 <= i < |rows| ==> rows[i] == RowIn(d, ReadSlot(d, i))
  {
    seq(HeaderOf(d).slotCount, i requires 0 <= i < HeaderOf(d).slotCount => RowIn(d, ReadSlot(d, i)))
  }

  /** The room the header promises. */
  ghost function Free(d: Bytes): nat
    requires Sound(d)
  {
    HeaderOf(d).freeSpace
  }

  // ----- the images the operations write -----

  /** Room for the row and its slot entry. */
  predicate Fits(row: Bytes, h: Header) {
    |row| + SLOT_SIZE <= h.freeSpace
  }

  function InsertHeader(h: Header, row: Bytes): Header {
    h.(slotCount := h.slotCount + 1, freeSpace := h.freeSpace - (|row| + SLOT_SIZE),
       freeOffset := h.freeOffset - |row|)
  }

  lemma ParsedPackable(d: Bytes)
    requires |d| == PAGE_SIZE && Parse(d).Some?
    ensures Packable(HeaderOf(d))
  {
  }

  lemma InsertPackable(d: Bytes, row: Bytes)
    requires |d| == PAGE_SIZE && Parse(d).Some? && Counted(HeaderOf(d)) && Fits(row, HeaderOf(d))
    ensures var h := HeaderOf(d); Packable(InsertHeader(h, row)) && Counted(InsertHeader(h, row))
    ensures var h := HeaderOf(d); SlotOffset(h.slotCount) + SLOT_SIZE <= h.freeOffset - |row| <= PAGE_SIZE
  {
    ParsedPackable(d);
    hide Parse;
  }

  /** The page image after the insertion: row bytes, slot entry, header. */
  function Inserted(d: Bytes, row: Bytes): (d': Bytes)
    requires |d| == PAGE_SIZE && Parse(d).Some? && Counted(HeaderOf(d)) && Fits(row, HeaderOf(d))
    ensures |d'| == PAGE_SIZE
  {
    InsertPackable(d, row);
    var h := HeaderOf(d);
    var at := h.freeOffset - |row|;
    Splice(Splice(Splice(d, at, row), SlotOffset(h.slotCount), SlotBytes(Slot(at, |row|))), 0,
           Pack(InsertHeader(h, row)))
  }

  lemma InsertedWritten(d: Bytes, row: Bytes)
    requires Sound(d) && Fits(row, HeaderOf(d))
    ensures var d', h := Inserted(d, row), HeaderOf(d);
            var at, so := h.freeOffset - |row|, SlotOffset(h.slotCount);
            && d'[..PAGE_HEADER_SIZE] == Pack(InsertHeader(h, row))
            && so + SLOT_SIZE <= at && d'[so..so + SLOT_SIZE] == SlotBytes(Slot(at, |row|))
            && d'[at..at + |row|] == row
  {
    InsertPackable(d, row);
    var h := HeaderOf(d);
    hide Parse, Sound, SlotsOK, Pack, SlotBytes;
    var at, so := h.freeOffset - |row|, SlotOffset(h.slotCount);
    var s, p := SlotBytes(Slot(at, |row|)), Pack(InsertHeader(h, row));
    var d1 := Splice(d, at, row);
    var d2 := Splice(d1, so, s);
    hide Splice;
    SpliceElsewhere(d1, so, s, at, at + |row|);
    SpliceElsewhere(d2, 0, p, at, at + |row|);
    SpliceElsewhere(d2, 0, p, so, so + SLOT_SIZE);
  }

  lemma InsertedElsewhere(d: Bytes, row: Bytes, lo: nat, hi: nat)
    requires Sound(d) && Fits(row, HeaderOf(d)) && PAGE_HEADER_SIZE <= lo <= hi <= PAGE_SIZE
    requires hi <= SlotOffset(HeaderOf(d).slotCount) || HeaderOf(d).freeOffset <= lo
    ensures Inserted(d, row)[lo..hi] == d[lo..hi]
  {
    InsertPackable(d, row);
    var h := HeaderOf(d);
    hide Parse, Sound, SlotsOK, Pack, SlotBytes;
    var at, so := h.freeOffset - |row|, SlotOffset(h.slotCount);
    var s, p := SlotBytes(Slot(at, |row|)), Pack(InsertHeader(h, row));
    var d1 := Splice(d, at, row);
    var d2 := Splice(d1, so, s);
    hide Splice;
    SpliceElsewhere(d, at, row, lo, hi);
    SpliceElsewhere(d1, so, s, lo, hi);
    SpliceElsewhere(d2, 0, p, lo, hi);
  }

  lemma InsertedHeader(d: Bytes, row: Bytes)
    requires Sound(d) && Fits(row, HeaderOf(d))
    ensures Parse(Inserted(d, row)) == Some(InsertHeader(HeaderOf(d), row))
  {
    InsertedWritten(d, row);
    InsertPackable(d, row);
    hide Inserted, Sound, Pack, SlotBytes;
    ParsePack(Inserted(d, row), InsertHeader(HeaderOf(d), row));
  }

  /** Old slots read as before; the new one describes the new row. */
  lemma InsertedSlot(d: Bytes, row: Bytes, i: nat)
    requires Sound(d) && Fits(row, HeaderOf(d)) && i <= HeaderOf(d).slotCount
    ensures var h := HeaderOf(d);
            SlotOffset(i) + SLOT_SIZE <= PAGE_SIZE
            && ReadSlot(Inserted(d, row), i)
               == if i == h.slotCount then Slot(h.freeOffset - |row|, |row|) else ReadSlot(d, i)
  {
    InsertPackable(d, row);
    InsertedWritten(d, row);
    var h, d' := HeaderOf(d), Inserted(d, row);
    if i == h.slotCount {
      hide Inserted, Sound, Pack, Parse;
      ReadSlotOf(d', i, Slot(h.freeOffset - |row|, |row|));
    } else {
      InsertedElsewhere(d, row, SlotOffset(i), SlotOffset(i) + SLOT_SIZE);
      hide Inserted, Sound, Pack, Parse;
      SameSlot(d', d, i);
    }
  }

  lemma InsertSound(d: Bytes, row: Bytes)
    requires Sound(d) && Fits(row, HeaderOf(d))
    ensures Sound(Inserted(d, row))
    ensures HeaderOf(Inserted(d, row)) == InsertHeader(HeaderOf(d), row)
  {
    var h, d' := HeaderOf(d), Inserted(d, row);
    var h', n := InsertHeader(h, row), h.slotCount;
    InsertPackable(d, row);
    InsertedHeader(d, row);
    assert SlotsOK(d, n, h.freeOffset);
    forall i | 0 <= i < n + 1
      ensures ExtentOK(ReadSlot(d', i), h'.freeOffset)
    {
      InsertedSlot(d, row, i);
      assert i < n ==> ExtentOK(ReadSlot(d, i), h.freeOffset);
    }
    forall i, j | 0 <= i < j < n + 1
      ensures Apart(ReadSlot(d', i), ReadSlot(d', j))
    {
      InsertedSlot(d, row, i);
      InsertedSlot(d, row, j);
      assert ExtentOK(ReadSlot(d, i), h.freeOffset);
      assert j < n ==> Apart(ReadSlot(d, i), ReadSlot(d, j));
    }
    hide ReadSlot, Parse, Inserted;
  }

  /** The new row goes to the next slot; every other slot holds what it held. */
  lemma InsertRows(d: Bytes, row: Bytes)
    requires Sound(d) && Fits(row, HeaderOf(d)) && row != []
    ensures Sound(Inserted(d, row)) && Rows(Inserted(d, row)) == Rows(d) + [Some(row)]
    ensures Free(Inserted(d, row)) == Free(d) - |row| - SLOT_SIZE
    ensures HeaderOf(Inserted(d, row)).nextPage == HeaderOf(d).nextPage
  {
    InsertSound(d, row);
    var h, d' := HeaderOf(d), Inserted(d, row);
    hide Inserted, Parse, ReadSlot, RowIn;
    forall i | 0 <= i < |Rows(d')|
      ensures Rows(d')[i] == (Rows(d) + [Some(row)])[i]
    {
      InsertedRow(d, row, i);
    }
  }

  lemma InsertedRow(d: Bytes, row: Bytes, i: nat)
    requires Sound(d) && Fits(row, HeaderOf(d)) && row != [] && i <= HeaderOf(d).slotCount
    requires Sound(Inserted(d, row)) && HeaderOf(Inserted(d, row)) == InsertHeader(HeaderOf(d), row)
    ensures i == HeaderOf(d).slotCount ==> Rows(Inserted(d, row))[i] == Some(row)
    ensures i < HeaderOf(d).slotCount ==> Rows(Inserted(d, row))[i] == Rows(d)[i]
  {
    hide Inserted, Parse, ReadSlot, Pack, SlotBytes;
    InsertedWritten(d, row);
    InsertedSlot(d, row, i);
    var h, d', s := HeaderOf(d), Inserted(d, row), ReadSlot(d, i);
    assert i < h.slotCount ==> ExtentOK(s, h.freeOffset);
    hide Sound, SlotsOK;
    if i < h.slotCount && s.length > 0 {
      InsertedElsewhere(d, row, s.offset, s.offset + s.length);
    }
  }

  /** Rewriting the header changes no other byte. */
  function WithHeader(d: Bytes, h: Header): (d': Bytes)
    requires |d| == PAGE_SIZE && Packable(h)
    ensures |d'| == PAGE_SIZE
  {
    Splice(d, 0, Pack(h))
  }

  lemma WithHeaderReads(d: Bytes, h: Header)
    requires |d| == PAGE_SIZE && Packable(h)
    ensures Parse(WithHeader(d, h)) == Some(h)
    ensures forall lo, hi :: PAGE_HEADER_SIZE <= lo <= hi <= PAGE_SIZE ==> WithHeader(d, h)[lo..hi] == d[lo..hi]
  {
    hide Pack, Parse;
    ParsePack(WithHeader(d, h), h);
    forall lo, hi | PAGE_HEADER_SIZE <= lo <= hi <= PAGE_SIZE
      ensures WithHeader(d, h)[lo..hi] == d[lo..hi]
    {
      SpliceElsewhere(d, 0, Pack(h), lo, hi);
    }
  }

  /** The image after freeing a slot: its entry is zeroed, its bytes stay. */
  function Freed(d: Bytes, i: nat): (d': Bytes)
    requires |d| == PAGE_SIZE && Parse(d).Some? && SlotOffset(i) + SLOT_SIZE <= PAGE_SIZE
    ensures |d'| == PAGE_SIZE
  {
    ParsedPackable(d);
    WithHeader(Splice(d, SlotOffset(i), SlotBytes(Slot(0, 0))), HeaderOf(d))
  }

  lemma FreedReads(d: Bytes, i: nat)
    requires |d| == PAGE_SIZE && Parse(d).Some? && SlotOffset(i) + SLOT_SIZE <= PAGE_SIZE
    ensures Parse(Freed(d, i)) == Parse(d)
    ensures ReadSlot(Freed(d, i), i) == Slot(0, 0)
    ensures forall lo, hi :: PAGE_HEADER_SIZE <= lo <= hi <= PAGE_SIZE
                             && (hi <= SlotOffset(i) || SlotOffset(i) + SLOT_SIZE <= lo) ==>
              Freed(d, i)[lo..hi] == d[lo..hi]
  {
    ParsedPackable(d);
    var z, so := SlotBytes(Slot(0, 0)), SlotOffset(i);
    var d1 := Splice(d, so, z);
    hide Parse, Splice, SlotBytes, ReadSlot, WithHeader;
    WithHeaderReads(d1, HeaderOf(d));
    ReadSlotOf(Freed(d, i), i, Slot(0, 0));
    forall lo, hi | PAGE_HEADER_SIZE <= lo <= hi <= PAGE_SIZE && (hi <= so || so + SLOT_SIZE <= lo)
      ensures Freed(d, i)[lo..hi] == d[lo..hi]
    {
      SpliceElsewhere(d, so, z, lo, hi);
    }
  }

  lemma FreedSlot(d: Bytes, i: nat, j: nat)
    requires Sound(d) && i < HeaderOf(d).slotCount && j < HeaderOf(d).slotCount
    ensures SlotOffset(i) + SLOT_SIZE <= PAGE_SIZE
    ensures ReadSlot(Freed(d, i), j) == if i == j then Slot(0, 0) else ReadSlot(d, j)
  {
    FreedReads(d, i);
    hide Parse, Freed, ReadSlot;
    if i != j {
      SameSlot(Freed(d, i), d, j);
    }
  }

  /** Freeing takes the row out and leaves every other slot as it was. */
  lemma FreeRows(d: Bytes, i: nat)
    requires Sound(d) && i < HeaderOf(d).slotCount
    ensures SlotOffset(i) + SLOT_SIZE <= PAGE_SIZE
    ensures Sound(Freed(d, i)) && HeaderOf(Freed(d, i)) == HeaderOf(d)
    ensures Rows(Freed(d, i)) == Rows(d)[i := None]
  {
    FreedReads(d, i);
    var h, d' := HeaderOf(d), Freed(d, i);
    hide Parse, Freed, ReadSlot;
    forall j | 0 <= j < h.slotCount
      ensures ReadSlot(d', j) == if i == j then Slot(0, 0) else ReadSlot(d, j)
      ensures ExtentOK(ReadSlot(d', j), h.freeOffset)
    {
      FreedSlot(d, i, j);
      assert ExtentOK(ReadSlot(d, j), h.freeOffset);
    }
    forall j, k | 0 <= j < k < h.slotCount
      ensures Apart(ReadSlot(d', j), ReadSlot(d', k))
    {
      assert Apart(ReadSlot(d, j), ReadSlot(d, k));
    }
    FreeContents(d, i);
  }

  lemma FreeContents(d: Bytes, i: nat)
    requires Sound(d) && i < HeaderOf(d).slotCount && Sound(Freed(d, i)) && HeaderOf(Freed(d, i)) == HeaderOf(d)
    ensures Rows(Freed(d, i)) == Rows(d)[i := None]
  {
    FreedReads(d, i);
    var h, d' := HeaderOf(d), Freed(d, i);
    hide Parse, Freed, ReadSlot;
    forall j | 0 <= j < h.slotCount
      ensures Rows(d')[j] == Rows(d)[i := None][j]
    {
      FreedSlot(d, i, j);
      var s := ReadSlot(d, j);
      if s.length > 0 {
        assert ExtentOK(s, h.freeOffset);
        assert d'[s.offset..s.offset + s.length] == d[s.offset..s.offset + s.length];
      }
    }
  }

  /** Chaining a page to another: only the link changes. */
  lemma LinkRows(d: Bytes, next: int)
    requires Sound(d) && 0 <= next < U32_LIMIT
    ensures var h := HeaderOf(d).(nextPage := next);
            && Packable(h) && Sound(WithHeader(d, h)) && HeaderOf(WithHeader(d, h)) == h
            && Rows(WithHeader(d, h)) == Rows(d)
  {
    ParsedPackable(d);
    var h := HeaderOf(d).(nextPage := next);
    var d' := WithHeader(d, h);
    WithHeaderReads(d, h);
    hide Parse, WithHeader, ReadSlot;
    forall j | 0 <= j < h.slotCount
      ensures ReadSlot(d', j) == ReadSlot(d, j) && ExtentOK(ReadSlot(d', j), h.freeOffset)
    {
      SameSlot(d', d, j);
      assert ExtentOK(ReadSlot(d, j), h.freeOffset);
    }
    forall j, k | 0 <= j < k < h.slotCount
      ensures Apart(ReadSlot(d', j), ReadSlot(d', k))
    {
      assert Apart(ReadSlot(d, j), ReadSlot(d, k));
    }
  }

  /** A fresh data page. */
  function EmptyPage(id: int): (d: Bytes)
    requires 0 <= id < U32_LIMIT
    ensures |d| == PAGE_SIZE
  {
    WithHeader(Zeros(PAGE_SIZE), Header(id, DATA, 0, MAX_FREE_SPACE, PAGE_SIZE, 0, 0))
  }

  lemma EmptyRows(id: int)
    requires 0 <= id < U32_LIMIT
    ensures Sound(EmptyPage(id)) && Rows(EmptyPage(id)) == [] && Free(EmptyPage(id)) == MAX_FREE_SPACE
    ensures HeaderOf(EmptyPage(id)).nextPage == 0
  {
    WithHeaderReads(Zeros(PAGE_SIZE), Header(id, DATA, 0, MAX_FREE_SPACE, PAGE_SIZE, 0, 0));
  }

  // ----- the page object -----

  class Page {
    var data: Bytes
    var dirty: bool

    constructor (data: Bytes)
      ensures this.data == data && !dirty
    {
      this.data, dirty := data, false;
    }

    /** Appends a row; the error leaves the page alone. */
    method InsertRow(row: Bytes) returns (r: Result<nat, PageError>)
      requires Sound(data) && row != []
      modifies this
      ensures Sound(data)
      ensures r.Ok? <==> |row| + SLOT_SIZE <= old(Free(data))
      ensures r.Ok? ==> r.value == |old(Rows(data))| && Rows(data) == old(Rows(data)) + [Some(row)] && dirty
      ensures r.Ok? ==> Free(data) == old(Free(data)) - |row| - SLOT_SIZE
      ensures r.Ok? ==> HeaderOf(data).nextPage == HeaderOf(old(data)).nextPage
      ensures r.Err? ==> data == old(data) && r.error == NotEnoughSpace
    {
      var h := HeaderOf(data);
      if |row| + SLOT_SIZE > h.freeSpace {
        return Err(NotEnoughSpace);
      }
      InsertRows(data, row);
      hide Sound, Rows, Parse, Inserted;
      Put(row);
      r := Ok(h.slotCount);
    }

    /** Row bytes, slot entry and header, written one after the other. */
    method Put(row: Bytes)
      requires Sound(data) && Fits(row, HeaderOf(data))
      modifies this
      ensures data == Inserted(old(data), row) && dirty
    {
      hide SlotsOK, Pack, Splice, SlotBytes, Parse;
      InsertPackable(data, row);
      var h := HeaderOf(data);
      ghost var after := Inserted(data, row);
      hide Sound, HeaderOf;
      var at := h.freeOffset - |row|;
      var image := Splice(data, at, row);
      image := Splice(image, SlotOffset(h.slotCount), SlotBytes(Slot(at, |row|)));
      image := Splice(image, 0, Pack(h.(slotCount := h.slotCount + 1, freeSpace := h.freeSpace - (|row| + SLOT_SIZE),
                                        freeOffset := at)));
      assert image == after;
      hide Inserted;
      data, dirty := image, true;
    }

    /** The row in a slot; nothing when there is no such slot or it was freed. */
    method GetRow(i: nat) returns (row: Option<Bytes>)
      requires Sound(data)
      ensures row == if i < |Rows(data)| then Rows(data)[i] else None
    {
      var h := HeaderOf(data);
      if i >= h.slotCount {
        return None;
      }
      assert ExtentOK(ReadSlot(data, i), h.freeOffset);
      var s := ReadSlot(data, i);
      if s.length == 0 {
        return None;
      }
      return Some(data[s.offset..s.offset + s.length]);
    }

    /** Frees a slot; a slot number that was never used is an error. */
    method DeleteRow(i: nat) returns (r: Result<(), PageError>)
      requires Sound(data)
      modifies this
      ensures Sound(data) && r == (if i < |old(Rows(data))| then Ok(()) else Err(SlotOutOfRange))
      ensures r.Ok? ==> Rows(data) == old(Rows(data))[i := None] && dirty && HeaderOf(data) == HeaderOf(old(data))
      ensures r.Err? ==> data == old(data)
    {
      var h := HeaderOf(data);
      if i >= h.slotCount {
        return Err(SlotOutOfRange);
      }
      FreeRows(data, i);
      ParsedPackable(data);
      hide Sound, Rows, Pack, Splice, SlotBytes, Parse;
      var image := Splice(data, SlotOffset(i), SlotBytes(Slot(0, 0)));
      image := Splice(image, 0, Pack(h));
      data, dirty := image, true;
      r := Ok(());
    }
  }
}
