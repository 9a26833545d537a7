/** The in-place branch of an update: what one update of a sound page shows, and what it leaves. */
module PageUpdate {
  import opened Wrappers
  import opened ByteCodec
  import opened PageHeader
  import opened SlottedPage

  /** The new row goes below all others, its slot is redirected, and the old length is added to
      the free space although no bytes move. */
  function UpdateHeader(h: Header, prior: Slot, row: Bytes): Header {
    h.(freeSpace := h.freeSpace + prior.length - |row|, freeOffset := h.freeOffset - |row|)
  }

  lemma UpdatePackable(d: Bytes, i: nat, row: Bytes)
    requires Sound(d) && i < HeaderOf(d).slotCount && |row| <= HeaderOf(d).freeSpace
    ensures SlotOffset(i) + SLOT_SIZE <= SlotOffset(HeaderOf(d).slotCount)
    ensures SlotOffset(HeaderOf(d).slotCount) <= HeaderOf(d).freeOffset - |row| <= PAGE_SIZE
    ensures Packable(UpdateHeader(HeaderOf(d), ReadSlot(d, i), row))
  {
    ParsedPackable(d);
    hide Parse;
    assert ExtentOK(ReadSlot(d, i), HeaderOf(d).freeOffset);
  }

  function Updated(d: Bytes, i: nat, row: Bytes): (d': Bytes)
    requires Sound(d) && i < HeaderOf(d).slotCount && |row| <= HeaderOf(d).freeSpace
    ensures |d'| == PAGE_SIZE
  {
    UpdatePackable(d, i, row);
    var h := HeaderOf(d);
    var at := h.freeOffset - |row|;
    Splice(Splice(Splice(d, at, row), SlotOffset(i), SlotBytes(Slot(at, |row|))), 0,
           Pack(UpdateHeader(h, ReadSlot(d, i), row)))
  }

  lemma UpdatedWritten(d: Bytes, i: nat, row: Bytes)
    requires Sound(d) && i < HeaderOf(d).slotCount && |row| <= HeaderOf(d).freeSpace
    ensures var d', h := Updated(d, i, row), HeaderOf(d);
            var at, so := h.freeOffset - |row|, SlotOffset(i);
            && Parse(d') == Some(UpdateHeader(h, ReadSlot(d, i), row))
            && ReadSlot(d', i) == Slot(at, |row|) && d'[at..at + |row|] == row
  {
    hide Parse, SlotsOK, Pack, SlotBytes, ReadSlot;
    UpdatePackable(d, i, row);
    var h := HeaderOf(d);
    var at, so := h.freeOffset - |row|, SlotOffset(i);
    var s, p := SlotBytes(Slot(at, |row|)), Pack(UpdateHeader(h, ReadSlot(d, i), row));
    var d1 := Splice(d, at, row);
    var d2 := Splice(d1, so, s);
    hide Splice, Sound;
    SpliceElsewhere(d1, so, s, at, at + |row|);
    SpliceElsewhere(d2, 0, p, at, at + |row|);
    SpliceElsewhere(d2, 0, p, so, so + SLOT_SIZE);
    ReadSlotOf(Updated(d, i, row), i, Slot(at, |row|));
    ParsePack(Updated(d, i, row), UpdateHeader(h, ReadSlot(d, i), row));
  }

  lemma UpdatedElsewhere(d: Bytes, i: nat, row: Bytes, lo: nat, hi: nat)
    requires Sound(d) && i < HeaderOf(d).slotCount && |row| <= HeaderOf(d).freeSpace
    requires PAGE_HEADER_SIZE <= lo <= hi <= PAGE_SIZE && (hi <= SlotOffset(i) || SlotOffset(i) + SLOT_SIZE <= lo)
    requires hi <= SlotOffset(HeaderOf(d).slotCount) || HeaderOf(d).freeOffset <= lo
    ensures Updated(d, i, row)[lo..hi] == d[lo..hi]
  {
    hide Parse, SlotsOK, Pack, SlotBytes, ReadSlot;
    UpdatePackable(d, i, row);
    var h := HeaderOf(d);
    var at, so := h.freeOffset - |row|, SlotOffset(i);
    var s, p := SlotBytes(Slot(at, |row|)), Pack(UpdateHeader(h, ReadSlot(d, i), row));
    var d1 := Splice(d, at, row);
    var d2 := Splice(d1, so, s);
    hide Splice, Sound;
    SpliceElsewhere(d, at, row, lo, hi);
    SpliceElsewhere(d1, so, s, lo, hi);
    SpliceElsewhere(d2, 0, p, lo, hi);
  }

  lemma UpdatedSlot(d: Bytes, i: nat, row: Bytes, j: nat)
    requires Sound(d) && i < HeaderOf(d).slotCount && |row| <= HeaderOf(d).freeSpace && j < HeaderOf(d).slotCount
    ensures SlotOffset(j) + SLOT_SIZE <= PAGE_SIZE
    ensures ReadSlot(Updated(d, i, row), j)
            == if j == i then Slot(HeaderOf(d).freeOffset - |row|, |row|) else ReadSlot(d, j)
  {
    hide Parse, SlotsOK, Updated, ReadSlot;
    UpdatePackable(d, i, row);
    if i == j {
      UpdatedWritten(d, i, row);
    } else {
      UpdatedElsewhere(d, i, row, SlotOffset(j), SlotOffset(j) + SLOT_SIZE);
      SameSlot(Updated(d, i, row), d, j);
    }
  }

  /** When the new row fits the gap, one update of a sound page shows the new row under the same
      slot and every other row as it was. */
  lemma UpdateShows(d: Bytes, i: nat, row: Bytes, j: nat)
    requires Sound(d) && i < HeaderOf(d).slotCount && j < HeaderOf(d).slotCount
    requires row != [] && |row| <= HeaderOf(d).freeSpace
    ensures var d' := Updated(d, i, row);
            && SlotOffset(j) + SLOT_SIZE <= PAGE_SIZE
            && (ReadSlot(d', j).length > 0 ==> ReadSlot(d', j).offset + ReadSlot(d', j).length <= PAGE_SIZE)
            && RowIn(d', ReadSlot(d', j)) == if j == i then Some(row) else Rows(d)[j]
  {
    hide Parse, Updated, ReadSlot;
    UpdatePackable(d, i, row);
    UpdatedSlot(d, i, row, j);
    UpdatedWritten(d, i, row);
    var h, s := HeaderOf(d), ReadSlot(d, j);
    assert ExtentOK(s, h.freeOffset);
    if j != i && s.length > 0 {
      UpdatedElsewhere(d, i, row, s.offset, s.offset + s.length);
    }
  }

  /** But the counters no longer describe the gap, unless the slot was free: the page stays sound
      exactly when there was no old row, and otherwise the header promises its length too much. */
  lemma UpdateSoundIff(d: Bytes, i: nat, row: Bytes)
    requires Sound(d) && i < HeaderOf(d).slotCount && row != [] && |row| <= HeaderOf(d).freeSpace
    ensures Sound(Updated(d, i, row)) <==> Rows(d)[i] == None
    ensures Parse(Updated(d, i, row)).Some?
    ensures var h' := HeaderOf(Updated(d, i, row));
            h'.freeSpace == h'.freeOffset - PAGE_HEADER_SIZE - SLOT_SIZE * h'.slotCount + ReadSlot(d, i).length
  {
    hide Parse, Updated, ReadSlot, SlotsOK;
    UpdatePackable(d, i, row);
    UpdatedWritten(d, i, row);
    assert ReadSlot(d, i).length >= 0 by {
      SlotNat(d, i);
    }
    if Rows(d)[i] == None {
      UpdateSlotsOK(d, i, row);
    }
  }

  lemma SlotNat(d: Bytes, i: nat)
    requires SlotOffset(i) + SLOT_SIZE <= |d|
    ensures ReadSlot(d, i).length >= 0
  {
  }

  lemma UpdateSlotsOK(d: Bytes, i: nat, row: Bytes)
    requires Sound(d) && i < HeaderOf(d).slotCount && |row| <= HeaderOf(d).freeSpace
    ensures var h := HeaderOf(d); SlotOffset(h.slotCount) <= PAGE_SIZE
    ensures var h := HeaderOf(d); SlotsOK(Updated(d, i, row), h.slotCount, h.freeOffset - |row|)
  {
    hide Parse, Updated, ReadSlot;
    UpdatePackable(d, i, row);
    var h, d' := HeaderOf(d), Updated(d, i, row);
    forall j | 0 <= j < h.slotCount
      ensures ExtentOK(ReadSlot(d', j), h.freeOffset - |row|)
    {
      UpdatedSlot(d, i, row, j);
      assert ExtentOK(ReadSlot(d, j), h.freeOffset);
    }
    forall j, k | 0 <= j < k < h.slotCount
      ensures Apart(ReadSlot(d', j), ReadSlot(d', k))
    {
      UpdatedSlot(d, i, row, j);
      UpdatedSlot(d, i, row, k);
      assert ExtentOK(ReadSlot(d, j), h.freeOffset) && ExtentOK(ReadSlot(d, k), h.freeOffset);
      assert Apart(ReadSlot(d, j), ReadSlot(d, k));
    }
  }
}
