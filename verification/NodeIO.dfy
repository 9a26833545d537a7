/** Writing a node with a moving offset, and parsing it back. */
module NodeIO {
  import opened Wrappers
  import opened ByteCodec
  import opened PageHeader
  import opened KeyOrder
  import opened BTreeModel
  import opened NodePage
  import opened RowIds

  /** Appends b at the moving offset of a zero-filled page. */
  method Append(data: Bytes, offset: nat, b: Bytes, ghost done: Bytes) returns (data': Bytes, offset': nat)
    requires |done| + |b| <= PAGE_SIZE && data == Filled(done, PAGE_SIZE) && offset == |done|
    ensures data' == Filled(done + b, PAGE_SIZE) && offset' == |done + b|
  {
    WriteNext(done, PAGE_SIZE, b);
    data' := Splice(data, offset, b);
    offset' := offset + |b|;
  }

  lemma RoomForChunk(done: Bytes, cs: seq<Bytes>, i: nat)
    requires i < |cs| && |done| + |Flatten(cs)| <= PAGE_SIZE
    ensures |done + Flatten(cs[..i])| + |cs[i]| <= PAGE_SIZE
    ensures done + Flatten(cs[..i + 1]) == done + Flatten(cs[..i]) + cs[i]
  {
    ChunkAt(cs, i);
    FlattenSnoc(cs, i);
    hide Flatten;
    var f := Flatten(cs[..i]);
    assert done + (f + cs[i]) == done + f + cs[i];
  }

  method PackEntries(data: Bytes, offset: nat, es: seq<Entry>, ghost done: Bytes)
    returns (data': Bytes, offset': nat)
    requires forall i :: 0 <= i < |es| ==> EntryWidths(es[i])
    requires |done| + |Flatten(EntryChunks(es))| <= PAGE_SIZE
    requires data == Filled(done, PAGE_SIZE) && offset == |done|
    ensures data' == Filled(done + Flatten(EntryChunks(es)), PAGE_SIZE)
    ensures offset' == |done + Flatten(EntryChunks(es))|
  {
    hide Filled, Flatten, U16, U32;
    ghost var cs := EntryChunks(es);
    data', offset' := data, offset;
    FlattenNone(cs);
    assert done + Flatten(cs[..0]) == done;
    var i := 0;
    while i < |es|
      invariant 0 <= i <= |es|
      invariant |done + Flatten(cs[..i])| <= PAGE_SIZE
      invariant data' == Filled(done + Flatten(cs[..i]), PAGE_SIZE) && offset' == |done + Flatten(cs[..i])|
    {
      var e := es[i];
      ghost var d := done + Flatten(cs[..i]);
      RoomForChunk(done, cs, i);
      data', offset' := Append(data', offset', U16(|e.key|), d);
      data', offset' := Append(data', offset', e.key, d + U16(|e.key|));
      data', offset' := Append(data', offset', U32(e.ptr.page) + U32(e.ptr.slot), d + U16(|e.key|) + e.key);
      assert d + U16(|e.key|) + e.key + (U32(e.ptr.page) + U32(e.ptr.slot)) == d + cs[i];
      i := i + 1;
    }
    assert cs[..|es|] == cs;
  }

  method PackKeys(data: Bytes, offset: nat, keys: seq<Key>, ghost done: Bytes)
    returns (data': Bytes, offset': nat)
    requires forall i :: 0 <= i < |keys| ==> |keys[i]| < U16_LIMIT
    requires |done| + |Flatten(KeyChunks(keys))| <= PAGE_SIZE
    requires data == Filled(done, PAGE_SIZE) && offset == |done|
    ensures data' == Filled(done + Flatten(KeyChunks(keys)), PAGE_SIZE)
    ensures offset' == |done + Flatten(KeyChunks(keys))|
  {
    ghost var cs := KeyChunks(keys);
    data', offset' := data, offset;
    assert done + Flatten(cs[..0]) == done;
    var i := 0;
    while i < |keys|
      invariant 0 <= i <= |keys|
      invariant |done + Flatten(cs[..i])| <= PAGE_SIZE
      invariant data' == Filled(done + Flatten(cs[..i]), PAGE_SIZE) && offset' == |done + Flatten(cs[..i])|
    {
      ghost var d := done + Flatten(cs[..i]);
      RoomForChunk(done, cs, i);
      data', offset' := Append(data', offset', U16(|keys[i]|), d);
      data', offset' := Append(data', offset', keys[i], d + U16(|keys[i]|));
      assert d + U16(|keys[i]|) + keys[i] == d + cs[i];
      i := i + 1;
    }
    assert cs[..|keys|] == cs;
  }

  method PackChildren(data: Bytes, offset: nat, children: seq<PageId>, ghost done: Bytes)
    returns (data': Bytes, offset': nat)
    requires forall i :: 0 <= i < |children| ==> 0 <= children[i] < U32_LIMIT
    requires |done| + |Flatten(ChildChunks(children))| <= PAGE_SIZE
    requires data == Filled(done, PAGE_SIZE) && offset == |done|
    ensures data' == Filled(done + Flatten(ChildChunks(children)), PAGE_SIZE)
    ensures offset' == |done + Flatten(ChildChunks(children))|
  {
    ghost var cs := ChildChunks(children);
    data', offset' := data, offset;
    assert done + Flatten(cs[..0]) == done;
    var i := 0;
    while i < |children|
      invariant 0 <= i <= |children|
      invariant |done + Flatten(cs[..i])| <= PAGE_SIZE
      invariant data' == Filled(done + Flatten(cs[..i]), PAGE_SIZE) && offset' == |done + Flatten(cs[..i])|
    {
      RoomForChunk(done, cs, i);
      data', offset' := Append(data', offset', U32(children[i]), done + Flatten(cs[..i]));
      i := i + 1;
    }
    assert cs[..|children|] == cs;
  }

  /** The page image that _persist_node builds. */
  method PackNode(p: PageId, n: NodeRec) returns (data: Bytes)
    requires 0 <= p < U32_LIMIT && Fits(n)
    ensures data == NodeBytes(p, n)
  {
    hide Filled, Flatten, U16, U32, Pack;
    var offset := 0;
    data := Zeros(PAGE_SIZE);
    BlankPage();
    ghost var done := [];
    var header := Pack(Header(p, INDEX, 0, 0, PAGE_SIZE, 0, 0));
    data, offset := Append(data, offset, header, done);
    assert done + header == header;
    var flag: Bytes := [if n.LeafRec? then 1 else 0];
    data, offset := Append(data, offset, flag, header);
    data, offset := Append(data, offset, U16(CountOf(n)), header + flag);
    data, offset := Append(data, offset, [0], header + flag + U16(CountOf(n)));
    data := PackBody(data, offset, n, Prefix(p, n));
  }

  method PackBody(data: Bytes, offset: nat, n: NodeRec, ghost done: Bytes) returns (data': Bytes)
    requires Fits(n) && |done| == NODE_DATA_OFFSET && data == Filled(done, PAGE_SIZE) && offset == |done|
    ensures data' == Filled(done + Body(n), PAGE_SIZE)
  {
    hide Filled, Flatten, U16, U32;
    var offset' := offset;
    match n
    case LeafRec(es, next) =>
      ghost var part := Flatten(EntryChunks(es));
      data', offset' := PackEntries(data, offset, es, done);
      data', offset' := Append(data', offset', U32(next), done + part);
      assert done + part + U32(next) == done + (part + U32(next));
    case InternalRec(keys, children) =>
      ghost var part := Flatten(KeyChunks(keys));
      data', offset' := PackKeys(data, offset, keys, done);
      data', offset' := PackChildren(data', offset', children, done + part);
      assert done + part + Flatten(ChildChunks(children)) == done + (part + Flatten(ChildChunks(children)));
  }

  lemma BlankPage()
    ensures Zeros(PAGE_SIZE) == Filled([], PAGE_SIZE)
  {
    assert [] + Zeros(PAGE_SIZE) == Zeros(PAGE_SIZE);
  }

  // ----- reading -----

  /** d carries b at offset off. */
  ghost predicate At(d: Bytes, off: nat, b: Bytes) {
    off + |b| <= |d| && d[off..off + |b|] == b
  }

  lemma AtPart(d: Bytes, off: nat, a: Bytes, b: Bytes)
    requires At(d, off, a + b)
    ensures At(d, off, a) && At(d, off + |a|, b)
  {
    assert (a + b)[..|a|] == a && (a + b)[|a|..] == b;
    forall i | off <= i < off + |a|
      ensures d[i] == a[i - off]
    {
      assert d[i] == d[off..off + |a + b|][i - off];
    }
    forall i | off + |a| <= i < off + |a| + |b|
      ensures d[i] == b[i - off - |a|]
    {
      assert d[i] == d[off..off + |a + b|][i - off];
    }
  }

  lemma AtChunk(d: Bytes, off: nat, cs: seq<Bytes>, i: nat)
    requires At(d, off, Flatten(cs)) && i < |cs|
    ensures At(d, off + |Flatten(cs[..i])|, cs[i])
    ensures |Flatten(cs[..i + 1])| == |Flatten(cs[..i])| + |cs[i]|
  {
    ChunkAt(cs, i);
    FlattenSnoc(cs, i);
    var m := |Flatten(cs[..i])|;
    forall j | 0 <= j < |cs[i]|
      ensures d[off + m + j] == cs[i][j]
    {
      assert d[off + m + j] == d[off..off + |Flatten(cs)|][m + j];
      assert Flatten(cs)[m..m + |cs[i]|][j] == cs[i][j];
    }
  }

  method ReadEntries(data: Bytes, start: nat, count: nat, ghost es: seq<Entry>)
    returns (entries: seq<Entry>, offset: nat)
    requires |es| == count && forall i :: 0 <= i < |es| ==> EntryWidths(es[i])
    requires At(data, start, Flatten(EntryChunks(es)))
    ensures entries == es && offset == start + |Flatten(EntryChunks(es))|
  {
    hide Flatten, U16, U32, GetU16, GetU32;
    ghost var cs := EntryChunks(es);
    FlattenNone(cs);
    entries, offset := [], start;
    var i := 0;
    while i < count
      invariant 0 <= i <= count && entries == es[..i] && offset == start + |Flatten(cs[..i])|
    {
      ghost var e := es[i];
      AtChunk(data, start, cs, i);
      AtPart(data, offset, KeyBytes(e.key) + U32(e.ptr.page), U32(e.ptr.slot));
      AtPart(data, offset, KeyBytes(e.key), U32(e.ptr.page));
      AtPart(data, offset, U16(|e.key|), e.key);
      GetU16Of(data, offset, |e.key|);
      var klen := GetU16(data, offset);
      offset := offset + 2;
      var key := data[offset..offset + klen];
      offset := offset + klen;
      GetU32Of(data, offset, e.ptr.page);
      GetU32Of(data, offset + 4, e.ptr.slot);
      var ptr := RowId(GetU32(data, offset), GetU32(data, offset + 4));
      offset := offset + 8;
      entries := entries + [Entry(key, ptr)];
      i := i + 1;
    }
    assert cs[..count] == cs;
  }

  method ReadKeys(data: Bytes, start: nat, count: nat, ghost ks: seq<Key>)
    returns (keys: seq<Key>, offset: nat)
    requires |ks| == count && forall i :: 0 <= i < |ks| ==> |ks[i]| < U16_LIMIT
    requires At(data, start, Flatten(KeyChunks(ks)))
    ensures keys == ks && offset == start + |Flatten(KeyChunks(ks))|
  {
    ghost var cs := KeyChunks(ks);
    keys, offset := [], start;
    var i := 0;
    while i < count
      invariant 0 <= i <= count && keys == ks[..i] && offset == start + |Flatten(cs[..i])|
    {
      AtChunk(data, start, cs, i);
      AtPart(data, offset, U16(|ks[i]|), ks[i]);
      GetU16Of(data, offset, |ks[i]|);
      var klen := GetU16(data, offset);
      offset := offset + 2;
      keys := keys + [data[offset..offset + klen]];
      offset := offset + klen;
      i := i + 1;
    }
    assert cs[..count] == cs;
  }

  method ReadChildren(data: Bytes, start: nat, count: nat, ghost ch: seq<PageId>)
    returns (children: seq<PageId>)
    requires |ch| == count && forall i :: 0 <= i < |ch| ==> 0 <= ch[i] < U32_LIMIT
    requires At(data, start, Flatten(ChildChunks(ch)))
    ensures children == ch
  {
    ghost var cs := ChildChunks(ch);
    children := [];
    var offset, i := start, 0;
    while i < count
      invariant 0 <= i <= count && children == ch[..i] && offset == start + |Flatten(cs[..i])|
    {
      AtChunk(data, start, cs, i);
      GetU32Of(data, offset, ch[i]);
      children := children + [GetU32(data, offset)];
      offset := offset + 4;
      i := i + 1;
    }
  }

  /** Parses a page: on the image of any node it recovers exactly that node. */
  method ReadNode(data: Bytes, ghost p: PageId, ghost n: NodeRec) returns (node: NodeRec)
    requires 0 <= p < U32_LIMIT && Fits(n) && data == NodeBytes(p, n)
    ensures node == n
  {
    NodeLayout(p, n);
    var flags := data[PAGE_HEADER_SIZE];
    var keyCount := GetU16(data, PAGE_HEADER_SIZE + 1);
    if flags % 2 == 1 {
      AtPart(data, NODE_DATA_OFFSET, Flatten(EntryChunks(n.entries)), U32(n.nextLeaf));
      var entries, offset := ReadEntries(data, NODE_DATA_OFFSET, keyCount, n.entries);
      GetU32Of(data, offset, n.nextLeaf);
      node := LeafRec(entries, GetU32(data, offset));
    } else {
      AtPart(data, NODE_DATA_OFFSET, Flatten(KeyChunks(n.keys)), Flatten(ChildChunks(n.children)));
      var keys, offset := ReadKeys(data, NODE_DATA_OFFSET, keyCount, n.keys);
      var children := ReadChildren(data, offset, keyCount + 1, n.children);
      node := InternalRec(keys, children);
    }
  }

  lemma NodeLayout(p: PageId, n: NodeRec)
    requires 0 <= p < U32_LIMIT && Fits(n)
    ensures var d := NodeBytes(p, n);
            && d[PAGE_HEADER_SIZE] == (if n.LeafRec? then 1 else 0)
            && GetU16(d, PAGE_HEADER_SIZE + 1) == CountOf(n)
            && At(d, NODE_DATA_OFFSET, Body(n))
            && Parse(d) == Some(Header(p, INDEX, 0, 0, PAGE_SIZE, 0, 0))
  {
    var d := NodeBytes(p, n);
    var header := Pack(Header(p, INDEX, 0, 0, PAGE_SIZE, 0, 0));
    var flag: Bytes := [if n.LeafRec? then 1 else 0];
    assert At(d, 0, header + (flag + (U16(CountOf(n)) + ([0] + Body(n)))));
    AtPart(d, 0, header, flag + (U16(CountOf(n)) + ([0] + Body(n))));
    AtPart(d, PAGE_HEADER_SIZE, flag, U16(CountOf(n)) + ([0] + Body(n)));
    AtPart(d, PAGE_HEADER_SIZE + 1, U16(CountOf(n)), [0] + Body(n));
    AtPart(d, PAGE_HEADER_SIZE + 3, [0], Body(n));
    GetU16Of(d, PAGE_HEADER_SIZE + 1, CountOf(n));
    ParsePack(d, Header(p, INDEX, 0, 0, PAGE_SIZE, 0, 0));
  }
}
