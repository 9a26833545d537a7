/** B-tree nodes packed into 4096-byte pages: key limits, what fits, writing and reading. */
module NodePage {
  import opened ByteCodec
  import opened PageHeader
  import opened KeyOrder
  import opened BTreeModel
  import opened RowIds

  datatype NodeRec =
    | LeafRec(entries: seq<Entry>, nextLeaf: PageId)
    | InternalRec(keys: seq<Key>, children: seq<PageId>)

  datatype KeyType = INTEGER | FLOAT | TEXT | BOOLEAN

  const NODE_HEADER_SIZE := 4
  const NODE_DATA_OFFSET := PAGE_HEADER_SIZE + NODE_HEADER_SIZE

  function KeySize(t: KeyType): nat {
    match t
    case INTEGER => 8
    case BOOLEAN => 1
    case FLOAT => 8
    case TEXT => 32
  }

  function MaxKeys(ksz: nat, isLeaf: bool): nat {
    if isLeaf then (MAX_FREE_SPACE - NODE_HEADER_SIZE - 4) / (ksz + 8)
    else (MAX_FREE_SPACE - NODE_HEADER_SIZE - 4) / (ksz + 4)
  }

  function LimitsOf(t: KeyType): Limits {
    Limits(MaxKeys(KeySize(t), true), MaxKeys(KeySize(t), false))
  }

  // ----- the bytes of a node -----

  /** Pointers, children and key lengths fit the widths they are packed with. */
  ghost predicate Widths(n: NodeRec) {
    match n
    case LeafRec(es, next) =>
      && |es| < U16_LIMIT && 0 <= next < U32_LIMIT
      && forall i :: 0 <= i < |es| ==> EntryWidths(es[i])
    case InternalRec(keys, children) =>
      && |keys| < U16_LIMIT && |children| == |keys| + 1
      && (forall i :: 0 <= i < |keys| ==> |keys[i]| < U16_LIMIT)
      && (forall i :: 0 <= i < |children| ==> 0 <= children[i] < U32_LIMIT)
  }

  predicate EntryWidths(e: Entry) {
    |e.key| < U16_LIMIT && 0 <= e.ptr.page < U32_LIMIT && 0 <= e.ptr.slot < U32_LIMIT
  }

  function KeyBytes(k: Key): Bytes
    requires |k| < U16_LIMIT
  {
    U16(|k|) + k
  }

  function EntryBytes(e: Entry): Bytes
    requires EntryWidths(e)
  {
    KeyBytes(e.key) + U32(e.ptr.page) + U32(e.ptr.slot)
  }

  ghost function EntryChunks(es: seq<Entry>): (cs: seq<Bytes>)
    requires forall i :: 0 <= i < |es| ==> EntryWidths(es[i])
    ensures |cs| == |es|
  {
    seq(|es|, i requires 0 <= i < |es| => EntryBytes(es[i]))
  }

  ghost function KeyChunks(keys: seq<Key>): (cs: seq<Bytes>)
    requires forall i :: 0 <= i < |keys| ==> |keys[i]| < U16_LIMIT
    ensures |cs| == |keys|
  {
    seq(|keys|, i requires 0 <= i < |keys| => KeyBytes(keys[i]))
  }

  ghost function ChildChunks(children: seq<PageId>): (cs: seq<Bytes>)
    requires forall i :: 0 <= i < |children| ==> 0 <= children[i] < U32_LIMIT
    ensures |cs| == |children|
  {
    seq(|children|, i requires 0 <= i < |children| => U32(children[i]))
  }

  ghost function Body(n: NodeRec): Bytes
    requires Widths(n)
  {
    match n
    case LeafRec(es, next) => Flatten(EntryChunks(es)) + U32(next)
    case InternalRec(keys, children) => Flatten(KeyChunks(keys)) + Flatten(ChildChunks(children))
  }

  function CountOf(n: NodeRec): nat {
    match n
    case LeafRec(es, _) => |es|
    case InternalRec(keys, _) => |keys|
  }

  function Prefix(p: PageId, n: NodeRec): (b: Bytes)
    requires 0 <= p < U32_LIMIT && CountOf(n) < U16_LIMIT
    ensures |b| == NODE_DATA_OFFSET
  {
    Pack(Header(p, INDEX, 0, 0, PAGE_SIZE, 0, 0)) + [if n.LeafRec? then 1 else 0] + U16(CountOf(n)) + [0]
  }

  ghost predicate Fits(n: NodeRec) {
    Widths(n) && NODE_DATA_OFFSET + |Body(n)| <= PAGE_SIZE
  }

  /** The page that holds n. */
  ghost function NodeBytes(p: PageId, n: NodeRec): (d: Bytes)
    requires 0 <= p < U32_LIMIT && Fits(n)
    ensures |d| == PAGE_SIZE
  {
    Filled(Prefix(p, n) + Body(n), PAGE_SIZE)
  }

  // ----- what fits -----

  function KeysOfRec(n: NodeRec): seq<Key> {
    match n
    case LeafRec(es, _) => KeysOf(es)
    case InternalRec(keys, _) => keys
  }

  /** The bytes that keys take with w bytes beside each. */
  function KeysSize(keys: seq<Key>, w: nat): nat {
    if keys == [] then 0 else KeysSize(keys[..|keys| - 1], w) + |keys[|keys| - 1]| + w
  }

  /** The bytes of a node behind its header: with each key go its length and a row pointer or a child. */
  function NodeSize(isLeaf: bool, keys: seq<Key>): nat {
    KeysSize(keys, if isLeaf then 10 else 6) + 4
  }

  /** Whether a node with these keys fits a page. */
  predicate KeysFit(isLeaf: bool, keys: seq<Key>) {
    NODE_DATA_OFFSET + NodeSize(isLeaf, keys) <= PAGE_SIZE
  }

  /** Page numbers and slots fit their fields; an internal node has one child more than keys. */
  ghost predicate Numbers(n: NodeRec) {
    match n
    case LeafRec(es, next) => 0 <= next < U32_LIMIT && forall i :: 0 <= i < |es| ==> PointerFits(es[i].ptr)
    case InternalRec(keys, children) =>
      |children| == |keys| + 1 && forall i :: 0 <= i < |children| ==> 0 <= children[i] < U32_LIMIT
  }

  predicate PointerFits(r: RowId) {
    0 <= r.page < U32_LIMIT && 0 <= r.slot < U32_LIMIT
  }

  lemma {:induction false} KeysSizeBounds(keys: seq<Key>, w: nat)
    ensures |keys| * w <= KeysSize(keys, w)
    ensures forall i :: 0 <= i < |keys| ==> |keys[i]| + w <= KeysSize(keys, w)
  {
    if keys != [] {
      KeysSizeBounds(keys[..|keys| - 1], w);
      assert |keys| * w == (|keys| - 1) * w + w;
    }
  }

  lemma {:induction false} KeysSizeConcat(a: seq<Key>, b: seq<Key>, w: nat)
    ensures KeysSize(a + b, w) == KeysSize(a, w) + KeysSize(b, w)
  {
    if b == [] {
      assert a + b == a;
    } else {
      var c := a + b;
      assert c[..|c| - 1] == a + b[..|b| - 1] && c[|c| - 1] == b[|b| - 1];
      KeysSizeConcat(a, b[..|b| - 1], w);
    }
  }

  /** Keys of one width. */
  lemma {:induction false} KeysSizeUniform(keys: seq<Key>, w: nat, len: nat)
    requires forall i :: 0 <= i < |keys| ==> |keys[i]| == len
    ensures KeysSize(keys, w) == |keys| * (len + w)
  {
    if keys != [] {
      KeysSizeUniform(keys[..|keys| - 1], w, len);
      assert |keys| * (len + w) == (|keys| - 1) * (len + w) + (len + w);
    }
  }

  lemma {:induction false} ChunksSize(cs: seq<Bytes>, keys: seq<Key>, w: nat)
    requires |cs| == |keys| && forall i :: 0 <= i < |cs| ==> |cs[i]| == |keys[i]| + w
    ensures |Flatten(cs)| == KeysSize(keys, w)
  {
    if cs != [] {
      ChunksSize(cs[..|cs| - 1], keys[..|cs| - 1], w);
    }
  }

  lemma BodySize(n: NodeRec)
    requires Widths(n)
    ensures |Body(n)| == NodeSize(n.LeafRec?, KeysOfRec(n))
  {
    match n
    case LeafRec(es, _) => ChunksSize(EntryChunks(es), KeysOf(es), 10);
    case InternalRec(keys, children) =>
      ChunksSize(KeyChunks(keys), keys, 2);
      FlattenSize(ChildChunks(children), 4);
      KeysSizeWider(keys, 2, 4);
  }

  lemma {:induction false} KeysSizeWider(keys: seq<Key>, w: nat, x: nat)
    ensures KeysSize(keys, w + x) == KeysSize(keys, w) + |keys| * x
  {
    if keys != [] {
      KeysSizeWider(keys[..|keys| - 1], w, x);
      assert |keys| * x == (|keys| - 1) * x + x;
    }
  }

  /** A node whose numbers can be packed fits its page exactly when its keys do. */
  lemma FitsIff(n: NodeRec)
    requires Numbers(n)
    ensures Fits(n) <==> KeysFit(n.LeafRec?, KeysOfRec(n))
  {
    if KeysFit(n.LeafRec?, KeysOfRec(n)) {
      KeysSizeBounds(KeysOfRec(n), if n.LeafRec? then 10 else 6);
      assert Widths(n);
    }
    if Widths(n) {
      BodySize(n);
    }
  }

  lemma LeafSize(es: seq<Entry>, next: PageId, len: nat)
    requires Widths(LeafRec(es, next))
    ensures (forall i :: 0 <= i < |es| ==> |es[i].key| <= len) ==> |Body(LeafRec(es, next))| <= |es| * (len + 10) + 4
    ensures (forall i :: 0 <= i < |es| ==> |es[i].key| == len) ==> |Body(LeafRec(es, next))| == |es| * (len + 10) + 4
  {
    FlattenSize(EntryChunks(es), len + 10);
  }

  lemma InternalSize(keys: seq<Key>, children: seq<PageId>, len: nat)
    requires Widths(InternalRec(keys, children))
    ensures (forall i :: 0 <= i < |keys| ==> |keys[i]| <= len) ==>
              |Body(InternalRec(keys, children))| <= |keys| * (len + 2) + 4 * |children|
    ensures (forall i :: 0 <= i < |keys| ==> |keys[i]| == len) ==>
              |Body(InternalRec(keys, children))| == |keys| * (len + 2) + 4 * |children|
  {
    FlattenSize(KeyChunks(keys), len + 2);
    FlattenSize(ChildChunks(children), 4);
  }

  ghost predicate KeysShort(n: NodeRec, len: nat) {
    match n
    case LeafRec(es, _) => forall i :: 0 <= i < |es| ==> |es[i].key| <= len
    case InternalRec(keys, _) => forall i :: 0 <= i < |keys| ==> |keys[i]| <= len
  }

  predicate WithinLimits(n: NodeRec, lim: Limits) {
    CountOf(n) <= if n.LeafRec? then lim.leaf else lim.internal
  }

  /** Every node within the limits and with keys of at most len bytes fits its page. */
  ghost predicate LimitsFit(lim: Limits, len: nat) {
    forall n :: Widths(n) && KeysShort(n, len) && WithinLimits(n, lim) ==> Fits(n)
  }

  lemma TextLimits()
    ensures LimitsOf(TEXT) == Limits(101, 112)
    ensures LimitsOf(INTEGER) == Limits(253, 338)
  {
  }

  lemma LeafWorstCase(es: seq<Entry>, next: PageId, len: nat, m: nat)
    requires Widths(LeafRec(es, next)) && |es| <= m
    requires forall i :: 0 <= i < |es| ==> |es[i].key| <= len
    ensures |Body(LeafRec(es, next))| <= m * (len + 10) + 4
  {
    LeafSize(es, next, len);
    assert |es| * (len + 10) <= m * (len + 10) by {
      MulMonotone(|es|, m, len + 10);
    }
  }

  lemma InternalWorstCase(keys: seq<Key>, children: seq<PageId>, len: nat, m: nat)
    requires Widths(InternalRec(keys, children)) && |keys| <= m
    requires forall i :: 0 <= i < |keys| ==> |keys[i]| <= len
    ensures |Body(InternalRec(keys, children))| <= m * (len + 2) + 4 * (m + 1)
  {
    InternalSize(keys, children, len);
    MulMonotone(|keys|, m, len + 2);
  }

  lemma MulMonotone(a: nat, b: nat, c: nat)
    requires a <= b
    ensures a * c <= b * c
  {
  }

  /** The limits computed for TEXT keys are safe exactly for encoded keys of at most 30 bytes,
      that is, texts of at most 26 bytes: the 2-byte length stored with each key is not counted. */
  lemma TextLimitsFitIff(len: nat)
    requires len < U16_LIMIT
    ensures LimitsFit(LimitsOf(TEXT), len) <==> len <= 30
  {
    TextLimits();
    var lim := LimitsOf(TEXT);
    if len <= 30 {
      forall n | Widths(n) && KeysShort(n, len) && WithinLimits(n, lim)
        ensures Fits(n)
      {
        match n
        case LeafRec(es, next) => LeafWorstCase(es, next, 30, 101);
        case InternalRec(keys, children) => InternalWorstCase(keys, children, 30, 112);
      }
    } else {
      var es := seq(101, i => Entry(Zeros(len), RowId(1, 0)));
      var n := LeafRec(es, 0);
      assert Widths(n) && KeysShort(n, len) && WithinLimits(n, lim);
      LeafSize(es, 0, len);
      assert !Fits(n);
    }
  }

  /** A leaf of 8-byte keys fits exactly up to 225 entries, though 253 are allowed before a
      split: an INTEGER or FLOAT index never splits, and its 226th insertion overflows the page. */
  lemma IntegerLeafFitsIff(es: seq<Entry>, next: PageId)
    requires Widths(LeafRec(es, next)) && forall i :: 0 <= i < |es| ==> |es[i].key| == 8
    ensures Fits(LeafRec(es, next)) <==> |es| <= 225
    ensures |es| <= 226 ==> WithinLimits(LeafRec(es, next), LimitsOf(INTEGER)) && |es| < LimitsOf(INTEGER).leaf
  {
    TextLimits();
    LeafSize(es, next, 8);
  }
}
