/** Insertions and deletions on a table, and every run of them. */
module TableRuns {
  import opened Wrappers
  import opened ByteCodec
  import opened PageHeader
  import opened TableSpec
  import opened RowIds

  /** The first page of the chain with room for n bytes and their slot entry. */
  function FirstFit(l: Layout, n: nat): (k: nat)
    ensures k <= |l|
    ensures forall j :: 0 <= j < k ==> l[j].free < n + SLOT_SIZE
    ensures k < |l| ==> l[k].free >= n + SLOT_SIZE
  {
    if l == [] then 0
    else if l[0].free >= n + SLOT_SIZE then 0
    else
      var k := FirstFit(l[1..], n);
      assert forall j :: 0 < j < k + 1 ==> l[j] == l[1..][j - 1];
      1 + k
  }

  ghost predicate NoRoomBefore(l: Layout, n: nat, k: nat)
    requires k <= |l|
  {
    forall j :: 0 <= j < k ==> l[j].free < n + SLOT_SIZE
  }

  lemma NoRoomNext(l: Layout, n: nat, k: nat)
    requires k < |l| && NoRoomBefore(l, n, k) && l[k].free < n + SLOT_SIZE
    ensures NoRoomBefore(l, n, k + 1)
  {
  }

  lemma FirstFitUnique(l: Layout, n: nat, k: nat)
    requires k <= |l| && NoRoomBefore(l, n, k)
    requires k < |l| ==> l[k].free >= n + SLOT_SIZE
    ensures FirstFit(l, n) == k
  {
    var f := FirstFit(l, n);
    assert f < |l| ==> l[f].free >= n + SLOT_SIZE;
    assert k < |l| ==> l[k].free >= n + SLOT_SIZE;
  }

  function NewRow(p: DataPage, row: Bytes): DataPage
    requires p.free >= |row| + SLOT_SIZE
  {
    DataPage(p.id, p.rows + [Some(row)], p.free - |row| - SLOT_SIZE)
  }

  function NewPage(id: PageId): DataPage {
    DataPage(id, [], MAX_FREE_SPACE)
  }

  /** A row longer than any page is refused, but only after an empty page was chained. */
  predicate Storable(row: Bytes) {
    |row| + SLOT_SIZE <= MAX_FREE_SPACE
  }

  /** The chain in which the row has its page: extended when no page had room. */
  function Roomy(l: Layout, row: Bytes, spare: PageId): Layout {
    if FirstFit(l, |row|) < |l| then l else l + [NewPage(spare)]
  }

  /** The layout after an insertion that may have to chain the page `spare`. */
  function Insert(l: Layout, row: Bytes, spare: PageId): Layout {
    var k, l' := FirstFit(l, |row|), Roomy(l, row, spare);
    if l'[k].free >= |row| + SLOT_SIZE then l'[k := NewRow(l'[k], row)] else l'
  }

  /** The row id an insertion returns; none when it raises. */
  function InsertedId(l: Layout, row: Bytes, spare: PageId): Option<RowId> {
    var k, l' := FirstFit(l, |row|), Roomy(l, row, spare);
    if l'[k].free >= |row| + SLOT_SIZE then Some(RowId(l'[k].id, |l'[k].rows|)) else None
  }

  /** The layout after a deletion; an id that was never issued changes nothing. */
  function Delete(l: Layout, r: RowId): Layout {
    if l == [] then []
    else if l[0].id == r.page then
      if r.slot < |l[0].rows| then [l[0].(rows := l[0].rows[r.slot := None])] + l[1..] else l
    else [l[0]] + Delete(l[1..], r)
  }

  ghost predicate FreshIn(l: Layout, id: PageId) {
    forall k :: 0 <= k < |l| ==> l[k].id != id
  }

  // ----- insertion -----

  /** An id looks up the same as before wherever its page did not change. */
  lemma {:induction false} LookupSame(l: Layout, l': Layout, r: RowId)
    requires |l| == |l'| && forall k :: 0 <= k < |l| ==> l[k].id == l'[k].id
    requires forall k :: 0 <= k < |l| && l[k].id == r.page ==>
               (if r.slot < |l[k].rows| then l[k].rows[r.slot] else None)
               == (if r.slot < |l'[k].rows| then l'[k].rows[r.slot] else None)
    ensures Lookup(l, r) == Lookup(l', r)
  {
    if l != [] && l[0].id != r.page {
      LookupSame(l[1..], l'[1..], r);
    }
  }

  lemma {:induction false} LookupAppend(l: Layout, p: DataPage, r: RowId)
    requires FreshIn(l, p.id)
    ensures Lookup(l + [p], r) == if r.page == p.id && r.slot < |p.rows| then p.rows[r.slot] else Lookup(l, r)
  {
    if l == [] {
      assert (l + [p])[1..] == [];
    } else if l[0].id != r.page {
      assert (l + [p])[1..] == l[1..] + [p];
      LookupAppend(l[1..], p, r);
    } else {
      assert l[0].id != p.id;
    }
  }

  /** Extending the chain by an empty page shows nothing. */
  lemma RoomyKeeps(l: Layout, row: Bytes, spare: PageId)
    requires Distinct(l) && FreshIn(l, spare)
    ensures var l' := Roomy(l, row, spare);
            && Distinct(l') && FirstFit(l, |row|) < |l'|
            && (forall r :: Lookup(l', r) == Lookup(l, r))
            && (forall r :: Issued(l', r) <==> Issued(l, r))
  {
    var l' := Roomy(l, row, spare);
    forall r
      ensures Lookup(l', r) == Lookup(l, r) && (Issued(l', r) <==> Issued(l, r))
    {
      LookupAppend(l, NewPage(spare), r);
      if Issued(l, r) {
        var k :| 0 <= k < |l| && l[k].id == r.page && r.slot < |l[k].rows|;
        assert l'[k] == l[k];
      }
    }
  }

  /** Exactly one row id starts to denote a row, one never issued before; all others denote what
      they denoted. An insertion that raises shows nothing. */
  lemma InsertMeaning(l: Layout, row: Bytes, spare: PageId)
    requires Distinct(l) && FreshIn(l, spare)
    ensures Distinct(Insert(l, row, spare))
    ensures var id := InsertedId(l, row, spare);
            && (id.None? <==> !Storable(row) && FirstFit(l, |row|) == |l|)
            && (id.Some? ==> !Issued(l, id.value))
            && (forall r :: Lookup(Insert(l, row, spare), r)
                            == if id == Some(r) then Some(row) else Lookup(l, r))
            && (forall r :: Issued(Insert(l, row, spare), r) <==> Issued(l, r) || id == Some(r))
  {
    RoomyKeeps(l, row, spare);
    var k, l' := FirstFit(l, |row|), Roomy(l, row, spare);
    if l'[k].free >= |row| + SLOT_SIZE {
      hide Roomy, FirstFit;
      RowAdded(l', k, row);
    }
  }

  lemma RowAdded(l: Layout, k: nat, row: Bytes)
    requires Distinct(l) && k < |l| && l[k].free >= |row| + SLOT_SIZE
    ensures var l', id := l[k := NewRow(l[k], row)], RowId(l[k].id, |l[k].rows|);
            && Distinct(l') && !Issued(l, id)
            && (forall r :: Lookup(l', r) == if r == id then Some(row) else Lookup(l, r))
            && (forall r :: Issued(l', r) <==> Issued(l, r) || r == id)
  {
    var l', id := l[k := NewRow(l[k], row)], RowId(l[k].id, |l[k].rows|);
    forall r
      ensures Lookup(l', r) == if r == id then Some(row) else Lookup(l, r)
    {
      if r == id {
        LookupAt(l', k, r.slot);
      } else {
        LookupSame(l, l', r);
      }
    }
    forall r
      ensures Issued(l', r) <==> Issued(l, r) || r == id
    {
      if Issued(l, r) {
        var j :| 0 <= j < |l| && l[j].id == r.page && r.slot < |l[j].rows|;
        assert l'[j].id == r.page && r.slot < |l'[j].rows|;
      }
      assert l'[k].id == id.page;
    }
  }

  // ----- deletion -----

  /** Only the id deleted stops denoting a row; no id is withdrawn. */
  lemma {:induction false} DeleteMeaning(l: Layout, d: RowId)
    requires Distinct(l)
    ensures |Delete(l, d)| == |l|
    ensures forall k :: 0 <= k < |l| ==> Delete(l, d)[k].id == l[k].id && |Delete(l, d)[k].rows| == |l[k].rows|
                                         && Delete(l, d)[k].free == l[k].free
    ensures forall r :: Lookup(Delete(l, d), r) == if r == d then None else Lookup(l, r)
  {
    if l != [] {
      var l' := Delete(l, d);
      if l[0].id != d.page {
        DeleteMeaning(l[1..], d);
        assert forall k :: 0 < k < |l| ==> l[k] == l[1..][k - 1] && l'[k] == Delete(l[1..], d)[k - 1];
        forall r
          ensures Lookup(l', r) == if r == d then None else Lookup(l, r)
        {
          assert l'[1..] == Delete(l[1..], d);
        }
      } else {
        forall r
          ensures Lookup(l', r) == if r == d then None else Lookup(l, r)
        {
          assert d.slot < |l[0].rows| ==> l'[1..] == l[1..];
        }
      }
    }
  }

  lemma DeleteIssued(l: Layout, d: RowId, r: RowId)
    requires Distinct(l)
    ensures Distinct(Delete(l, d)) && (Issued(Delete(l, d), r) <==> Issued(l, r))
  {
    DeleteMeaning(l, d);
    var l' := Delete(l, d);
    hide Delete;
    if Issued(l, r) {
      var k :| 0 <= k < |l| && l[k].id == r.page && r.slot < |l[k].rows|;
      assert l'[k].id == r.page && r.slot < |l'[k].rows|;
    }
    if Issued(l', r) {
      var k :| 0 <= k < |l'| && l'[k].id == r.page && r.slot < |l'[k].rows|;
      assert l[k].id == r.page && r.slot < |l[k].rows|;
    }
  }

  // ----- runs -----

  /** A request; `spare` is the page the allocator would hand out should the chain need one. */
  datatype Request = Insertion(row: Bytes, spare: PageId) | Deletion(id: RowId)

  function Perform(l: Layout, q: Request): Layout {
    match q
    case Insertion(row, spare) => Insert(l, row, spare)
    case Deletion(id) => Delete(l, id)
  }

  /** The id an insertion returns. */
  function Returned(l: Layout, q: Request): seq<RowId> {
    if q.Insertion? && InsertedId(l, q.row, q.spare).Some? then [InsertedId(l, q.row, q.spare).value] else []
  }

  function Run(l: Layout, qs: seq<Request>): Layout {
    if qs == [] then l else Perform(Run(l, qs[..|qs| - 1]), qs[|qs| - 1])
  }

  function Ids(l: Layout, qs: seq<Request>): seq<RowId> {
    if qs == [] then []
    else Ids(l, qs[..|qs| - 1]) + Returned(Run(l, qs[..|qs| - 1]), qs[|qs| - 1])
  }

  /** A plain dictionary driven by the same requests and the ids returned. */
  function Recorded(m: map<RowId, Bytes>, q: Request, back: seq<RowId>): map<RowId, Bytes> {
    match q
    case Insertion(row, _) => if back == [] then m else m[back[0] := row]
    case Deletion(id) => m - {id}
  }

  function Dictionary(l: Layout, qs: seq<Request>): map<RowId, Bytes> {
    if qs == [] then map[]
    else
      var m, q := Dictionary(l, qs[..|qs| - 1]), qs[|qs| - 1];
      Recorded(m, q, Returned(Run(l, qs[..|qs| - 1]), q))
  }

  ghost predicate NoRepeat(ids: seq<RowId>) {
    forall i, j :: 0 <= i < j < |ids| ==> ids[i] != ids[j]
  }

  /** Allocation never hands out a page of the chain. */
  ghost predicate SparesFresh(l: Layout, qs: seq<Request>) {
    forall i :: 0 <= i < |qs| && qs[i].Insertion? ==> FreshIn(Run(l, qs[..i]), qs[i].spare)
  }

  lemma SparesInit(l: Layout, qs: seq<Request>)
    requires SparesFresh(l, qs) && qs != []
    ensures SparesFresh(l, qs[..|qs| - 1])
    ensures qs[|qs| - 1].Insertion? ==> FreshIn(Run(l, qs[..|qs| - 1]), qs[|qs| - 1].spare)
  {
    var m := qs[..|qs| - 1];
    forall i | 0 <= i < |m| && m[i].Insertion?
      ensures FreshIn(Run(l, m[..i]), m[i].spare)
    {
      assert m[..i] == qs[..i] && m[i] == qs[i];
    }
  }

  function EmptyTable(root: PageId): Layout {
    [NewPage(root)]
  }

  function InDictionary(m: map<RowId, Bytes>, r: RowId): Option<Bytes> {
    if r in m then Some(m[r]) else None
  }

  /** Over every run from an empty table, ids denote what the dictionary holds, and the ids issued
      are exactly the ids returned, each returned once. */
  lemma {:induction false} RunMeaning(root: PageId, qs: seq<Request>)
    requires SparesFresh(EmptyTable(root), qs)
    ensures Distinct(Run(EmptyTable(root), qs))
    ensures forall r :: Lookup(Run(EmptyTable(root), qs), r) == InDictionary(Dictionary(EmptyTable(root), qs), r)
    ensures forall r :: Issued(Run(EmptyTable(root), qs), r) <==> r in Ids(EmptyTable(root), qs)
    ensures NoRepeat(Ids(EmptyTable(root), qs))
  {
    var l := EmptyTable(root);
    if qs == [] {
      forall r
        ensures Lookup(l, r) == None && !Issued(l, r)
      {
        assert l[1..] == [];
      }
    } else {
      var m, q := qs[..|qs| - 1], qs[|qs| - 1];
      SparesInit(l, qs);
      RunMeaning(root, m);
      RequestMeaning(Run(l, m), q, Dictionary(l, m), Ids(l, m));
    }
  }

  /** One request keeps the agreement with the dictionary. */
  lemma RequestMeaning(l: Layout, q: Request, m: map<RowId, Bytes>, ids: seq<RowId>)
    requires Distinct(l) && (q.Insertion? ==> FreshIn(l, q.spare))
    requires forall r :: Lookup(l, r) == InDictionary(m, r)
    requires forall r :: Issued(l, r) <==> r in ids
    requires NoRepeat(ids)
    ensures Distinct(Perform(l, q))
    ensures var back := Returned(l, q);
            && (forall r :: Lookup(Perform(l, q), r) == InDictionary(Recorded(m, q, back), r))
            && (forall r :: Issued(Perform(l, q), r) <==> r in ids + back)
            && NoRepeat(ids + back)
  {
    var back := Returned(l, q);
    hide Lookup, Distinct, Issued, FreshIn, Insert, InsertedId, Delete;
    match q
    case Insertion(row, spare) =>
      InsertMeaning(l, row, spare);
      assert back != [] ==> back[0] !in ids;
    case Deletion(id) =>
      DeleteMeaning(l, id);
      forall r
        ensures Issued(Delete(l, id), r) <==> Issued(l, r)
      {
        DeleteIssued(l, id, r);
      }
      DeleteIssued(l, id, id);
  }

  /** Over every run, the scan shows each live row exactly once, under the id its insertion
      returned, in chain order. */
  lemma RunScan(root: PageId, qs: seq<Request>, r: RowId, row: Bytes)
    requires SparesFresh(EmptyTable(root), qs)
    ensures var l, m := Run(EmptyTable(root), qs), Dictionary(EmptyTable(root), qs);
            && ((r, row) in Scan(l) <==> r in m && m[r] == row)
            && InOrder(l, Scan(l))
            && forall i, j :: 0 <= i < j < |Scan(l)| ==> Scan(l)[i].0 != Scan(l)[j].0
  {
    var l := Run(EmptyTable(root), qs);
    RunMeaning(root, qs);
    ScanExact(l, r, row);
    ScanOnce(l);
    ScanInOrder(l, |l|);
    assert l[..|l|] == l;
    hide Lookup, Scan, Dictionary, Run, Issued, Ids;
    assert Lookup(l, r) == InDictionary(Dictionary(EmptyTable(root), qs), r);
  }
}
