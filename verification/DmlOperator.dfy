/** INSERT and DELETE on a stored table with a stored index, both on pages of one store. */
module DmlOperator {
  import opened Wrappers
  import opened ByteCodec
  import opened RowIds
  import opened KeyOrder
  import opened RowFormat
  import opened KeyEncoding
  import opened TableSpec
  import T = TableRuns
  import Tb = Table
  import S = SlottedPage
  import P = PageStore
  import B = BTreeModel
  import R = BTreeRuns
  import X = BTreeIndex
  import BP = BTreePages
  import NP = NodePage
  import O = BTreeOverflow
  import opened IndexedTable

  /** EntryTooLong: a node of the index would not fit its page. */
  datatype DmlError = Constraint | KeyNotEncodable | NoSpace | EntryTooLong

  /** Pages of the chain, if they stay as they are, show the same rows. */
  lemma ChainSame(pages: Tb.Pages, pages': Tb.Pages, chain: seq<PageId>)
    requires Tb.ChainOK(pages, chain)
    requires forall p :: p in chain && p in pages ==> p in pages' && pages'[p] == pages[p]
    ensures Tb.ChainOK(pages', chain) && Tb.View(pages', chain) == Tb.View(pages, chain)
  {
    forall k | 0 <= k < |chain|
      ensures Tb.LinkOK(pages', chain, k)
      ensures chain[k] in pages && chain[k] in pages' && pages'[chain[k]] == pages[chain[k]]
    {
      assert Tb.LinkOK(pages, chain, k) && chain[k] in chain;
    }
    hide Tb.LinkOK, Tb.PageView, S.Sound;
  }

  class DmlOperator {
    const schema: Schema
    const store: P.PageStore
    const table: Tb.Table
    const index: X.BTreeIndex
    /** The keys inserted so far. */
    ghost var used: set<Key>

    ghost predicate Valid()
      reads this, table, index, store
    {
      && table.store == store && index.store == store && SchemaOK(schema) && index.lim == schema.lim
      && table.Valid() && index.Valid()
      && forall p :: p in table.chain ==> p !in index.nodes
    }

    /** Table and index as values. */
    ghost function Db(): Database
      requires Valid()
      reads this, table, index, store
    {
      Database(table.Layout(), R.Index(index.Tree(), index.height), used)
    }

    /** A new table with an index on one of its columns. */
    constructor (store: P.PageStore, schema: Schema)
      requires store.Valid() && store.Room(2) && SchemaOK(schema)
      modifies store
      ensures Valid() && this.store == store && this.schema == schema
      ensures Db() == NewDatabase(table.root) && fresh(table) && fresh(index)
    {
      hide S.Sound, Tb.LinkOK;
      var t := new Tb.Table(store);
      ghost var between := store.pages;
      var x := new X.BTreeIndex(store, schema.lim);
      this.store, this.schema, table, index, used := store, schema, t, x, {};
      new;
      Tb.ChainKnown(between, table.chain);
      ChainSame(between, store.pages, table.chain);
    }

    /** The uniqueness check by searching the index; raises when the value cannot be encoded. */
    method CheckUnique(v: Option<Field>) returns (r: Result<(), DmlError>)
      requires Valid() && (v.Some? ==> FieldConforms(v.value, schema.types[schema.col]))
      ensures r.Err? <==> IndexRefuses(Db().index, schema, v)
      ensures r.Err? ==> r.error == if SearchKey(schema, v).None? then KeyNotEncodable else Constraint
    {
      var key := SearchKey(schema, v);
      if key.None? {
        return Err(KeyNotEncodable);
      }
      var found := index.Search(key.value);
      return if found != [] then Err(Constraint) else Ok(());
    }

    /** The uniqueness check by scanning the table. */
    method CheckUniqueByScan(v: Option<Field>) returns (r: Result<(), DmlError>)
      requires Valid() && StoredOK(table.Layout(), schema)
      ensures r == if ScanRefuses(table.Layout(), schema, v) then Err(Constraint) else Ok(())
    {
      hide Decode, Scan, Conforms, Lookup, StoredOK, X.BTreeIndex.Valid, Tb.LinkOK;
      var found := table.ScanRows();
      ghost var l := table.Layout();
      Tb.ViewDistinct(store.pages, table.chain);
      hide Valid, Distinct;
      for i := 0 to |found|
        invariant forall j :: 0 <= j < i ==> !ShowsValue(schema, found[j], v)
      {
        assert found[i] in found;
        ScannedRow(l, found[i]);
        var row := DeserializeRow(found[i].1, schema.types);
        if row.Some? && SameValue(row.value[schema.col], v) {
          assert ShowsValue(schema, found[i], v);
          return Err(Constraint);
        }
      }
      return Ok(());
    }

    lemma ScannedRow(l: Layout, f: Found)
      requires SchemaOK(schema) && StoredOK(l, schema) && Distinct(l) && f in Scan(l)
      ensures Decode(f.1, schema.types).Some? && Conforms(Decode(f.1, schema.types).value, schema.types)
      ensures schema.col < |Decode(f.1, schema.types).value|
    {
      hide Decode, Scan, Distinct;
      ScanExact(l, f.0, f.1);
      assert RowAt(l, schema, f.0).Some?;
    }

    /** Stores the bytes of a row; the pages of the index stay as they are. */
    method StoreRow(data: Bytes) returns (r: Result<RowId, S.PageError>, ghost spare: PageId)
      requires Valid() && store.Room(1) && data != []
      modifies table, store
      ensures Valid() && store.next <= old(store.next) + 1 && T.FreshIn(old(table.Layout()), spare)
      ensures table.Layout() == T.Insert(old(table.Layout()), data, spare)
      ensures index.Tree() == old(index.Tree()) && index.height == old(index.height)
      ensures r.Ok? <==> T.InsertedId(old(table.Layout()), data, spare).Some?
      ensures r.Ok? ==> T.InsertedId(old(table.Layout()), data, spare) == Some(r.value)
      ensures r.Ok? ==> 0 < r.value.page < U32_LIMIT && r.value.slot < U16_LIMIT
    {
      hide T.Insert, T.InsertedId, T.FreshIn, BP.Good, BP.Foot, BP.Abs, B.Shape, Tb.View, Tb.ChainOK, NP.NodeBytes;
      assert forall q :: q in index.nodes ==> index.PageOK(q) && q in store.pages && q !in table.chain;
      r, spare := table.InsertRow(data);
      assert forall q :: q in index.nodes ==> index.PageOK(q);
    }

    /** Adds an index entry if it fits; the pages of the table stay as they are. */
    method AddEntry(key: Key, id: RowId) returns (o: O.Outcome)
      requires Valid() && store.Room(index.height + 3)
      requires 0 < id.page < U32_LIMIT && id.slot < U16_LIMIT
      modifies index, store
      ensures o == O.OutcomeOf(R.Index(old(index.Tree()), old(index.height)), key, schema.lim)
      ensures table.Valid() && table.Layout() == old(table.Layout())
      ensures o != O.NodeFull ==> Valid()
      ensures o != O.NodeFull ==>
                R.Index(index.Tree(), index.height)
                == O.PutEntry(R.Index(old(index.Tree()), old(index.height)), B.Entry(key, id), schema.lim)
      ensures o == O.Inserted ==>
                R.Index(index.Tree(), index.height)
                == R.Apply(R.Index(old(index.Tree()), old(index.height)), R.Ins(B.Entry(key, id)), schema.lim)
    {
      hide BP.Good, BP.Abs, BP.Foot, Tb.View, Tb.LinkOK, S.Sound, X.BTreeIndex.PageOK, O.PutEntry, O.OutcomeOf;
      ghost var before := store.pages;
      Tb.ChainKnown(before, table.chain);
      o := index.Insert(key, id);
      ChainSame(before, store.pages, table.chain);
    }

    /** Takes an index entry out; the pages of the table stay as they are. */
    method DropEntry(key: Key, id: RowId)
      requires Valid()
      modifies index, store
      ensures Valid() && table.Layout() == old(table.Layout()) && store.next == old(store.next)
      ensures R.Index(index.Tree(), index.height)
              == R.Apply(R.Index(old(index.Tree()), old(index.height)), R.Del(B.Entry(key, id)), schema.lim)
    {
      hide BP.Good, BP.Abs, BP.Foot, Tb.View, Tb.LinkOK, S.Sound, X.BTreeIndex.PageOK;
      ghost var before := store.pages;
      Tb.ChainKnown(before, table.chain);
      index.Delete(key, id);
      ChainSame(before, store.pages, table.chain);
    }

    /** INSERT of one row: the check when the column must be unique, then the row, then its index entry unless the
        value is NULL. An entry that does not fit raises with the row already stored. */
    method InsertRow(row: Row) returns (r: Result<RowId, DmlError>, ghost data: Bytes, ghost spare: PageId)
      requires Valid() && Conforms(row, schema.types) && store.Room(index.height + 4)
      modifies this`used, table, index, store
      ensures IsImage(data, row, schema.types) && T.FreshIn(old(table.Layout()), spare)
      ensures schema.unique && IndexRefuses(old(Db()).index, schema, row[schema.col]) ==>
                r.Err? && (r.error == Constraint || r.error == KeyNotEncodable) && Valid() && Db() == old(Db())
      ensures EntryOutcome(old(Db()), schema, row, data, spare) == O.Inserted ==>
                Valid() && Db() == Insert(old(Db()), schema, row, data, spare)
      ensures EntryOutcome(old(Db()), schema, row, data, spare) == O.LeafFull ==>
                r == Err(EntryTooLong) && Valid() && Db() == StoreUnindexed(old(Db()), schema, row, data, spare)
      ensures EntryOutcome(old(Db()), schema, row, data, spare) == O.NodeFull ==>
                r == Err(EntryTooLong) && table.Valid() && table.Layout() == T.Insert(old(table.Layout()), data, spare)
      ensures !(schema.unique && IndexRefuses(old(Db()).index, schema, row[schema.col])) ==>
                r == match T.InsertedId(old(table.Layout()), data, spare)
                     case Some(id) =>
                       if EntryOutcome(old(Db()), schema, row, data, spare) == O.Inserted then Ok(id)
                       else Err(EntryTooLong)
                     case None => Err(NoSpace)
      ensures Decode(data, schema.types) == Some(row) && table.Valid()
      ensures r.Ok? ==>
                Lookup(old(table.Layout()), r.value) == None
                && forall x :: Lookup(table.Layout(), x)
                               == if x == r.value then Some(data) else Lookup(old(table.Layout()), x)
      ensures r.Err? && r.error != EntryTooLong ==>
                forall x :: Lookup(table.Layout(), x) == Lookup(old(table.Layout()), x)
      ensures r == Err(EntryTooLong) ==>
                exists id :: Lookup(old(table.Layout()), id) == None
                             && forall x :: Lookup(table.Layout(), x)
                                            == if x == id then Some(data) else Lookup(old(table.Layout()), x)
    {
      hide Tb.View, Tb.ChainOK, IsImage, T.Insert, T.InsertedId, T.FreshIn, R.Apply, IndexRefuses, EncodeKey;
      hide X.BTreeIndex.Valid, Tb.Table.Valid, O.PutEntry, O.OutcomeOf, Lookup, Decode;
      spare := store.next;
      ghost var db := Db();
      LayoutDistinct();
      NextIsFresh();
      var bytes := SerializeRow(row, schema.types);
      data := bytes;
      DecodeImage(data, row, schema.types);
      if schema.unique {
        var checked := CheckUnique(row[schema.col]);
        if checked.Err? {
          return Err(checked.error), data, spare;
        }
      }
      var stored;
      stored, spare := StoreRow(bytes);
      StoredShows(db.layout, data, spare);
      if stored.Err? {
        return Err(NoSpace), data, spare;
      }
      var key := KeyOf(schema, row);
      if key.Some? {
        var o := AddEntry(key.value, stored.value);
        if o != O.Inserted {
          return Err(EntryTooLong), data, spare;
        }
        used := used + {key.value};
      }
      return Ok(stored.value), data, spare;
    }

    lemma StoredShows(l: Layout, data: Bytes, spare: PageId)
      requires Distinct(l) && T.FreshIn(l, spare)
      ensures var id := T.InsertedId(l, data, spare);
              (id.Some? ==> Lookup(l, id.value) == None)
              && forall x :: Lookup(T.Insert(l, data, spare), x) == if id == Some(x) then Some(data) else Lookup(l, x)
    {
      T.InsertMeaning(l, data, spare);
      if T.InsertedId(l, data, spare).Some? {
        NotIssued(l, T.InsertedId(l, data, spare).value);
      }
      hide T.Insert, T.InsertedId, Lookup;
    }

    lemma LayoutDistinct()
      requires Valid()
      ensures Distinct(table.Layout())
    {
      Tb.ViewDistinct(store.pages, table.chain);
    }

    lemma NextIsFresh()
      requires Valid()
      ensures T.FreshIn(table.Layout(), store.next)
    {
      hide S.Sound;
      Tb.ChainKnown(store.pages, table.chain);
      forall k | 0 <= k < |table.chain|
        ensures table.chain[k] != store.next
      {
        assert table.chain[k] in table.chain;
      }
    }

    /** DELETE of one row the scan showed: its index entry first, then the row. */
    method DeleteRow(id: RowId)
      requires Valid() && StoredOK(table.Layout(), schema) && id.page in table.chain
      requires Lookup(table.Layout(), id).Some?
      modifies table, index, store
      ensures Valid() && Db() == Delete(old(Db()), schema, id)
      ensures forall r :: Lookup(table.Layout(), r) == if r == id then None else Lookup(old(table.Layout()), r)
    {
      hide Tb.View, Tb.ChainOK, T.Delete, R.Apply, EncodeKey, Lookup, X.BTreeIndex.Valid, Tb.Table.Valid, Distinct;
      DeleteShown(id);
      var data := table.GetRow(id);
      var row := DeserializeRow(data.value, schema.types);
      var key := KeyOf(schema, row.value);
      if key.Some? {
        DropEntry(key.value, id);
      }
      RemoveRow(id);
    }

    lemma DeleteShown(id: RowId)
      requires Valid()
      ensures forall r :: Lookup(T.Delete(table.Layout(), id), r)
                          == if r == id then None else Lookup(table.Layout(), r)
    {
      hide Lookup, T.Delete;
      LayoutDistinct();
      T.DeleteMeaning(table.Layout(), id);
    }

    /** Frees the slot of a row; the pages of the index stay as they are. */
    method RemoveRow(id: RowId)
      requires Valid() && id.page in table.chain
      modifies store
      ensures Valid() && table.Layout() == T.Delete(old(table.Layout()), id)
      ensures index.Tree() == old(index.Tree()) && index.height == old(index.height)
    {
      hide T.Delete, Issued, Lookup, BP.Good, BP.Foot, BP.Abs, B.Shape, Tb.View, Tb.ChainOK, NP.NodeBytes;
      assert forall q :: q in index.nodes ==> index.PageOK(q) && q in store.pages && q !in table.chain;
      var done := table.DeleteRow(id);
      assert forall q :: q in index.nodes ==> index.PageOK(q);
      hide X.BTreeIndex.PageOK, Tb.Elsewhere;
      assert table.Valid();
      assert index.PagesOK();
      assert BP.Good(index.nodes, index.rootPage, index.height);
      assert index.Valid();
      hide Tb.Table.Valid, X.BTreeIndex.Valid;
      assert forall p :: p in table.chain ==> p !in index.nodes;
    }
  }
}
