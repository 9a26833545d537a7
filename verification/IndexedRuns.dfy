/** What the rows of a table with an index are after any run of INSERT and DELETE, and that a unique column stays so. */
module IndexedRuns {
  import opened Wrappers
  import opened ByteCodec
  import opened RowIds
  import opened KeyOrder
  import opened RowFormat
  import opened KeyEncoding
  import opened TableSpec
  import T = TableRuns
  import R = BTreeRuns
  import O = BTreeOverflow
  import opened IndexedTable

  // ----- a dictionary of rows -----

  type Rows = map<RowId, Row>

  /** The id under which the statement stores its row; none when the check refuses it or no page can hold it. */
  ghost function StoredUnder(db: Database, c: Schema, s: Statement): Option<RowId>
    requires SchemaOK(c) && Enabled(db, c, s)
  {
    if s.InsertRow? && !(c.unique && IndexRefuses(db.index, c, s.row[c.col]))
    then T.InsertedId(db.layout, s.data, s.spare) else None
  }

  /** The dictionary after the statement. */
  function Recorded(m: Rows, s: Statement, id: Option<RowId>): Rows {
    match s
    case InsertRow(row, _, _) => if id.Some? then m[id.value := row] else m
    case DeleteRow(r) => m - {r}
  }

  /** Every run that the code follows, whether entries fit or not and values repeat or not, beside the dictionary. */
  ghost predicate Follows(db: Database, c: Schema, m: Rows, ss: seq<Statement>, db': Database, m': Rows)
    requires SchemaOK(c)
    decreases |ss|
  {
    if ss == [] then db == db' && m == m'
    else
      && Enabled(db, c, ss[0]) && Followed(db, c, ss[0])
      && Follows(Perform(db, c, ss[0]), c, Recorded(m, ss[0], StoredUnder(db, c, ss[0])), ss[1..], db', m')
  }

  /** Row ids look up the rows of the dictionary, and no others. */
  ghost predicate Holds(l: Layout, c: Schema, m: Rows) {
    && Distinct(l)
    && forall r :: if r in m then Lookup(l, r).Some? && Decode(Lookup(l, r).value, c.types) == Some(m[r])
                   else Lookup(l, r) == None
  }

  lemma InsertRecorded(l: Layout, c: Schema, m: Rows, row: Row, data: Bytes, spare: PageId)
    requires Holds(l, c, m) && T.FreshIn(l, spare) && Conforms(row, c.types) && IsImage(data, row, c.types)
    ensures var id := T.InsertedId(l, data, spare);
            Holds(T.Insert(l, data, spare), c, if id.Some? then m[id.value := row] else m)
  {
    hide Lookup, Decode, Distinct, T.Insert, T.InsertedId, T.FreshIn, Conforms, IsImage;
    T.InsertMeaning(l, data, spare);
    DecodeImage(data, row, c.types);
  }

  lemma DeleteRecorded(l: Layout, c: Schema, m: Rows, id: RowId)
    requires Holds(l, c, m)
    ensures Holds(T.Delete(l, id), c, m - {id})
  {
    hide Lookup, Decode, Distinct, T.Delete;
    T.DeleteMeaning(l, id);
    T.DeleteIssued(l, id, id);
  }

  lemma StatementRecorded(db: Database, c: Schema, m: Rows, s: Statement)
    requires SchemaOK(c) && Enabled(db, c, s) && Followed(db, c, s) && Holds(db.layout, c, m)
    ensures Holds(Perform(db, c, s).layout, c, Recorded(m, s, StoredUnder(db, c, s)))
  {
    hide Holds, IndexRefuses, T.Insert, T.InsertedId, T.Delete, T.FreshIn, Conforms, IsImage, O.OutcomeOf, O.PutEntry;
    hide R.Apply, R.Shaped, KeyAt;
    match s
    case InsertRow(row, data, spare) => InsertRecorded(db.layout, c, m, row, data, spare);
    case DeleteRow(id) => DeleteRecorded(db.layout, c, m, id);
  }

  lemma {:induction false} RunRecorded(db: Database, c: Schema, m: Rows, ss: seq<Statement>, db': Database, m': Rows)
    requires SchemaOK(c) && Holds(db.layout, c, m) && Follows(db, c, m, ss, db', m')
    ensures Holds(db'.layout, c, m')
    decreases |ss|
  {
    hide Holds, Perform, Recorded, StoredUnder, Followed, Enabled;
    if ss != [] {
      StatementRecorded(db, c, m, ss[0]);
      RunRecorded(Perform(db, c, ss[0]), c, Recorded(m, ss[0], StoredUnder(db, c, ss[0])), ss[1..], db', m');
    }
  }

  lemma NothingHeld(root: PageId, c: Schema)
    ensures Holds(NewDatabase(root).layout, c, map[])
  {
    var l := NewDatabase(root).layout;
    forall r
      ensures Lookup(l, r) == None
    {
      assert l[1..] == [];
    }
  }

  /** Over every run from an empty table, with rows that are NULL in the indexed column among them: the scan shows the
      rows of the dictionary under their ids, each once, and nothing else. */
  lemma RunRows(root: PageId, c: Schema, ss: seq<Statement>, db: Database, m: Rows, r: RowId, row: Row)
    requires SchemaOK(c) && Follows(NewDatabase(root), c, map[], ss, db, m)
    ensures (exists data :: (r, data) in Scan(db.layout) && Decode(data, c.types) == Some(row))
            <==> r in m && m[r] == row
    ensures forall f :: f in Scan(db.layout) ==> f.0 in m
    ensures forall i, j :: 0 <= i < j < |Scan(db.layout)| ==> Scan(db.layout)[i].0 != Scan(db.layout)[j].0
  {
    hide Follows, NewDatabase, Lookup, Decode, Scan, Distinct;
    NothingHeld(root, c);
    RunRecorded(NewDatabase(root), c, map[], ss, db, m);
    var l := db.layout;
    ScanOnce(l);
    if data :| (r, data) in Scan(l) && Decode(data, c.types) == Some(row) {
      ScanExact(l, r, data);
    }
    if r in m && m[r] == row {
      ScanExact(l, r, Lookup(l, r).value);
    }
    forall f | f in Scan(l)
      ensures f.0 in m
    {
      ScanExact(l, f.0, f.1);
    }
  }

  // ----- the check -----

  /** Some live row has this value in the indexed column. */
  ghost predicate HasValue(l: Layout, c: Schema, v: Field) {
    exists r :: ValueAt(l, c, r, v)
  }

  ghost predicate ValueAt(l: Layout, c: Schema, r: RowId, v: Field) {
    && Lookup(l, r).Some? && Decode(Lookup(l, r).value, c.types).Some?
    && c.col < |Decode(Lookup(l, r).value, c.types).value|
    && Decode(Lookup(l, r).value, c.types).value[c.col] == Some(v)
  }

  lemma ValueHasKey(l: Layout, c: Schema, r: RowId, v: Field)
    requires SchemaOK(c) && StoredOK(l, c) && FieldConforms(v, c.types[c.col]) && c.types[c.col] != FLOAT
    ensures ValueAt(l, c, r, v) <==> KeyAt(l, c, r) == Some(EncodeKey(v))
  {
    hide Lookup, Decode, EncodeKey;
    var row := RowAt(l, c, r);
    if KeyAt(l, c, r) == Some(EncodeKey(v)) {
      var f := row.value[c.col].value;
      FieldOK(row.value, c.types, c.col);
      if f != v {
        KeyInjective(f, v, c.types[c.col]);
      }
    }
  }

  lemma FieldOK(row: Row, types: seq<ColumnType>, i: nat)
    requires Conforms(row, types) && i < |types| && row[i].Some?
    ensures FieldConforms(row[i].value, types[i])
  {
  }

  /** The check through the index refuses a value exactly when some live row has it. */
  lemma RefusedIff(db: Database, c: Schema, m: map<Key, RowId>, v: Field)
    requires SchemaOK(c) && Good(db, c, m) && FieldConforms(v, c.types[c.col]) && c.types[c.col] != FLOAT
    ensures IndexRefuses(db.index, c, Some(v)) <==> HasValue(db.layout, c, v)
  {
    hide Good, ValueAt, KeyAt, EncodeKey, IndexedTable.B.Search;
    SearchFindsLive(db, c, m, EncodeKey(v));
    GoodStored(db, c, m);
    forall r
      ensures ValueAt(db.layout, c, r, v) <==> KeyAt(db.layout, c, r) == Some(EncodeKey(v))
    {
      ValueHasKey(db.layout, c, r, v);
    }
  }

  lemma GoodStored(db: Database, c: Schema, m: map<Key, RowId>)
    requires SchemaOK(c) && Good(db, c, m)
    ensures StoredOK(db.layout, c)
  {
  }

  /** Over every run in which a value may be tried again while its row is live, no two live rows have the same value. */
  lemma UniqueHolds(root: PageId, c: Schema, ss: seq<Statement>, db: Database, r: RowId, r': RowId, v: Field)
    requires SchemaOK(c) && Leads(NewDatabase(root), c, ss, db)
    requires FieldConforms(v, c.types[c.col]) && c.types[c.col] != FLOAT
    requires ValueAt(db.layout, c, r, v) && ValueAt(db.layout, c, r', v)
    ensures r == r'
  {
    hide ValueAt, NewDatabase, Leads, KeyAt, EncodeKey;
    NewGood(root, c);
    var m := RunKeeps(NewDatabase(root), c, map[], ss, db);
    ValueHasKey(db.layout, c, r, v);
    ValueHasKey(db.layout, c, r', v);
    var k := EncodeKey(v);
    assert (k in m && m[k] == r) <==> KeyAt(db.layout, c, r) == Some(k);
    assert (k in m && m[k] == r') <==> KeyAt(db.layout, c, r') == Some(k);
  }
}
