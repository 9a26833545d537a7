/** A table with an index on one column: what INSERT and DELETE do to both, and the uniqueness
    check of INSERT with and without the index. */
module IndexedTable {
  import opened Wrappers
  import opened ByteCodec
  import opened RowIds
  import opened KeyOrder
  import opened RowFormat
  import opened KeyEncoding
  import opened TableSpec
  import T = TableRuns
  import B = BTreeModel
  import R = BTreeRuns
  import BI = BTreeInsert
  import O = BTreeOverflow
  import NP = NodePage

  /** The schema, the indexed column, whether it must be unique, and the node limits of its index. */
  datatype Schema = Schema(types: seq<ColumnType>, col: nat, unique: bool, lim: B.Limits)

  predicate SchemaOK(c: Schema) {
    c.col < |c.types| < U16_LIMIT && B.GoodLimits(c.lim)
  }

  /** The chain of pages, the index, and the keys ever inserted into it. */
  datatype Database = Database(layout: Layout, index: R.Index, used: set<Key>)

  datatype Statement = InsertRow(row: Row, data: Bytes, spare: PageId) | DeleteRow(id: RowId)

  // ----- what the table shows -----

  function RowAt(l: Layout, c: Schema, r: RowId): Option<Row> {
    if Lookup(l, r).None? then None else Decode(Lookup(l, r).value, c.types)
  }

  /** The key of the indexed column of a row; none when it is NULL. */
  function KeyOf(c: Schema, row: Row): Option<Key>
    requires SchemaOK(c) && Conforms(row, c.types)
  {
    if row[c.col].None? then None else Some(EncodeKey(row[c.col].value))
  }

  function KeyAt(l: Layout, c: Schema, r: RowId): Option<Key>
    requires SchemaOK(c)
  {
    var row := RowAt(l, c, r);
    if row.None? || !Conforms(row.value, c.types) then None else KeyOf(c, row.value)
  }

  /** Every live row conforms to the schema. */
  ghost predicate StoredOK(l: Layout, c: Schema) {
    forall r :: Lookup(l, r).Some? ==> RowAt(l, c, r).Some? && Conforms(RowAt(l, c, r).value, c.types)
  }

  // ----- the two forms of the uniqueness check -----

  /** The key the check searches for. A NULL cannot be encoded, except in a column of truth
      values, where it packs like false. */
  function SearchKey(c: Schema, v: Option<Field>): Option<Key>
    requires SchemaOK(c) && (v.Some? ==> FieldConforms(v.value, c.types[c.col]))
  {
    if v.Some? then Some(EncodeKey(v.value)) else if c.types[c.col] == BOOLEAN then Some([0]) else None
  }

  /** Searching the index; a value that cannot be encoded raises. */
  ghost predicate IndexRefuses(x: R.Index, c: Schema, v: Option<Field>)
    requires R.Shaped(x) && SchemaOK(c) && (v.Some? ==> FieldConforms(v.value, c.types[c.col]))
  {
    SearchKey(c, v).None? || B.Search(x.tree, SearchKey(c, v).value) != []
  }

  /** Python's equality of two values of a column; NULL equals NULL. */
  predicate SameValue(a: Option<Field>, b: Option<Field>) {
    if a.Some? && b.Some? && a.value.Float? && b.value.Float? && |a.value.bits| == 8 && |b.value.bits| == 8
    then FloatEqual(a.value.bits, b.value.bits) else a == b
  }

  /** Comparing with the column of every row the scan yields. */
  ghost predicate ScanRefuses(l: Layout, c: Schema, v: Option<Field>)
    requires SchemaOK(c)
  {
    exists f :: f in Scan(l) && ShowsValue(c, f, v)
  }

  ghost predicate ShowsValue(c: Schema, f: Found, v: Option<Field>)
    requires SchemaOK(c)
  {
    var row := Decode(f.1, c.types);
    row.Some? && Conforms(row.value, c.types) && SameValue(row.value[c.col], v)
  }

  // ----- statements -----

  ghost predicate Enabled(db: Database, c: Schema, s: Statement)
    requires SchemaOK(c)
  {
    && R.Shaped(db.index)
    && match s
       case InsertRow(row, data, spare) =>
         Conforms(row, c.types) && IsImage(data, row, c.types) && T.FreshIn(db.layout, spare)
       case DeleteRow(id) => Lookup(db.layout, id).Some?
  }

  /** A row whose value the check refuses changes nothing; a row too long for any page leaves only
      the page chained for it; a NULL gets no index entry. */
  ghost function Insert(db: Database, c: Schema, row: Row, data: Bytes, spare: PageId): Database
    requires SchemaOK(c) && R.Shaped(db.index) && Conforms(row, c.types)
  {
    if c.unique && IndexRefuses(db.index, c, row[c.col]) then db else Store(db, c, row, data, spare)
  }

  ghost function Store(db: Database, c: Schema, row: Row, data: Bytes, spare: PageId): Database
    requires SchemaOK(c) && R.Shaped(db.index) && Conforms(row, c.types)
  {
    var layout, id := T.Insert(db.layout, data, spare), T.InsertedId(db.layout, data, spare);
    var key := KeyOf(c, row);
    if id.None? || key.None? then db.(layout := layout)
    else Database(layout, R.Apply(db.index, R.Ins(B.Entry(key.value, id.value)), c.lim), db.used + {key.value})
  }

  /** What becomes of the index entry that the statement adds, if it adds one. */
  ghost function EntryOutcome(db: Database, c: Schema, row: Row, data: Bytes, spare: PageId): O.Outcome
    requires SchemaOK(c) && R.Shaped(db.index) && Conforms(row, c.types)
  {
    var key := KeyOf(c, row);
    if (c.unique && IndexRefuses(db.index, c, row[c.col])) || T.InsertedId(db.layout, data, spare).None? || key.None?
    then O.Inserted else O.OutcomeOf(db.index, key.value, c.lim)
  }

  /** The row is stored and its entry did not fit the leaf. */
  ghost function StoreUnindexed(db: Database, c: Schema, row: Row, data: Bytes, spare: PageId): Database
    requires SchemaOK(c) && R.Shaped(db.index) && Conforms(row, c.types)
  {
    var layout, id := T.Insert(db.layout, data, spare), T.InsertedId(db.layout, data, spare);
    var key := KeyOf(c, row);
    if id.None? || key.None? then db.(layout := layout)
    else db.(layout := layout, index := O.PutEntry(db.index, B.Entry(key.value, id.value), c.lim))
  }

  /** The index entry goes first, then the row. */
  ghost function Delete(db: Database, c: Schema, id: RowId): Database
    requires SchemaOK(c) && R.Shaped(db.index)
  {
    var key := KeyAt(db.layout, c, id);
    var index := if key.Some? then R.Apply(db.index, R.Del(B.Entry(key.value, id)), c.lim) else db.index;
    Database(T.Delete(db.layout, id), index, db.used)
  }

  /** No inner node of the index is too long for a separator; otherwise the index is lost in part. */
  ghost predicate Followed(db: Database, c: Schema, s: Statement)
    requires SchemaOK(c) && Enabled(db, c, s)
  {
    s.InsertRow? ==> EntryOutcome(db, c, s.row, s.data, s.spare) != O.NodeFull
  }

  /** The index entry, if there is one to add, fits its leaf. */
  ghost predicate Indexed(db: Database, c: Schema, s: Statement)
    requires SchemaOK(c) && Enabled(db, c, s)
  {
    s.InsertRow? ==> EntryOutcome(db, c, s.row, s.data, s.spare) == O.Inserted
  }

  ghost function Perform(db: Database, c: Schema, s: Statement): (db': Database)
    requires SchemaOK(c) && Enabled(db, c, s) && Followed(db, c, s)
    ensures R.Shaped(db'.index)
  {
    match s
    case InsertRow(row, data, spare) =>
      if EntryOutcome(db, c, row, data, spare) == O.Inserted then Insert(db, c, row, data, spare)
      else StoreUnindexed(db, c, row, data, spare)
    case DeleteRow(id) => Delete(db, c, id)
  }

  /** No value is inserted into the column again, not even after its row was deleted; into a unique column it may be
      tried while its row is live. */
  ghost predicate NewKey(db: Database, c: Schema, s: Statement)
    requires SchemaOK(c) && Enabled(db, c, s)
  {
    s.InsertRow? && KeyOf(c, s.row).Some? ==>
      KeyOf(c, s.row).value !in db.used || (c.unique && LiveKey(db.layout, c, KeyOf(c, s.row).value))
  }

  // ----- the invariant -----

  /** The map m is at once what the tree holds and what the rows show. */
  ghost predicate Mirrors(db: Database, c: Schema, m: map<Key, RowId>)
    requires SchemaOK(c)
  {
    && R.Represents(db.index, m)
    && forall k, r :: (k in m && m[k] == r) <==> KeyAt(db.layout, c, r) == Some(k)
  }

  ghost predicate Remembered(db: Database, m: map<Key, RowId>) {
    && (forall k :: BI.Occurs(db.index.tree, k) ==> k in db.used)
    && forall k :: k in m ==> k in db.used
  }

  ghost predicate Good(db: Database, c: Schema, m: map<Key, RowId>)
    requires SchemaOK(c)
  {
    && Distinct(db.layout) && StoredOK(db.layout, c)
    && R.Shaped(db.index) && R.Balanced(db.index, c.lim)
    && Mirrors(db, c, m) && Remembered(db, m)
  }

  // ----- INSERT keeps it -----

  lemma InsertShows(db: Database, c: Schema, row: Row, data: Bytes, spare: PageId)
    requires SchemaOK(c) && Distinct(db.layout) && StoredOK(db.layout, c)
    requires Conforms(row, c.types) && IsImage(data, row, c.types) && T.FreshIn(db.layout, spare)
    ensures var l, id := T.Insert(db.layout, data, spare), T.InsertedId(db.layout, data, spare);
            && Distinct(l) && StoredOK(l, c)
            && (id.Some? ==> KeyAt(db.layout, c, id.value) == None && RowAt(l, c, id.value) == Some(row))
            && forall r :: KeyAt(l, c, r) == if id == Some(r) then KeyOf(c, row) else KeyAt(db.layout, c, r)
  {
    hide Lookup, Decode, Conforms, IsImage, Distinct, T.Insert, T.InsertedId, T.FreshIn, EncodeKey;
    T.InsertMeaning(db.layout, data, spare);
    DecodeImage(data, row, c.types);
    var id := T.InsertedId(db.layout, data, spare);
    if id.Some? {
      NotIssued(db.layout, id.value);
    }
  }

  lemma NotIssued(l: Layout, r: RowId)
    requires Distinct(l) && !Issued(l, r)
    ensures Lookup(l, r) == None
  {
    if k :| 0 <= k < |l| && l[k].id == r.page {
      LookupAt(l, k, r.slot);
    } else {
      LookupAbsent(l, r);
    }
  }

  function WithEntry(m: map<Key, RowId>, key: Option<Key>, id: Option<RowId>): map<Key, RowId> {
    if key.Some? && id.Some? then m[key.value := id.value] else m
  }

  lemma StoreKeeps(db: Database, c: Schema, m: map<Key, RowId>, row: Row, data: Bytes, spare: PageId)
    requires SchemaOK(c) && Good(db, c, m)
    requires Conforms(row, c.types) && IsImage(data, row, c.types) && T.FreshIn(db.layout, spare)
    requires KeyOf(c, row).Some? ==> KeyOf(c, row).value !in db.used
    ensures Good(Store(db, c, row, data, spare), c, WithEntry(m, KeyOf(c, row), T.InsertedId(db.layout, data, spare)))
  {
    hide Lookup, Distinct, StoredOK, RowAt, KeyAt, KeyOf, T.Insert, T.InsertedId, Conforms, IsImage, SchemaOK;
    hide R.Apply, R.Balanced, R.Represents, R.Shaped, BI.Occurs, T.FreshIn, B.GoodLimits;
    var l, id, key := T.Insert(db.layout, data, spare), T.InsertedId(db.layout, data, spare), KeyOf(c, row);
    InsertShows(db, c, row, data, spare);
    if id.Some? && key.Some? {
      EntryAdded(db, c, m, B.Entry(key.value, id.value));
      EntryMirrored(db.layout, l, c, m, key.value, id.value);
    }
  }

  lemma EntryMirrored(l: Layout, l': Layout, c: Schema, m: map<Key, RowId>, key: Key, id: RowId)
    requires SchemaOK(c) && key !in m && KeyAt(l, c, id) == None
    requires forall k, r :: (k in m && m[k] == r) <==> KeyAt(l, c, r) == Some(k)
    requires forall r :: KeyAt(l', c, r) == if r == id then Some(key) else KeyAt(l, c, r)
    ensures var m' := m[key := id]; forall k, r :: (k in m' && m'[k] == r) <==> KeyAt(l', c, r) == Some(k)
  {
    hide KeyAt;
  }

  lemma EntryAdded(db: Database, c: Schema, m: map<Key, RowId>, e: B.Entry)
    requires SchemaOK(c) && Good(db, c, m) && e.key !in db.used
    ensures var x := R.Apply(db.index, R.Ins(e), c.lim);
            && R.Balanced(x, c.lim) && R.Represents(x, m[e.key := e.ptr])
            && forall k :: BI.Occurs(x.tree, k) ==> k in db.used + {e.key}
  {
    R.InsStep(db.index, m, e, c.lim);
    hide R.Balanced, R.Represents, BI.Occurs, StoredOK, Mirrors, R.Apply;
    forall k | BI.Occurs(R.Apply(db.index, R.Ins(e), c.lim).tree, k)
      ensures k in db.used + {e.key}
    {
      R.ApplyOccurs(db.index, R.Ins(e), c.lim, k);
    }
  }

  // ----- DELETE keeps it -----

  lemma DeleteShows(db: Database, c: Schema, id: RowId)
    requires SchemaOK(c) && Distinct(db.layout) && StoredOK(db.layout, c)
    ensures var l := T.Delete(db.layout, id);
            && Distinct(l) && StoredOK(l, c)
            && forall r :: KeyAt(l, c, r) == if r == id then None else KeyAt(db.layout, c, r)
  {
    T.DeleteMeaning(db.layout, id);
    T.DeleteIssued(db.layout, id, id);
    hide Lookup, Decode, Conforms, Distinct, T.Delete, EncodeKey;
  }

  lemma EntryRemoved(db: Database, c: Schema, m: map<Key, RowId>, e: B.Entry)
    requires SchemaOK(c) && Good(db, c, m) && e.key in m && m[e.key] == e.ptr
    ensures var x := R.Apply(db.index, R.Del(e), c.lim);
            && R.Balanced(x, c.lim) && R.Represents(x, m - {e.key})
            && forall k :: BI.Occurs(x.tree, k) ==> k in db.used
  {
    R.DelStep(db.index, m, e, c.lim);
    hide R.Balanced, R.Represents, BI.Occurs, StoredOK, Mirrors, R.Apply;
    forall k | BI.Occurs(R.Apply(db.index, R.Del(e), c.lim).tree, k)
      ensures k in db.used
    {
      R.ApplyOccurs(db.index, R.Del(e), c.lim, k);
    }
  }

  function WithoutEntry(m: map<Key, RowId>, key: Option<Key>): map<Key, RowId> {
    if key.Some? then m - {key.value} else m
  }

  lemma DeleteKeeps(db: Database, c: Schema, m: map<Key, RowId>, id: RowId)
    requires SchemaOK(c) && Good(db, c, m)
    ensures Good(Delete(db, c, id), c, WithoutEntry(m, KeyAt(db.layout, c, id)))
  {
    var key := KeyAt(db.layout, c, id);
    DeleteShows(db, c, id);
    if key.Some? {
      assert key.value in m && m[key.value] == id;
      EntryRemoved(db, c, m, B.Entry(key.value, id));
    }
    hide Lookup, Distinct, StoredOK, RowAt, KeyAt, KeyOf, T.Delete, Conforms;
    hide R.Apply, R.Balanced, R.Represents, BI.Occurs;
  }

  // ----- every run -----

  /** The check refuses a value that is live. */
  lemma LiveRefused(db: Database, c: Schema, m: map<Key, RowId>, row: Row)
    requires SchemaOK(c) && Good(db, c, m) && Conforms(row, c.types) && KeyOf(c, row).Some?
    ensures LiveKey(db.layout, c, KeyOf(c, row).value) <==> IndexRefuses(db.index, c, row[c.col])
  {
    hide Good, LiveKey, B.Search, EncodeKey;
    SearchFindsLive(db, c, m, KeyOf(c, row).value);
  }

  lemma StatementKeeps(db: Database, c: Schema, m: map<Key, RowId>, s: Statement) returns (m': map<Key, RowId>)
    requires SchemaOK(c) && Good(db, c, m) && Enabled(db, c, s) && NewKey(db, c, s) && Indexed(db, c, s)
    ensures Good(Perform(db, c, s), c, m')
  {
    hide Good, IndexRefuses, KeyOf, KeyAt, Store, Delete, EntryOutcome, StoreUnindexed, LiveKey;
    match s
    case InsertRow(row, data, spare) =>
      if KeyOf(c, row).Some? {
        LiveRefused(db, c, m, row);
      }
      if c.unique && IndexRefuses(db.index, c, row[c.col]) {
        m' := m;
      } else {
        StoreKeeps(db, c, m, row, data, spare);
        m' := WithEntry(m, KeyOf(c, row), T.InsertedId(db.layout, data, spare));
      }
    case DeleteRow(id) =>
      DeleteKeeps(db, c, m, id);
      m' := WithoutEntry(m, KeyAt(db.layout, c, id));
  }

  /** An empty table with an empty index. */
  function NewDatabase(root: PageId): Database {
    Database(T.EmptyTable(root), R.Index(B.Leaf([]), 0), {})
  }

  lemma NewGood(root: PageId, c: Schema)
    requires SchemaOK(c)
    ensures Good(NewDatabase(root), c, map[])
  {
    var db := NewDatabase(root);
    R.RunInvariant([], c.lim);
    assert R.Execute([], c.lim) == db.index && R.Meaning([]) == map[];
    forall r
      ensures Lookup(db.layout, r) == None
    {
      assert db.layout[1..] == [];
    }
    forall k | BI.Occurs(db.index.tree, k)
      ensures false
    {
    }
    hide Decode, R.Represents, R.Balanced;
  }

  /** A run of statements in which no value is inserted twice and every index entry fits its leaf. */
  ghost predicate Leads(db: Database, c: Schema, ss: seq<Statement>, db': Database)
    requires SchemaOK(c)
    decreases |ss|
  {
    if ss == [] then db == db'
    else
      && Enabled(db, c, ss[0]) && NewKey(db, c, ss[0]) && Indexed(db, c, ss[0])
      && Leads(Perform(db, c, ss[0]), c, ss[1..], db')
  }

  lemma {:induction false} RunKeeps(db: Database, c: Schema, m: map<Key, RowId>, ss: seq<Statement>, db': Database)
    returns (m': map<Key, RowId>)
    requires SchemaOK(c) && Good(db, c, m) && Leads(db, c, ss, db')
    ensures Good(db', c, m')
    decreases |ss|
  {
    hide Good, Perform, NewKey, EntryOutcome;
    m' := m;
    if ss != [] {
      var m1 := StatementKeeps(db, c, m, ss[0]);
      m' := RunKeeps(Perform(db, c, ss[0]), c, m1, ss[1..], db');
    }
  }

  // ----- what follows from it -----

  /** The index holds exactly the pairs of key and row id that the scan shows. */
  lemma IndexShowsScan(db: Database, c: Schema, m: map<Key, RowId>, k: Key, r: RowId)
    requires SchemaOK(c) && Good(db, c, m)
    ensures B.Has(db.index.tree, k, r) <==>
            exists data :: (r, data) in Scan(db.layout) && ShowsKey(c, data, k)
  {
    hide Decode, EncodeKey, Conforms, B.Has, R.Balanced, R.Shaped, BI.Occurs, Distinct;
    var data := Lookup(db.layout, r);
    if KeyAt(db.layout, c, r) == Some(k) {
      ScanExact(db.layout, r, data.value);
      assert ShowsKey(c, data.value, k);
    }
    forall d | (r, d) in Scan(db.layout) && ShowsKey(c, d, k)
      ensures KeyAt(db.layout, c, r) == Some(k)
    {
      ScanExact(db.layout, r, d);
    }
  }

  /** The bytes are a row whose indexed column has this key. */
  ghost predicate ShowsKey(c: Schema, data: Bytes, k: Key)
    requires SchemaOK(c)
  {
    var row := Decode(data, c.types);
    row.Some? && Conforms(row.value, c.types) && KeyOf(c, row.value) == Some(k)
  }

  /** Some live row has the key. */
  ghost predicate LiveKey(l: Layout, c: Schema, k: Key)
    requires SchemaOK(c)
  {
    exists r :: KeyAt(l, c, r) == Some(k)
  }

  lemma SearchFindsLive(db: Database, c: Schema, m: map<Key, RowId>, k: Key)
    requires SchemaOK(c) && Good(db, c, m)
    ensures B.Search(db.index.tree, k) != [] <==> LiveKey(db.layout, c, k)
  {
    hide Lookup, KeyAt, B.Search, B.Has, StoredOK;
    var x := db.index;
    if k in m {
      B.SearchFinds(x.tree, x.height, B.Unbounded, B.Unbounded, c.lim, k, m[k]);
      assert KeyAt(db.layout, c, m[k]) == Some(k);
    } else {
      BI.NothingFound(x.tree, x.height, B.Unbounded, B.Unbounded, c.lim, k);
    }
  }

  /** The row has a value with a key of its own, or none. */
  predicate ClearRow(row: Option<Row>, c: Schema)
    requires SchemaOK(c)
  {
    row.Some? && c.col < |row.value| && row.value[c.col].Some? ==> KeyValue(row.value[c.col].value, c.types[c.col])
  }

  /** Equal values have equal keys, here: always in a column that is not FLOAT; in one that is, when v is no NaN, and
      neither v nor a live value is -0.0 or a NaN with a sign. */
  ghost predicate Keyed(l: Layout, c: Schema, v: Field)
    requires SchemaOK(c)
  {
    c.types[c.col] == FLOAT ==>
      && KeyValue(v, FLOAT) && !IsNaN(v.bits)
      && forall r :: ClearRow(RowAt(l, c, r), c)
  }

  /** Values with keys of their own are equal exactly when their keys are. */
  lemma KeyedEqual(f: Field, v: Field, t: ColumnType)
    requires FieldConforms(f, t) && FieldConforms(v, t)
    requires t == FLOAT ==> KeyValue(f, t) && KeyValue(v, t) && !IsNaN(v.bits)
    ensures SameValue(Some(f), Some(v)) <==> EncodeKey(f) == EncodeKey(v)
  {
    hide EncodeFloat, EncodeInt, FloatEqual, CleanSign, IsNaN;
    if t == FLOAT {
      FloatEqualIffKeys(f.bits, v.bits);
    } else {
      KeyInjective(f, v, t);
    }
  }

  /** For a value that is not NULL, scanning refuses exactly when some live row has its key. */
  lemma ScanFindsLive(db: Database, c: Schema, m: map<Key, RowId>, v: Field)
    requires SchemaOK(c) && Good(db, c, m) && FieldConforms(v, c.types[c.col]) && Keyed(db.layout, c, v)
    ensures ScanRefuses(db.layout, c, Some(v)) <==> LiveKey(db.layout, c, EncodeKey(v))
  {
    hide Decode, EncodeKey, R.Balanced, R.Shaped, BI.Occurs, Distinct, Lookup, SameValue, Mirrors, KeyValue, IsNaN;
    var l, k := db.layout, EncodeKey(v);
    if ScanRefuses(l, c, Some(v)) {
      var f :| f in Scan(l) && ShowsValue(c, f, Some(v));
      ScanExact(l, f.0, f.1);
      assert ClearRow(RowAt(l, c, f.0), c) || c.types[c.col] != FLOAT;
      ValuePresent(RowAt(l, c, f.0).value[c.col], v);
      KeyedEqual(RowAt(l, c, f.0).value[c.col].value, v, c.types[c.col]);
      assert KeyAt(l, c, f.0) == Some(k);
    }
    if r :| KeyAt(l, c, r) == Some(k) {
      var data := Lookup(l, r).value;
      ScanExact(l, r, data);
      assert ClearRow(RowAt(l, c, r), c) || c.types[c.col] != FLOAT;
      KeyedEqual(RowAt(l, c, r).value[c.col].value, v, c.types[c.col]);
      assert ShowsValue(c, (r, data), Some(v));
    }
  }

  lemma ValuePresent(a: Option<Field>, v: Field)
    requires SameValue(a, Some(v))
    ensures a.Some?
  {
  }

  /** For every value that is not NULL the check through the index refuses exactly what the check
      through the scan refuses. */
  lemma ChecksAgree(db: Database, c: Schema, m: map<Key, RowId>, v: Field)
    requires SchemaOK(c) && Good(db, c, m) && FieldConforms(v, c.types[c.col]) && Keyed(db.layout, c, v)
    ensures IndexRefuses(db.index, c, Some(v)) <==> ScanRefuses(db.layout, c, Some(v))
  {
    hide Good, LiveKey, ScanRefuses, EncodeKey, B.Search, Keyed;
    SearchFindsLive(db, c, m, EncodeKey(v));
    ScanFindsLive(db, c, m, v);
  }

  /** Some live row has v in the indexed column; None is NULL. */
  ghost predicate LiveValue(l: Layout, c: Schema, v: Option<Field>)
    requires SchemaOK(c)
  {
    exists r :: RowHas(RowAt(l, c, r), c, v)
  }

  predicate RowHas(row: Option<Row>, c: Schema, v: Option<Field>) {
    row.Some? && c.col < |row.value| && SameValue(row.value[c.col], v)
  }

  lemma ScanRefusesIff(l: Layout, c: Schema, v: Option<Field>)
    requires SchemaOK(c) && Distinct(l) && StoredOK(l, c)
    ensures ScanRefuses(l, c, v) <==> LiveValue(l, c, v)
  {
    hide Decode, Distinct, Lookup, Scan;
    if ScanRefuses(l, c, v) {
      var f :| f in Scan(l) && ShowsValue(c, f, v);
      ScanExact(l, f.0, f.1);
      assert RowHas(RowAt(l, c, f.0), c, v);
    }
    if r :| RowHas(RowAt(l, c, r), c, v) {
      var data := Lookup(l, r).value;
      ScanExact(l, r, data);
      assert ShowsValue(c, (r, data), v);
    }
  }

  /** For NULL they need not. In a column of truth values the index answers for false, so the checks agree on NULL
      exactly when some live row is false if and only if some live row is NULL. In any other column the index
      always refuses, so they agree exactly when some live row is NULL. */
  lemma NullChecksAgreeIff(db: Database, c: Schema, m: map<Key, RowId>)
    requires SchemaOK(c) && Good(db, c, m)
    ensures (IndexRefuses(db.index, c, None) <==> ScanRefuses(db.layout, c, None))
            <==> if c.types[c.col] == BOOLEAN
                 then (LiveValue(db.layout, c, Some(Bool(false))) <==> LiveValue(db.layout, c, None))
                 else LiveValue(db.layout, c, None)
  {
    hide Mirrors, Remembered, R.Balanced, ScanRefuses, LiveValue, B.Search, Distinct, StoredOK;
    ScanRefusesIff(db.layout, c, None);
    if c.types[c.col] == BOOLEAN {
      ScanRefusesIff(db.layout, c, Some(Bool(false)));
      ChecksAgree(db, c, m, Bool(false));
    }
  }

  /** Some live row has exactly this double in the indexed column. */
  ghost predicate LiveDouble(l: Layout, c: Schema, bits: Bytes)
    requires SchemaOK(c)
  {
    exists r :: HasDouble(RowAt(l, c, r), c, bits)
  }

  predicate HasDouble(row: Option<Row>, c: Schema, bits: Bytes) {
    row.Some? && c.col < |row.value| && row.value[c.col] == Some(Float(bits))
  }

  /** On -0.0 the two forms of the check disagree in both directions: beside 0.0, which it equals and whose key it has
      not, the scan alone refuses it; beside the number whose key it has, the index alone. */
  lemma NegativeZeroChecks(db: Database, c: Schema, m: map<Key, RowId>)
    requires SchemaOK(c) && Good(db, c, m) && c.types[c.col] == FLOAT
    ensures LiveDouble(db.layout, c, Zeros(8)) && !LiveKey(db.layout, c, EncodeFloat(NegativeZero)) ==>
              && ScanRefuses(db.layout, c, Some(Float(NegativeZero)))
              && !IndexRefuses(db.index, c, Some(Float(NegativeZero)))
    ensures LiveDouble(db.layout, c, LargeNegative) && !LiveValue(db.layout, c, Some(Float(NegativeZero))) ==>
              && !ScanRefuses(db.layout, c, Some(Float(NegativeZero)))
              && IndexRefuses(db.index, c, Some(Float(NegativeZero)))
  {
    hide R.Balanced, ScanRefuses, B.Search, Distinct, Mirrors, Remembered, EncodeFloat, Lookup, Decode;
    var l := db.layout;
    NegativeZeroCollides();
    SearchFindsLive(db, c, m, EncodeFloat(NegativeZero));
    ScanRefusesIff(l, c, Some(Float(NegativeZero)));
    if r :| HasDouble(RowAt(l, c, r), c, Zeros(8)) {
      assert RowHas(RowAt(l, c, r), c, Some(Float(NegativeZero)));
    }
    if r :| HasDouble(RowAt(l, c, r), c, LargeNegative) {
      assert Lookup(l, r).Some?;
      assert KeyAt(l, c, r) == Some(EncodeFloat(LargeNegative));
    }
  }

  /** After any run from an empty table in which no value comes twice and every entry fits: index and scan show the same
      pairs, and both forms of the check refuse the same values. */
  lemma RunAgrees(root: PageId, c: Schema, ss: seq<Statement>, db: Database, k: Key, r: RowId, v: Field)
    requires SchemaOK(c) && Leads(NewDatabase(root), c, ss, db) && FieldConforms(v, c.types[c.col])
    ensures R.Shaped(db.index) && R.Balanced(db.index, c.lim)
    ensures B.Has(db.index.tree, k, r) <==>
            exists data :: (r, data) in Scan(db.layout) && ShowsKey(c, data, k)
    ensures Keyed(db.layout, c, v) ==> (IndexRefuses(db.index, c, Some(v)) <==> ScanRefuses(db.layout, c, Some(v)))
  {
    hide Good, IndexRefuses, ScanRefuses, R.Balanced, R.Shaped, B.Has, NewDatabase, Leads, Keyed;
    NewGood(root, c);
    var m := RunKeeps(NewDatabase(root), c, map[], ss, db);
    GoodShaped(db, c, m);
    IndexShowsScan(db, c, m, k, r);
    if Keyed(db.layout, c, v) {
      ChecksAgree(db, c, m, v);
    }
  }

  lemma GoodShaped(db: Database, c: Schema, m: map<Key, RowId>)
    requires SchemaOK(c) && Good(db, c, m)
    ensures R.Shaped(db.index) && R.Balanced(db.index, c.lim)
  {
  }

  // ----- an entry that does not fit -----

  lemma ScanShows(l: Layout, c: Schema, row: Row, r: RowId)
    requires SchemaOK(c) && Distinct(l) && StoredOK(l, c) && RowAt(l, c, r) == Some(row)
    requires c.col < |row| && SameValue(row[c.col], row[c.col])
    ensures ScanRefuses(l, c, row[c.col])
  {
    hide Decode, EncodeKey, Distinct, Lookup, SameValue;
    var data := Lookup(l, r).value;
    ScanExact(l, r, data);
    assert ShowsValue(c, (r, data), row[c.col]);
  }

  /** When the leaf has no room for the entry of a new value, the row is in the table and not in the index: the
      scan shows it, search does not find it, and the two forms of the check disagree on its value. */
  lemma OverflowHidesRow(db: Database, c: Schema, m: map<Key, RowId>, row: Row, data: Bytes, spare: PageId)
    requires SchemaOK(c) && Good(db, c, m) && Conforms(row, c.types) && IsImage(data, row, c.types)
    requires T.FreshIn(db.layout, spare) && row[c.col].Some? && EncodeKey(row[c.col].value) !in db.used
    requires EntryOutcome(db, c, row, data, spare) == O.LeafFull
    ensures var db', k := StoreUnindexed(db, c, row, data, spare), EncodeKey(row[c.col].value);
            && R.Shaped(db'.index) && B.Search(db'.index.tree, k) == []
            && LiveKey(db'.layout, c, k)
            && !IndexRefuses(db'.index, c, row[c.col])
            && (SameValue(row[c.col], row[c.col]) ==> ScanRefuses(db'.layout, c, row[c.col]))
  {
    hide Decode, EncodeKey, Lookup, StoredOK, KeyAt, Distinct, O.OutcomeOf, O.PutEntry, R.Balanced, BI.Occurs;
    hide T.Insert, T.InsertedId, IsImage, B.Search, BI.Misplaces, SameValue, RowAt;
    var k, id := EncodeKey(row[c.col].value), T.InsertedId(db.layout, data, spare).value;
    InsertShows(db, c, row, data, spare);
    assert KeyAt(T.Insert(db.layout, data, spare), c, id) == Some(k);
    if SameValue(row[c.col], row[c.col]) {
      ScanShows(T.Insert(db.layout, data, spare), c, row, id);
    }
    assert k !in m && !BI.Occurs(db.index.tree, k);
    O.NeverMisplaced(db.index, k, c.lim);
    O.PutEntryMeaning(db.index, B.Entry(k, id), c.lim, k);
    SearchFindsLive(db, c, m, k);
  }

  // ----- columns of fixed width, with the limits computed for them -----

  function KeyTypeOf(t: ColumnType): NP.KeyType {
    match t
    case INTEGER => NP.INTEGER
    case FLOAT => NP.FLOAT
    case TEXT => NP.TEXT
    case BOOLEAN => NP.BOOLEAN
  }

  predicate FixedColumn(c: Schema)
    requires SchemaOK(c)
  {
    c.types[c.col] != TEXT && c.lim == NP.LimitsOf(KeyTypeOf(c.types[c.col]))
  }

  ghost predicate OneLeaf(db: Database, c: Schema)
    requires SchemaOK(c) && FixedColumn(c)
  {
    O.OneLeaf(db.index, KeyTypeOf(c.types[c.col]))
  }

  lemma KeyWidth(c: Schema, row: Row)
    requires SchemaOK(c) && FixedColumn(c) && Conforms(row, c.types) && row[c.col].Some?
    ensures KeyOf(c, row).Some? && |KeyOf(c, row).value| == NP.KeySize(KeyTypeOf(c.types[c.col]))
  {
  }

  /** The index on a column of INTEGER, FLOAT or BOOLEAN is one leaf. The entry of a new row goes in exactly while fewer
      rows with a value are live than the leaf has room for, 225 or 368; otherwise the leaf stays as it is. */
  lemma FixedColumnTakes(db: Database, c: Schema, m: map<Key, RowId>, row: Row, data: Bytes, spare: PageId)
    requires SchemaOK(c) && FixedColumn(c) && Good(db, c, m) && OneLeaf(db, c)
    requires Conforms(row, c.types) && row[c.col].Some? && T.InsertedId(db.layout, data, spare).Some?
    requires !(c.unique && IndexRefuses(db.index, c, row[c.col]))
    ensures EntryOutcome(db, c, row, data, spare) == O.Inserted <==> |m| < O.Capacity(KeyTypeOf(c.types[c.col]))
    ensures EntryOutcome(db, c, row, data, spare) != O.NodeFull
    ensures OneLeaf(Store(db, c, row, data, spare), c) || |m| >= O.Capacity(KeyTypeOf(c.types[c.col]))
    ensures |m| >= O.Capacity(KeyTypeOf(c.types[c.col])) ==> StoreUnindexed(db, c, row, data, spare).index == db.index
  {
    hide Good, EncodeKey, T.Insert, T.InsertedId, IndexRefuses, Conforms, NP.LimitsOf, O.Capacity, O.PutEntry;
    hide O.OutcomeOf, O.OneLeaf, R.Balanced, R.Represents, R.Apply;
    KeyWidth(c, row);
    var e := B.Entry(KeyOf(c, row).value, T.InsertedId(db.layout, data, spare).value);
    GoodIndex(db, c, m);
    LeafTakesIff(db.index, m, KeyTypeOf(c.types[c.col]), e);
  }

  lemma GoodIndex(db: Database, c: Schema, m: map<Key, RowId>)
    requires SchemaOK(c) && Good(db, c, m)
    ensures R.Shaped(db.index) && R.Balanced(db.index, c.lim) && R.Represents(db.index, m)
  {
  }

  lemma LeafTakesIff(x: R.Index, m: map<Key, RowId>, t: NP.KeyType, e: B.Entry)
    requires t != NP.TEXT && R.Shaped(x) && B.GoodLimits(NP.LimitsOf(t)) && O.OneLeaf(x, t)
    requires R.Balanced(x, NP.LimitsOf(t)) && R.Represents(x, m) && |e.key| == NP.KeySize(t)
    ensures O.OutcomeOf(x, e.key, NP.LimitsOf(t)) == if |m| < O.Capacity(t) then O.Inserted else O.LeafFull
    ensures |m| < O.Capacity(t) ==> O.OneLeaf(R.Apply(x, R.Ins(e), NP.LimitsOf(t)), t)
    ensures |m| >= O.Capacity(t) ==> O.PutEntry(x, e, NP.LimitsOf(t)) == x
  {
    hide NP.LimitsOf, O.Capacity, O.PutEntry, O.OutcomeOf, R.Apply;
    LeafOfMap(x, m, NP.LimitsOf(t));
    assert x == R.Index(B.Leaf(x.tree.entries), 0);
    O.LeafTakes(t, x.tree.entries, e);
    O.InsertIntoOneLeaf(x.tree.entries, e, t);
  }

  lemma LeafOfMap(x: R.Index, m: map<Key, RowId>, lim: B.Limits)
    requires R.Balanced(x, lim) && R.Represents(x, m) && x.tree.Leaf?
    ensures |x.tree.entries| == |m|
  {
    forall k, r
      ensures B.Entry(k, r) in x.tree.entries <==> k in m && m[k] == r
    {
      assert B.Has(x.tree, k, r) <==> k in m && m[k] == r;
    }
    O.LeafSizeOfMap(x.tree.entries, m);
  }

  /** Deleting keeps it one leaf. */
  lemma FixedColumnDelete(db: Database, c: Schema, id: RowId)
    requires SchemaOK(c) && FixedColumn(c) && R.Shaped(db.index) && OneLeaf(db, c)
    ensures OneLeaf(Delete(db, c, id), c)
  {
    var key := KeyAt(db.layout, c, id);
    if key.Some? {
      var e := B.Entry(key.value, id);
      hide NP.LimitsOf, O.Capacity, KeyAt, T.Delete;
      R.WithoutKeeps(db.index.tree.entries, e);
      var out := R.Without(db.index.tree.entries, e);
      assert forall i :: 0 <= i < |out| ==> out[i] in db.index.tree.entries;
    }
  }

  /** The ids of the rows that the scan shows with a value in the indexed column. */
  ghost function ValueIds(l: Layout, c: Schema): set<RowId>
    requires SchemaOK(c)
  {
    set f | f in Scan(l) && ShowsSome(c, f) :: f.0
  }

  ghost predicate ShowsSome(c: Schema, f: Found)
    requires SchemaOK(c)
  {
    var row := Decode(f.1, c.types);
    row.Some? && Conforms(row.value, c.types) && row.value[c.col].Some?
  }

  lemma ValueIdsExact(l: Layout, c: Schema, r: RowId)
    requires SchemaOK(c) && Distinct(l) && StoredOK(l, c)
    ensures r in ValueIds(l, c) <==> KeyAt(l, c, r).Some?
  {
    hide Decode, Distinct, Lookup, Scan, EncodeKey;
    if r in ValueIds(l, c) {
      var f :| f in Scan(l) && ShowsSome(c, f) && f.0 == r;
      ScanExact(l, f.0, f.1);
    }
    if KeyAt(l, c, r).Some? {
      var f := (r, Lookup(l, r).value);
      ScanExact(l, f.0, f.1);
      assert f in Scan(l) && ShowsSome(c, f);
    }
  }

  lemma {:induction false} InjectiveSize(m: map<Key, RowId>, ids: set<RowId>)
    requires forall j, k :: j in m && k in m && m[j] == m[k] ==> j == k
    requires forall r :: r in ids <==> exists k :: k in m && m[k] == r
    ensures |ids| == |m|
    decreases m.Keys
  {
    if m == map[] {
      assert ids == {};
    } else {
      var k :| k in m;
      var less := m - {k};
      forall r
        ensures r in ids - {m[k]} <==> exists j :: j in less && less[j] == r
      {
        if r in ids - {m[k]} {
          var j :| j in m && m[j] == r;
          assert j in less && less[j] == r;
        }
      }
      InjectiveSize(less, ids - {m[k]});
      assert less.Keys == m.Keys - {k};
    }
  }

  /** The map stands for as many rows as the scan shows with a value. */
  lemma LiveRows(db: Database, c: Schema, m: map<Key, RowId>)
    requires SchemaOK(c) && Good(db, c, m)
    ensures |ValueIds(db.layout, c)| == |m|
  {
    hide KeyAt, Distinct, StoredOK, Remembered, ValueIds;
    var l := db.layout;
    forall r
      ensures r in ValueIds(l, c) <==> exists k :: k in m && m[k] == r
    {
      ValueIdsExact(l, c, r);
      assert forall k :: (k in m && m[k] == r) <==> KeyAt(l, c, r) == Some(k);
      if KeyAt(l, c, r).Some? {
        assert KeyAt(l, c, r).value in m;
      }
    }
    forall j, k | j in m && k in m && m[j] == m[k]
      ensures j == k
    {
      assert KeyAt(l, c, m[j]) == Some(j) && KeyAt(l, c, m[k]) == Some(k);
    }
    InjectiveSize(m, ValueIds(l, c));
  }

  /** When a row with a value is inserted, fewer of them are live than the leaf has room for. */
  ghost predicate FewLive(db: Database, c: Schema, s: Statement)
    requires SchemaOK(c) && FixedColumn(c) && Enabled(db, c, s)
  {
    s.InsertRow? && s.row[c.col].Some? ==> |ValueIds(db.layout, c)| < O.Capacity(KeyTypeOf(c.types[c.col]))
  }

  /** A run on a column of fixed width in which no value is inserted twice and few rows are live. */
  ghost predicate FewLead(db: Database, c: Schema, ss: seq<Statement>, db': Database)
    requires SchemaOK(c) && FixedColumn(c)
    decreases |ss|
  {
    if ss == [] then db == db'
    else
      && Enabled(db, c, ss[0]) && NewKey(db, c, ss[0]) && FewLive(db, c, ss[0])
      && (Followed(db, c, ss[0]) ==> FewLead(Perform(db, c, ss[0]), c, ss[1..], db'))
  }

  /** With few live rows the entry fits, and the index stays one leaf. */
  lemma FewLiveFits(db: Database, c: Schema, m: map<Key, RowId>, s: Statement)
    requires SchemaOK(c) && FixedColumn(c) && Good(db, c, m) && OneLeaf(db, c)
    requires Enabled(db, c, s) && FewLive(db, c, s)
    ensures Indexed(db, c, s) && Followed(db, c, s) && OneLeaf(Perform(db, c, s), c)
  {
    hide Good, ValueIds, IndexRefuses, EncodeKey, O.OneLeaf, T.Insert, T.InsertedId, Conforms, O.Capacity, O.OutcomeOf;
    hide R.Apply, Delete, FixedColumn;
    match s
    case InsertRow(row, data, spare) =>
      if KeyAdded(db, c, row, data, spare) {
        LiveRows(db, c, m);
        FixedColumnTakes(db, c, m, row, data, spare);
      } else {
        NoKeyAdded(db, c, row, data, spare);
      }
    case DeleteRow(id) => FixedColumnDelete(db, c, id);
  }

  lemma NoKeyAdded(db: Database, c: Schema, row: Row, data: Bytes, spare: PageId)
    requires SchemaOK(c) && R.Shaped(db.index) && Conforms(row, c.types) && !KeyAdded(db, c, row, data, spare)
    ensures EntryOutcome(db, c, row, data, spare) == O.Inserted && Insert(db, c, row, data, spare).index == db.index
  {
  }

  ghost predicate KeyAdded(db: Database, c: Schema, row: Row, data: Bytes, spare: PageId)
    requires SchemaOK(c) && R.Shaped(db.index) && Conforms(row, c.types)
  {
    && row[c.col].Some? && T.InsertedId(db.layout, data, spare).Some?
    && !(c.unique && IndexRefuses(db.index, c, row[c.col]))
  }

  lemma {:induction false} FewLeads(db: Database, c: Schema, m: map<Key, RowId>, ss: seq<Statement>, db': Database)
    requires SchemaOK(c) && FixedColumn(c) && Good(db, c, m) && OneLeaf(db, c) && FewLead(db, c, ss, db')
    ensures Leads(db, c, ss, db')
    decreases |ss|
  {
    hide Good, Perform, NewKey, EntryOutcome, FewLive, OneLeaf, FixedColumn;
    if ss != [] {
      FewLiveFits(db, c, m, ss[0]);
      var m1 := StatementKeeps(db, c, m, ss[0]);
      FewLeads(Perform(db, c, ss[0]), c, m1, ss[1..], db');
    }
  }

  lemma NewOneLeaf(root: PageId, c: Schema)
    requires SchemaOK(c) && FixedColumn(c)
    ensures OneLeaf(NewDatabase(root), c)
  {
  }

  /** On an INTEGER, FLOAT or BOOLEAN column with its own limits: while at each insertion fewer rows with a value are
      live than the leaf holds, 225 or for BOOLEAN 368, and no value comes twice, every entry fits and RunAgrees
      applies. */
  lemma FixedRunAgrees(root: PageId, c: Schema, ss: seq<Statement>, db: Database, k: Key, r: RowId, v: Field)
    requires SchemaOK(c) && FixedColumn(c) && FewLead(NewDatabase(root), c, ss, db) && FieldConforms(v, c.types[c.col])
    ensures Leads(NewDatabase(root), c, ss, db) && R.Shaped(db.index)
    ensures B.Has(db.index.tree, k, r) <==>
            exists data :: (r, data) in Scan(db.layout) && ShowsKey(c, data, k)
    ensures Keyed(db.layout, c, v) ==> (IndexRefuses(db.index, c, Some(v)) <==> ScanRefuses(db.layout, c, Some(v)))
  {
    hide Good, FewLead, Leads, OneLeaf, FixedColumn, NewDatabase, B.Has, IndexRefuses, ScanRefuses, R.Shaped, Keyed;
    NewGood(root, c);
    NewOneLeaf(root, c);
    FewLeads(NewDatabase(root), c, map[], ss, db);
    RunAgrees(root, c, ss, db, k, r, v);
  }
}
