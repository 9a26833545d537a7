/** A table as a chain of pages with numbered rows: what insertion, deletion, lookup and scan
    mean, and what holds over every run of them. */
module TableSpec {
  import opened Wrappers
  import opened ByteCodec
  import opened RowIds

  /** A page of the chain: its rows by slot number, freed slots empty, and the room it reports. */
  datatype DataPage = DataPage(id: PageId, rows: seq<Option<Bytes>>, free: nat)

  type Layout = seq<DataPage>

  type Found = (RowId, Bytes)

  ghost predicate Distinct(l: Layout) {
    forall i, j :: 0 <= i < j < |l| ==> l[i].id != l[j].id
  }

  /** What a row id denotes. */
  function Lookup(l: Layout, r: RowId): Option<Bytes> {
    if l == [] then None
    else if l[0].id == r.page then (if r.slot < |l[0].rows| then l[0].rows[r.slot] else None)
    else Lookup(l[1..], r)
  }

  /** The id was given to a row at some time. */
  ghost predicate Issued(l: Layout, r: RowId) {
    exists k :: 0 <= k < |l| && l[k].id == r.page && r.slot < |l[k].rows|
  }

  lemma {:induction false} LookupAt(l: Layout, k: nat, slot: nat)
    requires Distinct(l) && k < |l|
    ensures Lookup(l, RowId(l[k].id, slot)) == if slot < |l[k].rows| then l[k].rows[slot] else None
  {
    if k > 0 {
      assert l[1..][k - 1] == l[k];
      LookupAt(l[1..], k - 1, slot);
    }
  }

  lemma {:induction false} LookupAbsent(l: Layout, r: RowId)
    requires forall k :: 0 <= k < |l| ==> l[k].id != r.page
    ensures Lookup(l, r) == None
  {
    if l != [] {
      LookupAbsent(l[1..], r);
    }
  }

  // ----- scanning -----

  /** The live rows of the first n slots of a page, in slot order. */
  function ScanSlots(p: DataPage, n: nat): seq<Found>
    requires n <= |p.rows|
  {
    if n == 0 then []
    else ScanSlots(p, n - 1) + if p.rows[n - 1].Some? then [(RowId(p.id, n - 1), p.rows[n - 1].value)] else []
  }

  /** The live rows in the order of the chain. */
  function Scan(l: Layout): seq<Found> {
    if l == [] then [] else Scan(l[..|l| - 1]) + ScanSlots(l[|l| - 1], |l[|l| - 1].rows|)
  }

  lemma {:induction false} ScanSlotsExact(p: DataPage, n: nat, r: RowId, row: Bytes)
    requires n <= |p.rows|
    ensures (r, row) in ScanSlots(p, n) <==> r.page == p.id && r.slot < n && p.rows[r.slot] == Some(row)
  {
    if n > 0 {
      ScanSlotsExact(p, n - 1, r, row);
    }
  }

  /** The scan shows exactly what the row ids denote. */
  lemma {:induction false} ScanExact(l: Layout, r: RowId, row: Bytes)
    requires Distinct(l)
    ensures (r, row) in Scan(l) <==> Lookup(l, r) == Some(row)
  {
    if l != [] {
      var k := |l| - 1;
      ScanExact(l[..k], r, row);
      ScanSlotsExact(l[k], |l[k].rows|, r, row);
      if l[k].id == r.page {
        LookupAbsent(l[..k], r);
        LookupAt(l, k, r.slot);
      } else {
        LookupInit(l, r);
      }
    }
  }

  lemma {:induction false} LookupInit(l: Layout, r: RowId)
    requires l != [] && l[|l| - 1].id != r.page
    ensures Lookup(l[..|l| - 1], r) == Lookup(l, r)
  {
    var m := l[..|l| - 1];
    if |l| > 1 && l[0].id != r.page {
      assert l[1..][..|l| - 2] == m[1..];
      LookupInit(l[1..], r);
    }
  }

  /** Before in chain order, and on one page in slot order. */
  ghost predicate Before(l: Layout, r: RowId, s: RowId) {
    (exists i, j :: 0 <= i < j < |l| && l[i].id == r.page && l[j].id == s.page)
    || (r.page == s.page && r.slot < s.slot)
  }

  ghost predicate InOrder(l: Layout, rows: seq<Found>) {
    forall i, j :: 0 <= i < j < |rows| ==> Before(l, rows[i].0, rows[j].0)
  }

  lemma {:induction false} ScanSlotsInOrder(l: Layout, p: DataPage, n: nat)
    requires n <= |p.rows|
    ensures InOrder(l, ScanSlots(p, n))
  {
    if n > 0 {
      ScanSlotsInOrder(l, p, n - 1);
      var s := ScanSlots(p, n - 1);
      forall i | 0 <= i < |s|
        ensures Before(l, s[i].0, RowId(p.id, n - 1))
      {
        assert s[i] in s;
        ScanSlotsExact(p, n - 1, s[i].0, s[i].1);
      }
    }
  }

  /** The scan goes through the chain, and through each page by slot. */
  lemma {:induction false} ScanInOrder(l: Layout, n: nat)
    requires n <= |l|
    ensures InOrder(l, Scan(l[..n]))
    ensures forall f :: f in Scan(l[..n]) ==> exists k :: 0 <= k < n && l[k].id == f.0.page
  {
    if n > 0 {
      ScanInOrder(l, n - 1);
      assert l[..n][..n - 1] == l[..n - 1];
      var p, s := l[n - 1], Scan(l[..n - 1]);
      var t := ScanSlots(p, |p.rows|);
      ScanSlotsInOrder(l, p, |p.rows|);
      forall f | f in t
        ensures f.0.page == p.id
      {
        ScanSlotsExact(p, |p.rows|, f.0, f.1);
      }
      forall i, j | 0 <= i < |s| && 0 <= j < |t|
        ensures Before(l, s[i].0, t[j].0)
      {
        assert s[i] in s && t[j] in t;
      }
    }
  }

  /** No row id precedes itself, so the scan shows each one at most once. */
  lemma ScanOnce(l: Layout)
    requires Distinct(l)
    ensures forall i, j :: 0 <= i < j < |Scan(l)| ==> Scan(l)[i].0 != Scan(l)[j].0
  {
    assert l[..|l|] == l;
    ScanInOrder(l, |l|);
    forall r: RowId
      ensures !Before(l, r, r)
    {
    }
  }
}
