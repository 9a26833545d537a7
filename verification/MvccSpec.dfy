/** Page versions as values: visibility to a snapshot and what garbage collection keeps. */
module MvccSpec {
  import opened Wrappers
  import opened ByteCodec

  type Txn = int

  datatype Version = Version(data: Bytes, created: Txn, deleted: Option<Txn>)

  /** A snapshot sees a version whose creator it lists and whose deleter it does not list. */
  predicate IsVisible(v: Version, snapshot: set<Txn>) {
    v.created in snapshot && !(v.deleted.Some? && v.deleted.value in snapshot)
  }

  /** The newest visible version of a chain, newest first. */
  function FirstVisible(chain: seq<Version>, snapshot: set<Txn>): Option<Bytes> {
    if chain == [] then None
    else if IsVisible(chain[0], snapshot) then Some(chain[0].data)
    else FirstVisible(chain[1..], snapshot)
  }

  /** What is seen is the first version whose creator is listed and whose deleter, if it has one, is
      not. */
  lemma {:induction false} FirstVisibleExact(chain: seq<Version>, snapshot: set<Txn>, data: Bytes)
    ensures FirstVisible(chain, snapshot) == Some(data) <==>
              exists k :: 0 <= k < |chain| && chain[k].data == data && chain[k].created in snapshot
                          && (chain[k].deleted.Some? ==> chain[k].deleted.value !in snapshot)
                          && forall i :: 0 <= i < k ==>
                               chain[i].created !in snapshot
                               || (chain[i].deleted.Some? && chain[i].deleted.value in snapshot)
  {
    if chain != [] {
      var rest := chain[1..];
      FirstVisibleExact(rest, snapshot, data);
      if !IsVisible(chain[0], snapshot) {
        if FirstVisible(rest, snapshot) == Some(data) {
          var k :| 0 <= k < |rest| && rest[k].data == data && rest[k].created in snapshot
                   && (rest[k].deleted.Some? ==> rest[k].deleted.value !in snapshot)
                   && forall i :: 0 <= i < k ==>
                        rest[i].created !in snapshot || (rest[i].deleted.Some? && rest[i].deleted.value in snapshot);
          assert chain[k + 1] == rest[k];
          assert forall i :: 1 <= i < k + 1 ==> chain[i] == rest[i - 1];
        }
        if k :| 0 <= k < |chain| && chain[k].data == data && chain[k].created in snapshot
                && (chain[k].deleted.Some? ==> chain[k].deleted.value !in snapshot)
                && forall i :: 0 <= i < k ==>
                     chain[i].created !in snapshot || (chain[i].deleted.Some? && chain[i].deleted.value in snapshot)
        {
          assert rest[k - 1] == chain[k];
          assert forall i :: 0 <= i < k - 1 ==> rest[i] == chain[i + 1];
        }
      } else {
        assert chain[0].created in snapshot;
      }
    }
  }

  lemma {:induction false} NothingVisible(chain: seq<Version>, snapshot: set<Txn>)
    ensures FirstVisible(chain, snapshot) == None <==>
              forall k :: 0 <= k < |chain| ==>
                chain[k].created !in snapshot || (chain[k].deleted.Some? && chain[k].deleted.value in snapshot)
  {
    if chain != [] {
      NothingVisible(chain[1..], snapshot);
      assert forall k :: 1 <= k < |chain| ==> chain[k] == chain[1..][k - 1];
    }
  }

  /** The chain after the newest version of a creator is marked as deleted. */
  function Marked(chain: seq<Version>, created: Txn, deleter: Txn): seq<Version> {
    if chain == [] then []
    else if chain[0].created == created then [chain[0].(deleted := Some(deleter))] + chain[1..]
    else [chain[0]] + Marked(chain[1..], created, deleter)
  }

  lemma {:induction false} MarkedAt(chain: seq<Version>, created: Txn, deleter: Txn, k: nat)
    requires k <= |chain| && forall i :: 0 <= i < k ==> chain[i].created != created
    requires k < |chain| ==> chain[k].created == created
    ensures Marked(chain, created, deleter)
            == if k < |chain| then chain[k := chain[k].(deleted := Some(deleter))] else chain
  {
    if k > 0 {
      assert forall i :: 0 <= i < k - 1 ==> chain[1..][i] == chain[i + 1];
      MarkedAt(chain[1..], created, deleter, k - 1);
    }
  }

  /** Marking hides nothing from a snapshot that does not list the deleter. */
  lemma {:induction false} MarkedSeen(chain: seq<Version>, created: Txn, deleter: Txn, snapshot: set<Txn>)
    requires deleter !in snapshot && forall v :: v in chain ==> v.deleted == None
    ensures FirstVisible(Marked(chain, created, deleter), snapshot) == FirstVisible(chain, snapshot)
  {
    if chain != [] {
      var m := Marked(chain, created, deleter);
      if chain[0].created != created {
        MarkedSeen(chain[1..], created, deleter, snapshot);
        assert m[0] == chain[0] && m[1..] == Marked(chain[1..], created, deleter);
      } else {
        assert m[0] == chain[0].(deleted := Some(deleter)) && m[1..] == chain[1..];
        assert chain[0] in chain;
      }
    }
  }

  /** A version that is not seen may as well not be there. */
  lemma {:induction false} HiddenDropped(chain: seq<Version>, k: nat, snapshot: set<Txn>)
    requires k < |chain| && !IsVisible(chain[k], snapshot)
    ensures FirstVisible(chain, snapshot) == FirstVisible(chain[..k] + chain[k + 1..], snapshot)
  {
    var d := chain[..k] + chain[k + 1..];
    if k == 0 {
      assert d == chain[1..];
    } else {
      HiddenDropped(chain[1..], k - 1, snapshot);
      assert d[0] == chain[0] && d[1..] == chain[1..][..k - 1] + chain[1..][k..];
    }
  }

  /** Marking hides the version from every snapshot that lists the deleter. */
  lemma MarkedHidden(chain: seq<Version>, created: Txn, deleter: Txn, k: nat, snapshot: set<Txn>)
    requires deleter in snapshot && k < |chain| && chain[k].created == created
    requires forall i :: 0 <= i < k ==> chain[i].created != created
    ensures FirstVisible(Marked(chain, created, deleter), snapshot)
            == FirstVisible(chain[..k] + chain[k + 1..], snapshot)
  {
    MarkedAt(chain, created, deleter, k);
    var m := Marked(chain, created, deleter);
    HiddenDropped(m, k, snapshot);
    assert m[..k] == chain[..k] && m[k + 1..] == chain[k + 1..];
  }

  /** Created by a transaction older than every active one. */
  predicate Collectable(v: Version, active: set<Txn>) {
    forall a :: a in active ==> v.created < a
  }

  ghost function Kept(chain: seq<Version>, active: set<Txn>): seq<Version> {
    if chain == [] then []
    else (if Collectable(chain[0], active) then [] else [chain[0]]) + Kept(chain[1..], active)
  }

  lemma KeptNothing(active: set<Txn>)
    ensures Kept([], active) == []
  {
  }

  lemma {:induction false} KeptAppend(chain: seq<Version>, v: Version, active: set<Txn>)
    ensures Kept(chain + [v], active) == Kept(chain, active) + if Collectable(v, active) then [] else [v]
  {
    var d := chain + [v];
    if chain == [] {
      assert d[1..] == [];
    } else {
      assert d[1..] == chain[1..] + [v];
      KeptAppend(chain[1..], v, active);
    }
  }

  /** Collection keeps the versions, marked or not, for whose creator some active transaction is as
      old or older, as often as they occur, and drops all others. */
  lemma {:induction false} KeptExact(chain: seq<Version>, active: set<Txn>, v: Version)
    ensures multiset(Kept(chain, active))[v]
            == if exists a :: a in active && a <= v.created then multiset(chain)[v] else 0
  {
    if chain != [] {
      KeptExact(chain[1..], active, v);
      assert chain == [chain[0]] + chain[1..];
    }
  }

  function Shifted(at: seq<nat>): (later: seq<nat>)
    ensures |later| == |at| && forall k :: 0 <= k < |at| ==> later[k] == at[k] + 1
  {
    seq(|at|, k requires 0 <= k < |at| => at[k] + 1)
  }

  /** And keeps them in their order. */
  lemma {:induction false} KeptInOrder(chain: seq<Version>, active: set<Txn>) returns (at: seq<nat>)
    ensures |at| == |Kept(chain, active)|
    ensures forall k :: 0 <= k < |at| ==> at[k] < |chain| && Kept(chain, active)[k] == chain[at[k]]
    ensures forall j, k :: 0 <= j < k < |at| ==> at[j] < at[k]
  {
    at := [];
    if chain != [] {
      hide Collectable;
      var rest := KeptInOrder(chain[1..], active);
      var later := Shifted(rest);
      forall k | 0 <= k < |rest|
        ensures later[k] < |chain| && Kept(chain[1..], active)[k] == chain[later[k]]
      {
        assert chain[later[k]] == chain[1..][rest[k]];
      }
      at := if Collectable(chain[0], active) then later else [0] + later;
    }
  }

  ghost function Without(vs: seq<Version>, k: nat): seq<Version> {
    if k < |vs| then vs[..k] + vs[k + 1..] else vs
  }

  /** Half way through a collection: the first j versions have been sifted. */
  ghost function Sifted(all: seq<Version>, j: nat, active: set<Txn>): (vs: seq<Version>)
    requires j <= |all|
    ensures |vs| == |Kept(all[..j], active)| + |all| - j
  {
    Kept(all[..j], active) + all[j..]
  }

  lemma SiftedAll(all: seq<Version>, active: set<Txn>)
    ensures Sifted(all, 0, active) == all && Kept(all[..0], active) == []
    ensures Sifted(all, |all|, active) == Kept(all, active)
  {
    assert all[..|all|] == all && all[..0] == [];
  }

  lemma SiftOne(all: seq<Version>, j: nat, active: set<Txn>)
    requires j < |all|
    ensures var k := |Kept(all[..j], active)|;
            && Sifted(all, j, active)[k] == all[j]
            && if Collectable(all[j], active)
               then |Kept(all[..j + 1], active)| == k
                    && Sifted(all, j + 1, active) == Without(Sifted(all, j, active), k)
               else |Kept(all[..j + 1], active)| == k + 1 && Sifted(all, j + 1, active) == Sifted(all, j, active)
  {
    assert all[..j + 1] == all[..j] + [all[j]];
    KeptAppend(all[..j], all[j], active);
  }

  /** The snapshot lists nobody older than all active transactions. */
  ghost predicate NotOlder(snapshot: set<Txn>, active: set<Txn>) {
    forall s :: s in snapshot ==> exists a :: a in active && a <= s
  }

  lemma {:induction false} CollectionInvisible(chain: seq<Version>, active: set<Txn>, snapshot: set<Txn>)
    requires NotOlder(snapshot, active)
    ensures FirstVisible(Kept(chain, active), snapshot) == FirstVisible(chain, snapshot)
  {
    if chain != [] {
      CollectionInvisible(chain[1..], active, snapshot);
      var k := Kept(chain, active);
      if !Collectable(chain[0], active) {
        assert k[0] == chain[0] && k[1..] == Kept(chain[1..], active);
      } else {
        assert k == Kept(chain[1..], active);
        assert !IsVisible(chain[0], snapshot);
      }
    }
  }

  /** Collection leaves every chain looking the same to a snapshot exactly when the snapshot
      lists nobody older than all active transactions. */
  lemma CollectionInvisibleIff(active: set<Txn>, snapshot: set<Txn>)
    ensures (forall chain :: FirstVisible(Kept(chain, active), snapshot) == FirstVisible(chain, snapshot))
            <==> NotOlder(snapshot, active)
  {
    if NotOlder(snapshot, active) {
      forall chain
        ensures FirstVisible(Kept(chain, active), snapshot) == FirstVisible(chain, snapshot)
      {
        CollectionInvisible(chain, active, snapshot);
      }
    } else {
      var s :| s in snapshot && forall a :: a in active ==> !(a <= s);
      var v := Version([], s, None);
      var chain := [v];
      assert Collectable(v, active) && Kept(chain, active) == [];
      assert FirstVisible(chain, snapshot) == Some([]);
      assert FirstVisible(Kept(chain, active), snapshot) == None;
    }
  }

  /** A version an active snapshot can see is collected: 2 began while 1 was active, so its
      snapshot lists 1; when 1 commits, collection against the active set {2} drops 1's
      version. */
  lemma CommitHidesVersion(data: Bytes)
    ensures var chain, snapshotOf2 := [Version(data, 1, None)], {1, 2};
            FirstVisible(chain, snapshotOf2) == Some(data) && FirstVisible(Kept(chain, {2}), snapshotOf2) == None
  {
    var chain := [Version(data, 1, None)];
    assert Collectable(chain[0], {2});
    assert Kept(chain, {2}) == [];
  }
}
