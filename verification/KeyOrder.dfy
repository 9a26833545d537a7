/** Byte strings compared as Python compares `bytes`: lexicographically. */
module KeyOrder {
  import opened ByteCodec

  type Key = Bytes

  predicate Less(a: Key, b: Key) {
    b != [] && (a == [] || a[0] < b[0] || (a[0] == b[0] && Less(a[1..], b[1..])))
  }

  /** After a common beginning the smaller string ends, or goes on with a byte that is not greater. */
  lemma {:induction false} LessMeans(a: Key, b: Key, k: nat)
    requires Less(a, b) && k <= |a| && k <= |b| && a[..k] == b[..k]
    ensures k < |b| && (k < |a| ==> a[k] <= b[k])
  {
    if k > 0 {
      assert a[0] == a[..k][0] == b[..k][0] == b[0];
      assert a[1..][..k - 1] == a[..k][1..] && b[1..][..k - 1] == b[..k][1..];
      LessMeans(a[1..], b[1..], k - 1);
    }
  }

  lemma {:induction false} LessIrreflexive(a: Key)
    ensures !Less(a, a)
  {
    if a != [] {
      LessIrreflexive(a[1..]);
    }
  }

  lemma {:induction false} LessTransitive(a: Key, b: Key, c: Key)
    requires Less(a, b) && Less(b, c)
    ensures Less(a, c)
  {
    if a != [] && a[0] == b[0] == c[0] {
      LessTransitive(a[1..], b[1..], c[1..]);
    }
  }

  lemma {:induction false} LessTotal(a: Key, b: Key)
    ensures Less(a, b) || a == b || Less(b, a)
  {
    if a != [] && b != [] && a[0] == b[0] {
      LessTotal(a[1..], b[1..]);
      assert a == [a[0]] + a[1..] && b == [b[0]] + b[1..];
    }
  }

  /** Less is a strict total order, in the form the solver instantiates on demand. */
  lemma StrictTotalOrder()
    ensures forall a :: !Less(a, a)
    ensures forall a, b :: Less(a, b) || a == b || Less(b, a)
    ensures forall a, b, c :: Less(a, b) && Less(b, c) ==> Less(a, c)
  {
    forall a ensures !Less(a, a) { LessIrreflexive(a); }
    forall a, b ensures Less(a, b) || a == b || Less(b, a) { LessTotal(a, b); }
    forall a, b, c | Less(a, b) && Less(b, c) ensures Less(a, c) { LessTransitive(a, b, c); }
  }

  ghost predicate Sorted(keys: seq<Key>) {
    forall i, j :: 0 <= i < j < |keys| ==> Less(keys[i], keys[j])
  }

  /** How many leading keys are not above k: where the scan of a node stops. */
  function Position(keys: seq<Key>, k: Key): (p: nat)
    ensures p <= |keys|
    ensures forall i :: 0 <= i < p ==> !Less(k, keys[i])
    ensures p < |keys| ==> Less(k, keys[p])
  {
    if keys == [] || Less(k, keys[0]) then 0 else 1 + Position(keys[1..], k)
  }

  /** In a sorted node the scan separates the keys at most k from those above. */
  lemma PositionSeparates(keys: seq<Key>, k: Key)
    requires Sorted(keys)
    ensures forall i :: 0 <= i < Position(keys, k) ==> keys[i] == k || Less(keys[i], k)
    ensures forall i :: Position(keys, k) <= i < |keys| ==> Less(k, keys[i])
  {
    hide Less;
    StrictTotalOrder();
  }
}
