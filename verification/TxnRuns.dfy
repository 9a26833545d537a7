/** Interleaved transactions: what every run of begin, write, commit and rollback leaves in the base pages. The
    steps know no allocator; TxnManager proves when the code takes them, and TxnStore shows a run where it does not. */
module TxnRuns {
  import opened ByteCodec
  import opened TxnOverlay
  import opened RowIds

  /** The base pages, and what each active transaction has written. */
  datatype TxnState = TxnState(stored: Pages, writes: map<TxnId, Pages>)

  datatype Step = Begin(t: TxnId) | Write(t: TxnId, page: PageId, data: Bytes) | Commit(t: TxnId) | Rollback(t: TxnId)

  /** What transaction t reads: its own pages over the base. */
  function Reads(s: TxnState, t: TxnId): Pages
    requires t in s.writes
  {
    s.stored + s.writes[t]
  }

  predicate Enabled(s: TxnState, step: Step) {
    match step
    case Begin(t) => t !in s.writes
    case Write(t, p, _) => t in s.writes && p in s.stored
    case Commit(t) => t in s.writes
    case Rollback(t) => t in s.writes
  }

  /** A step that is refused changes nothing. */
  function Next(s: TxnState, step: Step): TxnState {
    if !Enabled(s, step) then s
    else
      match step
      case Begin(t) => s.(writes := s.writes[t := map[]])
      case Write(t, p, data) => s.(writes := s.writes[t := s.writes[t][p := data]])
      case Commit(t) => TxnState(s.stored + s.writes[t], s.writes - {t})
      case Rollback(t) => s.(writes := s.writes - {t})
  }

  function Execute(s: TxnState, steps: seq<Step>): TxnState {
    if steps == [] then s else Next(Execute(s, steps[..|steps| - 1]), steps[|steps| - 1])
  }

  // ----- a transaction that does not commit leaves no trace -----

  function Erase(steps: seq<Step>, t: TxnId): seq<Step> {
    if steps == [] then []
    else
      var k := |steps| - 1;
      Erase(steps[..k], t) + if steps[k].t == t then [] else [steps[k]]
  }

  ghost predicate NeverCommits(steps: seq<Step>, t: TxnId) {
    forall i :: 0 <= i < |steps| ==> steps[i] != Commit(t)
  }

  lemma ExecuteSnoc(s: TxnState, steps: seq<Step>, step: Step)
    ensures Execute(s, steps + [step]) == Next(Execute(s, steps), step)
  {
    assert (steps + [step])[..|steps|] == steps;
  }

  /** Steps of others do not depend on t. */
  lemma OtherStep(s: TxnState, step: Step, t: TxnId)
    requires step.t != t
    ensures Next(s.(writes := s.writes - {t}), step) == Next(s, step).(writes := Next(s, step).writes - {t})
  {
    var less := s.(writes := s.writes - {t});
    assert Enabled(less, step) <==> Enabled(s, step);
    assert (s.writes - {t}) - {step.t} == (s.writes - {step.t}) - {t};
  }

  /** Over every run, the base and what all others have written and read are as if a transaction that does not
      commit had never taken a step. */
  lemma {:induction false} NoTrace(s: TxnState, steps: seq<Step>, t: TxnId)
    requires t !in s.writes && NeverCommits(steps, t)
    ensures var a, b := Execute(s, steps), Execute(s, Erase(steps, t));
            b == a.(writes := a.writes - {t})
  {
    if steps == [] {
      assert s.writes - {t} == s.writes;
    } else {
      var k := |steps| - 1;
      NoTrace(s, steps[..k], t);
      var a := Execute(s, steps[..k]);
      hide Next;
      if steps[k].t == t {
        assert Erase(steps, t) == Erase(steps[..k], t);
        OwnStep(a, steps[k], t);
      } else {
        OtherStep(a, steps[k], t);
        ExecuteSnoc(s, Erase(steps[..k], t), steps[k]);
      }
    }
  }

  lemma OwnStep(s: TxnState, step: Step, t: TxnId)
    requires step.t == t && step != Commit(t)
    ensures Next(s, step).stored == s.stored && Next(s, step).writes - {t} == s.writes - {t}
  {
  }

  // ----- what the base holds -----

  /** What t has written since it last began. */
  function OwnWrites(steps: seq<Step>, t: TxnId): Pages {
    if steps == [] then map[]
    else
      var before := OwnWrites(steps[..|steps| - 1], t);
      match steps[|steps| - 1]
      case Begin(u) => if u == t then map[] else before
      case Write(u, p, data) => if u == t then before[p := data] else before
      case Commit(_) => before
      case Rollback(_) => before
  }

  /** The writes of the committed transactions, one transaction after the other in the order of the commits. */
  function Replay(stored: Pages, steps: seq<Step>): Pages {
    if steps == [] then stored
    else
      var k := |steps| - 1;
      var before := Replay(stored, steps[..k]);
      if steps[k].Commit? then before + OwnWrites(steps[..k], steps[k].t) else before
  }

  ghost predicate AllEnabled(s: TxnState, steps: seq<Step>) {
    forall i :: 0 <= i < |steps| ==> Enabled(Execute(s, steps[..i]), steps[i])
  }

  lemma AllEnabledSnoc(s: TxnState, steps: seq<Step>, step: Step)
    requires AllEnabled(s, steps) && Enabled(Execute(s, steps), step)
    ensures AllEnabled(s, steps + [step])
  {
    var steps' := steps + [step];
    forall i | 0 <= i < |steps'|
      ensures Enabled(Execute(s, steps'[..i]), steps'[i])
    {
      assert i < |steps| ==> steps'[..i] == steps[..i];
      assert i == |steps| ==> steps'[..i] == steps;
    }
  }

  /** Over every interleaving the base is what the committed transactions leave when they are played one after the
      other, and an active transaction reads its own writes over that. */
  lemma {:induction false} Serial(stored: Pages, steps: seq<Step>)
    requires AllEnabled(TxnState(stored, map[]), steps)
    ensures var s := Execute(TxnState(stored, map[]), steps);
            && s.stored == Replay(stored, steps) && s.stored.Keys == stored.Keys
            && forall t :: t in s.writes ==>
                 s.writes[t] == OwnWrites(steps, t) && s.writes[t].Keys <= stored.Keys
                 && Reads(s, t) == Replay(stored, steps) + OwnWrites(steps, t)
  {
    if steps != [] {
      var k := |steps| - 1;
      var s0 := TxnState(stored, map[]);
      assert AllEnabled(s0, steps[..k]) by {
        assert forall i :: 0 <= i < k ==> steps[..k][..i] == steps[..i];
      }
      Serial(stored, steps[..k]);
      assert Enabled(Execute(s0, steps[..k]), steps[k]);
    }
  }

  /** Steps of others do not show in what t has written. */
  lemma {:induction false} OwnNone(steps: seq<Step>, t: TxnId)
    requires forall i :: 0 <= i < |steps| && steps[i].Write? ==> steps[i].t != t
    ensures OwnWrites(steps, t) == map[]
  {
    if steps != [] {
      OwnNone(steps[..|steps| - 1], t);
    }
  }

  /** If nobody who writes commits, the base stays as it was. */
  lemma {:induction false} ReplayNone(stored: Pages, steps: seq<Step>)
    requires forall i, j :: 0 <= i < |steps| && 0 <= j < |steps| && steps[i].Commit? && steps[j].Write? ==>
               steps[i].t != steps[j].t
    ensures Replay(stored, steps) == stored
  {
    if steps != [] {
      var k := |steps| - 1;
      ReplayNone(stored, steps[..k]);
      if steps[k].Commit? {
        OwnNone(steps[..k], steps[k].t);
        assert stored + map[] == stored;
      }
    }
  }

  lemma {:induction false} EraseCat(a: seq<Step>, b: seq<Step>, t: TxnId)
    ensures Erase(a + b, t) == Erase(a, t) + Erase(b, t)
  {
    if b == [] {
      assert a + b == a;
    } else {
      var k := |b| - 1;
      assert (a + b)[..|a| + k] == a + b[..k];
      EraseCat(a, b[..k], t);
    }
  }

  /** Erasing t from its own steps leaves none, and from the steps of others all. */
  lemma {:induction false} EraseAll(steps: seq<Step>, t: TxnId)
    ensures (forall i :: 0 <= i < |steps| ==> steps[i].t == t) ==> Erase(steps, t) == []
    ensures (forall i :: 0 <= i < |steps| ==> steps[i].t != t) ==> Erase(steps, t) == steps
  {
    if steps != [] {
      EraseAll(steps[..|steps| - 1], t);
    }
  }

  // ----- the state that pages and shadow pages stand for -----

  ghost predicate Readable(pages: Pages, base: set<PageId>, shadows: Shadows) {
    forall p :: p in base ==> p in pages && (p in shadows ==> shadows[p] in pages)
  }

  /** The pages a transaction has shadows of, as it reads them. */
  ghost function OwnPages(pages: Pages, base: set<PageId>, shadows: Shadows): Pages
    requires Readable(pages, base, shadows)
  {
    map p | p in base && p in shadows :: Overlay(pages, shadows, base)[p]
  }

  lemma SoundReadable(pages: Pages, base: set<PageId>, active: map<TxnId, Shadows>, t: TxnId)
    requires Sound(pages, base, active) && t in active
    ensures Readable(pages, base, active[t]) && active[t].Keys <= base
  {
    forall p | p in active[t]
      ensures p in base && active[t][p] in pages
    {
      assert ShadowOK(pages, base, active[t], p);
    }
    hide ShadowOK, Apart;
  }

  lemma AllReadable(pages: Pages, base: set<PageId>, active: map<TxnId, Shadows>)
    requires Sound(pages, base, active)
    ensures forall t :: t in active ==> Readable(pages, base, active[t])
  {
    forall t | t in active
      ensures Readable(pages, base, active[t])
    {
      SoundReadable(pages, base, active, t);
    }
  }

  ghost function StateOf(pages: Pages, base: set<PageId>, active: map<TxnId, Shadows>): TxnState
    requires Sound(pages, base, active)
  {
    AllReadable(pages, base, active);
    TxnState(Base(pages, base), map t | t in active :: OwnPages(pages, base, active[t]))
  }

  /** A transaction reads its overlay. */
  lemma ReadsOverlay(pages: Pages, base: set<PageId>, active: map<TxnId, Shadows>, t: TxnId)
    requires Sound(pages, base, active) && t in active
    ensures Readable(pages, base, active[t])
    ensures t in StateOf(pages, base, active).writes
    ensures Reads(StateOf(pages, base, active), t) == Overlay(pages, active[t], base)
  {
    SoundReadable(pages, base, active, t);
    hide Sound;
  }

  /** Equal overlays of equal shadow tables show equal writes. */
  lemma SameOwn(pages: Pages, pages': Pages, base: set<PageId>, shadows: Shadows)
    requires Readable(pages, base, shadows) && Readable(pages', base, shadows)
    requires forall p :: p in base && p in shadows ==>
               Overlay(pages', shadows, base)[p] == Overlay(pages, shadows, base)[p]
    ensures OwnPages(pages', base, shadows) == OwnPages(pages, base, shadows)
  {
    var a, b := OwnPages(pages', base, shadows), OwnPages(pages, base, shadows);
    OwnAt(pages', base, shadows);
    OwnAt(pages, base, shadows);
    forall p | p in a
      ensures p in b && a[p] == b[p]
    {
      assert a[p] == Overlay(pages', shadows, base)[p];
    }
    assert a.Keys == b.Keys;
  }

  lemma OwnAt(pages: Pages, base: set<PageId>, shadows: Shadows)
    requires Readable(pages, base, shadows)
    ensures forall p :: p in OwnPages(pages, base, shadows) <==> p in base && p in shadows
    ensures forall p :: p in base && p in shadows ==>
              OwnPages(pages, base, shadows)[p] == Overlay(pages, shadows, base)[p]
  {
  }

  /** Pages that show the same base and the same overlays stand for the same state. */
  lemma SameState(pages: Pages, pages': Pages, base: set<PageId>, active: map<TxnId, Shadows>)
    requires Sound(pages, base, active) && Sound(pages', base, active)
    requires Base(pages', base) == Base(pages, base)
    requires forall u :: u in active ==> Overlay(pages', active[u], base) == Overlay(pages, active[u], base)
    ensures StateOf(pages', base, active) == StateOf(pages, base, active)
  {
    AllReadable(pages, base, active);
    AllReadable(pages', base, active);
    hide Sound, Overlay;
    forall u | u in active
      ensures OwnPages(pages', base, active[u]) == OwnPages(pages, base, active[u])
    {
      SameOwn(pages, pages', base, active[u]);
    }
    assert StateOf(pages', base, active).writes.Keys == StateOf(pages, base, active).writes.Keys;
  }

  /** One more page written. */
  lemma OwnWritten(pages: Pages, pages': Pages, base: set<PageId>, shadows: Shadows, shadows': Shadows,
                   p: PageId, data: Bytes)
    requires Readable(pages, base, shadows) && Readable(pages', base, shadows') && p in base
    requires shadows'.Keys == shadows.Keys + {p}
    requires Overlay(pages', shadows', base) == Overlay(pages, shadows, base)[p := data]
    ensures OwnPages(pages', base, shadows') == OwnPages(pages, base, shadows)[p := data]
  {
    OwnAt(pages, base, shadows);
    OwnAt(pages', base, shadows');
    var a, b := OwnPages(pages', base, shadows'), OwnPages(pages, base, shadows)[p := data];
    assert forall q :: q in shadows' <==> q in shadows || q == p;
    hide OwnPages, Readable, Overlay;
    assert forall q :: q in a <==> q in b;
    assert a.Keys == b.Keys;
  }

  /** A write shows in the state as the step. */
  lemma WriteStep(pages: Pages, base: set<PageId>, active: map<TxnId, Shadows>, pages': Pages,
                  active': map<TxnId, Shadows>, t: TxnId, p: PageId, data: Bytes)
    requires Sound(pages, base, active) && Sound(pages', base, active') && t in active && p in base
    requires active'.Keys == active.Keys && active'[t].Keys == active[t].Keys + {p}
    requires forall u :: u in active && u != t ==> active'[u] == active[u]
    requires Base(pages', base) == Base(pages, base)
    requires forall u :: u in active ==> Readable(pages, base, active[u]) && Readable(pages', base, active'[u])
    requires Overlay(pages', active'[t], base) == Overlay(pages, active[t], base)[p := data]
    requires forall u :: u in active && u != t ==> Overlay(pages', active'[u], base) == Overlay(pages, active[u], base)
    ensures StateOf(pages', base, active') == Next(StateOf(pages, base, active), Write(t, p, data))
  {
    var s, s' := StateOf(pages, base, active), StateOf(pages', base, active');
    hide Sound, Overlay;
    forall u | u in active && u != t
      ensures s'.writes[u] == s.writes[u]
    {
      SameOwn(pages, pages', base, active[u]);
    }
    OwnWritten(pages, pages', base, active[t], active'[t], p, data);
    hide OwnPages, Readable;
    assert s'.writes.Keys == s.writes.Keys;
  }

  lemma BeginStep(pages: Pages, base: set<PageId>, active: map<TxnId, Shadows>, t: TxnId)
    requires Sound(pages, base, active) && Sound(pages, base, active[t := map[]]) && t !in active
    ensures StateOf(pages, base, active[t := map[]]) == Next(StateOf(pages, base, active), Begin(t))
  {
    hide Sound, Overlay;
    assert StateOf(pages, base, active[t := map[]]).writes[t] == map[];
  }

  lemma CommitStep(pages: Pages, base: set<PageId>, active: map<TxnId, Shadows>, pages': Pages, t: TxnId)
    requires Sound(pages, base, active) && Sound(pages', base, active - {t}) && t in active
    requires forall u :: u in active ==> Readable(pages, base, active[u])
    requires forall u :: u in active - {t} ==> Readable(pages', base, active[u])
    requires Base(pages', base) == Overlay(pages, active[t], base)
    requires forall u :: u in active - {t} ==>
               Overlay(pages', active[u], base) == Rebased(pages, active[u], active[t], base)
    ensures StateOf(pages', base, active - {t}) == Next(StateOf(pages, base, active), Commit(t))
  {
    var s, s' := StateOf(pages, base, active), StateOf(pages', base, active - {t});
    ReadsOverlay(pages, base, active, t);
    hide Sound, Overlay;
    forall u | u in active - {t}
      ensures s'.writes[u] == s.writes[u]
    {
      SameOwn(pages, pages', base, active[u]);
    }
    assert s'.writes.Keys == s.writes.Keys - {t};
  }

  lemma RollbackStep(pages: Pages, base: set<PageId>, active: map<TxnId, Shadows>, pages': Pages, t: TxnId)
    requires Sound(pages, base, active) && Sound(pages', base, active - {t}) && t in active
    requires forall u :: u in active ==> Readable(pages, base, active[u])
    requires forall u :: u in active - {t} ==> Readable(pages', base, active[u])
    requires Base(pages', base) == Base(pages, base)
    requires forall u :: u in active - {t} ==> Overlay(pages', active[u], base) == Overlay(pages, active[u], base)
    ensures StateOf(pages', base, active - {t}) == Next(StateOf(pages, base, active), Rollback(t))
  {
    var s, s' := StateOf(pages, base, active), StateOf(pages', base, active - {t});
    hide Sound, Overlay;
    forall u | u in active - {t}
      ensures s'.writes[u] == s.writes[u]
    {
      SameOwn(pages, pages', base, active[u]);
    }
    assert s'.writes.Keys == s.writes.Keys - {t};
  }
}
