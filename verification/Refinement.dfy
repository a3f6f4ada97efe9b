/** Copy-on-write and demand paging refine eager copying. */
module Refinement {
  import opened Options
  import opened Address
  import opened Pte
  import opened UserAreas
  import opened Frames
  import opened CowMarks
  import opened Spaces
  import opened Worlds
  import opened WorldInvariant
  import opened Rights
  import opened EagerSystem

  // ---- When a view does not change ----

  /** Outside of `f` all frames hold what they held. */
  ghost predicate SameBut(p: Pool, p': Pool, f: Option<Frame>) {
    forall g: Frame :: SameFrame(p, p', f, g)
  }

  predicate SameFrame(p: Pool, p': Pool, f: Option<Frame>, g: Frame) {
    Some(g) != f ==> Content(p', g) == Content(p, g)
  }

  ghost predicate Uses(pt: map<nat, Entry>, f: Option<Frame>) {
    exists v: nat :: v in pt && Some(pt[v].frame) == f
  }

  /** Two spaces with the same areas whose mapped pages show the same. */
  ghost predicate SameShown(files: Files, sp: Space, p: Pool, sp': Space, p': Pool, v: nat)
    requires Wf(sp.areas)
  {
    sp'.areas == sp.areas && (PrivAt(sp.areas, v) ==> PageOf(files, sp', p', v) == PageOf(files, sp, p, v))
  }

  lemma SameView(files: Files, sp: Space, p: Pool, sp': Space, p': Pool)
    requires Wf(sp.areas) && forall v: nat :: SameShown(files, sp, p, sp', p', v)
    ensures sp'.areas == sp.areas && View(files, sp', p') == View(files, sp, p)
  {
    hide PageOf, RefOf, Lookup, PrivAt, ShareAt, Wf;
    assert SameShown(files, sp, p, sp', p', 0);
    forall v: nat | v < USER_VPNS && PrivAt(sp.areas, v)
      ensures PageOf(files, sp', p', v) == PageOf(files, sp, p, v)
    {
      assert SameShown(files, sp, p, sp', p', v);
    }
  }

  /** A change of one frame that the space does not map is not seen by it. */
  lemma OtherFrame(files: Files, sp: Space, p: Pool, p': Pool, f: Option<Frame>)
    requires Wf(sp.areas) && SameBut(p, p', f) && !Uses(sp.pt, f)
    ensures View(files, sp, p') == View(files, sp, p)
  {
    forall v: nat
      ensures SameShown(files, sp, p, sp, p', v)
    {
      if v in sp.pt {
        assert SameFrame(p, p', f, sp.pt[v].frame);
      }
    }
    SameView(files, sp, p, sp, p');
  }

  lemma OtherContents(p: Pool, p': Pool, f: Option<Frame>, frames: seq<Frame>)
    requires SameBut(p, p', f) && (f.Some? ==> f.value !in frames)
    ensures Contents(p', frames) == Contents(p, frames)
  {
    forall i | 0 <= i < |frames|
      ensures Content(p', frames[i]) == Content(p, frames[i])
    {
      assert SameFrame(p, p', f, frames[i]);
    }
  }

  /** Spaces other than `s`, and all segments, when one frame changes that none of them has. */
  lemma OthersSim(files: Files, w: World, e: Eager, s: nat, sp: Space, p': Pool, f: Option<Frame>, e': Eager)
    requires Sim(files, w, e) && SameBut(w.pool, p', f) && s in w.spaces
    requires forall s2: nat :: s2 in w.spaces && s2 != s ==> !Uses(w.spaces[s2].pt, f)
    requires forall id: nat :: id in w.shms && f.Some? ==> f.value !in w.shms[id].frames
    requires Wf(sp.areas) && e' == EWith(e, s, View(files, sp, p'))
    ensures Sim(files, With(w, s, sp, p'), e')
  {
    var w' := With(w, s, sp, p');
    forall s2: nat
      ensures SimSpace(files, w', e', s2)
    {
      assert SimSpace(files, w, e, s2);
      if s2 in w.spaces && s2 != s {
        OtherFrame(files, w.spaces[s2], w.pool, p', f);
      }
    }
    forall id: nat
      ensures SimShm(w', e', id)
    {
      assert SimShm(w, e, id);
      if id in w.shms {
        OtherContents(w.pool, p', f, w.shms[id].frames);
      }
    }
  }

  lemma FreeUnseen(w: World, f: Frame)
    requires Exact(w) && f in w.pool.free
    ensures forall s: nat :: s in w.spaces ==> !Uses(w.spaces[s].pt, Some(f))
    ensures forall id: nat :: id in w.shms ==> f !in w.shms[id].frames
  {
    forall s: nat | s in w.spaces
      ensures !Uses(w.spaces[s].pt, Some(f))
    {
      forall v: nat | v in w.spaces[s].pt
        ensures w.spaces[s].pt[v].frame != f
      {
        FreeUnowned(w, ByPte(s, v), f);
      }
    }
    forall id: nat | id in w.shms
      ensures f !in w.shms[id].frames
    {
      forall i | 0 <= i < |w.shms[id].frames|
        ensures w.shms[id].frames[i] != f
      {
        FreeUnowned(w, ByShm(id, i), f);
      }
    }
  }

  // ---- Page fault ----

  lemma FreshView(files: Files, w: World, s: nat, v: nat, got: Option<Frame>, tabs: set<Frame>)
    requires Inv0(w) && s in w.spaces && Wf(w.spaces[s].areas) && v !in w.spaces[s].pt && v < USER_VPNS
    requires Lookup(w.spaces[s].areas, v * PAGE_SIZE).Some? && (got.Some? ==> got.value in w.pool.free)
    ensures
      var cell := Lookup(w.spaces[s].areas, v * PAGE_SIZE).value;
      var r := FaultFresh(w.spaces[s], w.pool, v, cell.perm, Demand(files, cell.origin), got, tabs);
      && r.0.areas == w.spaces[s].areas && View(files, r.0, r.1) == View(files, w.spaces[s], w.pool)
      && SameBut(w.pool, r.1, got)
  {
    hide Exact, Separate, Exclusive, ShmOk, SpaceOk, View, Wf;
    var sp := w.spaces[s];
    var cell := Lookup(sp.areas, v * PAGE_SIZE).value;
    var r := FaultFresh(sp, w.pool, v, cell.perm, Demand(files, cell.origin), got, tabs);
    if got.Some? {
      FreeUnseen(w, got.value);
      forall u: nat
        ensures SameShown(files, sp, w.pool, r.0, r.1, u)
      {
        assert u in sp.pt ==> sp.pt[u].frame != got.value;
      }
      SameView(files, sp, w.pool, r.0, r.1);
    }
  }

  lemma CowView(files: Files, w: World, s: nat, v: nat, perm: Perm, got: Option<Frame>, tabs: set<Frame>)
    requires Inv0(w) && s in w.spaces && Wf(w.spaces[s].areas) && v in w.spaces[s].pt
    requires got.Some? ==> got.value in w.pool.free
    ensures
      var sp := w.spaces[s];
      var r := FaultCow(sp, w.pool, v, perm, got, tabs);
      && r.0.areas == sp.areas && View(files, r.0, r.1) == View(files, sp, w.pool)
      && SameBut(w.pool, r.1, got)
  {
    hide Exact, Separate, Exclusive, ShmOk, SpaceOk, View, Wf;
    var sp := w.spaces[s];
    var r := FaultCow(sp, w.pool, v, perm, got, tabs);
    if got.Some? {
      FreeUnseen(w, got.value);
    }
    forall u: nat
      ensures SameShown(files, sp, w.pool, r.0, r.1, u)
    {
      assert u in sp.pt && got.Some? ==> sp.pt[u].frame != got.value;
    }
    SameView(files, sp, w.pool, r.0, r.1);
  }

  /** A fault changes no view, its own space's included. */
  lemma FaultSim(files: Files, w: World, e: Eager, s: nat, v: nat, acc: Access, got: Option<Frame>, tabs: set<Frame>)
    requires Inv0(w) && Sim(files, w, e) && s in w.spaces && v < USER_VPNS && Wf(w.spaces[s].areas)
    requires got.Some? ==> got.value in w.pool.free
    ensures
      var r := FaultStep(w.spaces[s], w.pool, files, v, acc, got, tabs);
      Sim(files, With(w, s, r.0, r.1), e)
  {
    var sp := w.spaces[s];
    var r := FaultStep(sp, w.pool, files, v, acc, got, tabs);
    assert View(files, r.0, r.1) == View(files, sp, w.pool) && r.0.areas == sp.areas && SameBut(w.pool, r.1, got) by {
      hide Inv0, FaultFresh, FaultCow, Lookup, View;
      match Lookup(sp.areas, v * PAGE_SIZE)
      case None =>
      case Some(cell) =>
        if CanAccess(acc, cell.perm) {
          if v !in sp.pt {
            FreshView(files, w, s, v, got, tabs);
          } else if CowFault(sp, v, cell.perm) {
            CowView(files, w, s, v, cell.perm, got, tabs);
          }
        }
    }
    if got.Some? {
      FreeUnseen(w, got.value);
    }
    hide Inv0, FaultStep, View;
    assert SimSpace(files, w, e, s);
    assert EWith(e, s, View(files, r.0, r.1)) == e;
    OthersSim(files, w, e, s, r.0, r.1, got, e);
  }

  // ---- Stores ----

  lemma StoreUnseen(w: World, s: nat, v: nat)
    requires Inv0(w) && WritablePrivate(w, s, v)
    ensures
      var f := w.spaces[s].pt[v].frame;
      && (forall s2: nat :: s2 in w.spaces && s2 != s ==> !Uses(w.spaces[s2].pt, Some(f)))
      && (forall v2: nat :: v2 in w.spaces[s].pt && w.spaces[s].pt[v2].frame == f ==> v2 == v)
      && (forall id: nat :: id in w.shms ==> f !in w.shms[id].frames)
  {
    var f := w.spaces[s].pt[v].frame;
    forall s2: nat, v2: nat | s2 in w.spaces && v2 in w.spaces[s2].pt && w.spaces[s2].pt[v2].frame == f
      ensures s2 == s && v2 == v
    {
      ExclusiveAt(w, s, v, ByPte(s2, v2));
    }
    forall id: nat | id in w.shms
      ensures f !in w.shms[id].frames
    {
      forall i | 0 <= i < |w.shms[id].frames|
        ensures w.shms[id].frames[i] != f
      {
        if w.shms[id].frames[i] == f {
          ExclusiveAt(w, s, v, ByShm(id, i));
        }
      }
    }
  }

  lemma StoreView(files: Files, sp: Space, p: Pool, v: nat, data: Page)
    requires Wf(sp.areas) && PrivAt(sp.areas, v) && v in sp.pt && sp.pt[v].frame in p.mem
    requires forall v2: nat :: v2 in sp.pt && sp.pt[v2].frame == sp.pt[v].frame ==> v2 == v
    ensures
      var before := View(files, sp, p);
      v in before.priv &&
      View(files, sp, Filled(p, sp.pt[v].frame, data)) ==
        before.(priv := before.priv[v := before.priv[v].(data := data)])
  {
    hide Lookup, Wf;
    var p' := Filled(p, sp.pt[v].frame, data);
    forall u: nat | PrivAt(sp.areas, u)
      ensures PageOf(files, sp, p', u) == if u == v then PageOf(files, sp, p, v).(data := data) else PageOf(files, sp, p, u)
    {
    }
    hide PrivAt, PageOf, ShareAt, RefOf;
  }

  lemma PrivateMapped(w: World, s: nat, v: nat)
    requires Inv0(w) && s in w.spaces && v in w.spaces[s].pt && !InShare(v)
    ensures Wf(w.spaces[s].areas) && PrivAt(w.spaces[s].areas, v) && w.spaces[s].pt[v].frame in w.pool.mem
  {
    MappedOk(w, s, v);
    PoolIsOk(w);
    assert SpaceOk(w.spaces[s]);
    ShareSide(w.spaces[s].areas, v);
  }

  lemma SimAt(files: Files, w: World, e: Eager, s: nat)
    requires Sim(files, w, e) && s in w.spaces
    ensures s in e.spaces && Wf(w.spaces[s].areas) && e.spaces[s] == View(files, w.spaces[s], w.pool)
  {
    assert SimSpace(files, w, e, s);
  }

  lemma FilledSame(p: Pool, f: Frame, data: Page)
    ensures SameBut(p, Filled(p, f, data), Some(f))
  {
  }

  /** What a view says of the rights of a mapped page is what its entry allows. */
  lemma ViewRights(files: Files, w: World, s: nat, v: nat)
    requires Inv0(w) && s in w.spaces && v in w.spaces[s].pt && Wf(w.spaces[s].areas)
    ensures
      var x, flags := View(files, w.spaces[s], w.pool), w.spaces[s].pt[v].flags;
      && (v in x.priv ==> Allowed(x.priv[v].perm, flags, InShare(v)))
      && (v in x.shared ==> Allowed(x.shared[v].perm, flags, InShare(v)))
  {
    hide Exact, Separate, Exclusive, ShmOk, Wf, Lookup, Allowed, InShare;
    MappedRights(w, s, v);
    var m := w.spaces[s].areas;
    var k: nat :| HoldsPage(m, k, v) && Allowed(m[k].area.perm, w.spaces[s].pt[v].flags, InShare(v));
    LookupArea(m, v);
  }

  /** A private store is seen by the writer at that page and by nobody else. */
  lemma StorePrivate(files: Files, w: World, e: Eager, s: nat, v: nat, data: Page)
    requires Inv0(w) && Sim(files, w, e) && WritablePrivate(w, s, v)
    ensures Sim(files, w.(pool := Filled(w.pool, w.spaces[s].pt[v].frame, data)), EWrite(e, s, v, data))
  {
    hide Inv0, Wf, View, Sim, PrivAt, SameBut, Uses;
    var sp := w.spaces[s];
    var f := sp.pt[v].frame;
    var p' := Filled(w.pool, f, data);
    PrivateMapped(w, s, v);
    StoreUnseen(w, s, v);
    StoreView(files, sp, w.pool, v, data);
    ViewRights(files, w, s, v);
    SimAt(files, w, e, s);
    assert With(w, s, sp, p') == w.(pool := p');
    FilledSame(w.pool, f, data);
    OthersSim(files, w, e, s, sp, p', Some(f), EWrite(e, s, v, data));
  }

  /** A store to shared memory changes one page of its segment, for all who have it attached. */
  lemma StoreShared(files: Files, w: World, e: Eager, s: nat, v: nat, data: Page)
    requires Inv0(w) && Sim(files, w, e) && s in w.spaces && v in w.spaces[s].pt && InShare(v)
    requires w.spaces[s].pt[v].flags.w
    ensures Sim(files, w.(pool := Filled(w.pool, w.spaces[s].pt[v].frame, data)), EWrite(e, s, v, data))
  {
    var f := w.spaces[s].pt[v].frame;
    var p' := Filled(w.pool, f, data);
    var w' := w.(pool := p');
    var id, i := SharedPage(w, s, v);
    SharedRef(files, w, e, s, v, id, i);
    SimAt(files, w, e, s);
    ViewRights(files, w, s, v);
    var e' := EWrite(e, s, v, data);
    assert e' == e.(shms := e.shms[id := e.shms[id][i := data]]) by {
      assert SimShm(w, e, id);
    }
    hide Inv0, EWrite;
    forall s2: nat
      ensures SimSpace(files, w', e', s2)
    {
      assert SimSpace(files, w, e, s2);
      if s2 in w.spaces {
        ShmStoreView(files, w, s2, id, i, data);
      }
    }
    forall id': nat
      ensures SimShm(w', e', id')
    {
      assert SimShm(w, e, id');
      if id' in w.shms {
        ShmStoreContents(w, id, i, data, id');
      }
    }
  }

  /** The segment page that a page of the share segment maps. */
  lemma SharedPage(w: World, s: nat, v: nat) returns (id: nat, i: nat)
    requires Inv0(w) && s in w.spaces && v in w.spaces[s].pt && InShare(v)
    ensures id in w.shms && i < |w.shms[id].frames| && w.shms[id].frames[i] == w.spaces[s].pt[v].frame
    ensures Wf(w.spaces[s].areas) && Lookup(w.spaces[s].areas, v * PAGE_SIZE).Some?
    ensures Lookup(w.spaces[s].areas, v * PAGE_SIZE).value.origin == ShmAt(id, i * PAGE_SIZE)
    ensures v < USER_VPNS
  {
    MappedOk(w, s, v);
    var m := w.spaces[s].areas;
    assert SpaceOk(w.spaces[s]);
    var k := Get(m, v * PAGE_SIZE).value;
    ShareSide(m, v);
    id := m[k].area.kind.id;
    assert IsShmArea(w, s, k, id);
    WorldInvariant.ShmAt(w, s, k, id);
    AreaSide(m, k);
    i := v - VpnDown(k);
    assert Maps(w.spaces[s].pt, VpnDown(k) + i, w.shms[id].frames[i]);
  }

  lemma SharedRef(files: Files, w: World, e: Eager, s: nat, v: nat, id: nat, i: nat)
    requires Sim(files, w, e) && s in w.spaces && Wf(w.spaces[s].areas) && v < USER_VPNS
    requires Lookup(w.spaces[s].areas, v * PAGE_SIZE).Some?
    requires Lookup(w.spaces[s].areas, v * PAGE_SIZE).value.origin == ShmAt(id, i * PAGE_SIZE)
    ensures s in e.spaces && v !in e.spaces[s].priv && v in e.spaces[s].shared
    ensures e.spaces[s].shared[v].id == id && e.spaces[s].shared[v].i == i
  {
    assert SimSpace(files, w, e, s);
    hide Lookup, Wf;
  }

  /** Private pages never map a frame of a segment. */
  lemma ShmStoreView(files: Files, w: World, s: nat, id: nat, i: nat, data: Page)
    requires Inv0(w) && s in w.spaces && Wf(w.spaces[s].areas) && id in w.shms && i < |w.shms[id].frames|
    ensures View(files, w.spaces[s], Filled(w.pool, w.shms[id].frames[i], data)) == View(files, w.spaces[s], w.pool)
  {
    var sp, f := w.spaces[s], w.shms[id].frames[i];
    var p' := Filled(w.pool, f, data);
    assert SpaceOk(sp);
    forall v: nat
      ensures SameShown(files, sp, w.pool, sp, p', v)
    {
      if PrivAt(sp.areas, v) && v in sp.pt && sp.pt[v].frame == f {
        ShareSide(sp.areas, v);
        SeparateAt(w, ByPte(s, v), ByShm(id, i), f);
        assert false;
      }
    }
    hide Inv0, View;
    SameView(files, sp, w.pool, sp, p');
  }

  lemma ShmStoreContents(w: World, id: nat, i: nat, data: Page, id': nat)
    requires Inv0(w) && id in w.shms && i < |w.shms[id].frames| && id' in w.shms
    ensures
      var p' := Filled(w.pool, w.shms[id].frames[i], data);
      Contents(p', w.shms[id'].frames) ==
        if id' == id then Contents(w.pool, w.shms[id].frames)[i := data] else Contents(w.pool, w.shms[id'].frames)
  {
    var f := w.shms[id].frames[i];
    assert Owns(w, ByShm(id, i), f);
    OwnedInPool(w, ByShm(id, i), f);
    PoolIsOk(w);
    forall j | 0 <= j < |w.shms[id'].frames|
      ensures w.shms[id'].frames[j] == f ==> id' == id && j == i
    {
      if w.shms[id'].frames[j] == f {
        SeparateAt(w, ByShm(id', j), ByShm(id, i), f);
      }
    }
    hide Inv0;
  }

  // ---- Areas ----

  lemma SameMem(p: Pool, p': Pool)
    requires p'.mem == p.mem
    ensures SameBut(p, p', None)
  {
  }

  /** A page is there exactly when an area covers it. */
  lemma Present(files: Files, sp: Space, p: Pool, v: nat)
    requires Wf(sp.areas)
    ensures v in View(files, sp, p).priv <==> PrivAt(sp.areas, v)
    ensures v in View(files, sp, p).shared <==> ShareAt(sp.areas, v)
    ensures PrivAt(sp.areas, v) ==> View(files, sp, p).priv[v] == PageOf(files, sp, p, v)
    ensures ShareAt(sp.areas, v) ==> View(files, sp, p).shared[v] == RefOf(sp.areas, v)
  {
    hide Lookup, PageOf, RefOf;
  }

  /** Since areas begin at page boundaries, overlapping ranges share a page. */
  lemma TakenIsOverlap(files: Files, sp: Space, p: Pool, start: nat, end: nat)
    requires AreasOk(sp.areas) && Aligned(start) && start < end <= USER_END
    ensures Taken(View(files, sp, p), start, end) <==> Overlaps(sp.areas, start, end)
  {
    var m := sp.areas;
    if Overlaps(m, start, end) {
      var k :| k in m && k < end && start < m[k].end;
      AreaSide(m, k);
      var a := if start < k then k else start;
      assert Holds(m, k, a);
      var v := VpnDown(a);
      assert v * PAGE_SIZE == a && Lookup(m, a).Some?;
      Present(files, sp, p, v);
      assert PageIn(v, start, end);
    }
    if Taken(View(files, sp, p), start, end) {
      var v: nat :| PageIn(v, start, end) && (v in View(files, sp, p).priv || v in View(files, sp, p).shared);
      Present(files, sp, p, v);
      var k := Get(m, v * PAGE_SIZE).value;
      assert k in m && k < end && start < m[k].end;
    }
  }

  /** How a view is built from its cells; enough to show that two of them are equal. */
  lemma ViewIs(files: Files, sp: Space, p: Pool, x: ESpace)
    requires Wf(sp.areas) && forall v: nat :: CellIs(files, sp, p, x, v)
    ensures View(files, sp, p) == x
  {
    hide View, PrivAt, ShareAt, PageOf, RefOf, Wf;
    var y := View(files, sp, p);
    forall v: nat
      ensures v in y.priv <==> v in x.priv
      ensures v in y.shared <==> v in x.shared
      ensures v in y.priv ==> y.priv[v] == x.priv[v]
      ensures v in y.shared ==> y.shared[v] == x.shared[v]
    {
      assert CellIs(files, sp, p, x, v);
      Present(files, sp, p, v);
    }
    hide CellIs;
    assert y.priv.Keys == x.priv.Keys && y.shared.Keys == x.shared.Keys;
  }

  ghost predicate CellIs(files: Files, sp: Space, p: Pool, x: ESpace, v: nat)
    requires Wf(sp.areas)
  {
    && (v in x.priv <==> PrivAt(sp.areas, v))
    && (v in x.shared <==> ShareAt(sp.areas, v))
    && (PrivAt(sp.areas, v) ==> x.priv[v] == PageOf(files, sp, p, v))
    && (ShareAt(sp.areas, v) ==> x.shared[v] == RefOf(sp.areas, v))
  }

  lemma InsertCell(files: Files, sp: Space, p: Pool, start: nat, end: nat, area: Area, v: nat)
    requires Wf(sp.areas) && start < end && !area.kind.Shm? && !Overlaps(sp.areas, start, end)
    requires PteOk(sp, v)
    ensures
      var sp' := sp.(areas := sp.areas[start := Node(end, area)]);
      var x := View(files, sp, p);
      Wf(sp'.areas) && CellIs(files, sp', p, x.(priv := x.priv + NewPages(files, start, end, area)), v)
  {
    hide Wf, Lookup, View, Overlaps;
    assert Inserted(sp.areas, start, end, area).Some?;
    InsertedLookup(sp.areas, start, end, area, v * PAGE_SIZE);
    if start <= v * PAGE_SIZE < end {
      UncoveredFree(sp.areas, start, end, v * PAGE_SIZE);
    }
    Present(files, sp, p, v);
  }

  lemma InsertView(files: Files, sp: Space, p: Pool, start: nat, end: nat, area: Area)
    requires SpaceOk(sp) && start < end && !area.kind.Shm? && !Overlaps(sp.areas, start, end)
    ensures
      var sp' := sp.(areas := sp.areas[start := Node(end, area)]);
      var x := View(files, sp, p);
      Wf(sp'.areas) && View(files, sp', p) == x.(priv := x.priv + NewPages(files, start, end, area))
  {
    var sp' := sp.(areas := sp.areas[start := Node(end, area)]);
    var x := View(files, sp, p);
    assert Inserted(sp.areas, start, end, area).Some?;
    forall v: nat
      ensures CellIs(files, sp', p, x.(priv := x.priv + NewPages(files, start, end, area)), v)
    {
      assert PteOk(sp, v);
      InsertCell(files, sp, p, start, end, area, v);
    }
    hide View, CellIs, NewPages, Wf;
    ViewIs(files, sp', p, x.(priv := x.priv + NewPages(files, start, end, area)));
  }

  lemma InsertSim(files: Files, w: World, e: Eager, s: nat, start: nat, end: nat, area: Area)
    requires Inv0(w) && Sim(files, w, e) && Enabled(w, Insert(s, start, end, area))
    ensures Sim(files, Raw(w, files, Insert(s, start, end, area)), EStep(e, files, Insert(s, start, end, area)))
  {
    assert SpaceOk(w.spaces[s]) && AreasOk(w.spaces[s].areas);
    hide Inv0, SpaceOk, AreasOk, View, Sim, Taken, Overlaps, SameBut, Uses, NewPages;
    var sp := w.spaces[s];
    SimAt(files, w, e, s);
    TakenIsOverlap(files, sp, w.pool, start, end);
    if !Overlaps(sp.areas, start, end) {
      InsertView(files, sp, w.pool, start, end, area);
      OnlySpace(files, w, e, s, sp.(areas := sp.areas[start := Node(end, area)]), w.pool);
    }
  }

  /** One space changes, no frame does. */
  lemma OnlySpace(files: Files, w: World, e: Eager, s: nat, sp: Space, p': Pool)
    requires Sim(files, w, e) && s in w.spaces && Wf(sp.areas) && p'.mem == w.pool.mem
    ensures Sim(files, With(w, s, sp, p'), EWith(e, s, View(files, sp, p')))
  {
    SameMem(w.pool, p');
    hide Sim, View, SameBut;
    OthersSim(files, w, e, s, sp, p', None, EWith(e, s, View(files, sp, p')));
  }

  lemma GrowCell(files: Files, sp: Space, p: Pool, start: nat, newEnd: nat, v: nat)
    requires Wf(sp.areas) && start in sp.areas && sp.areas[start].area.kind.Anonymous? && Aligned(start)
    requires sp.areas[start].end < newEnd && Free(sp.areas, sp.areas[start].end, newEnd) && PteOk(sp, v)
    ensures
      var node := sp.areas[start];
      var sp' := sp.(areas := sp.areas[start := node.(end := newEnd)]);
      var x := View(files, sp, p);
      && Wf(sp'.areas)
      && CellIs(files, sp', p, x.(priv := NewPages(files, start, newEnd, node.area) + x.priv), v)
  {
    hide Wf, View;
    GrownLookup(sp.areas, start, newEnd, v * PAGE_SIZE);
    if start <= v * PAGE_SIZE < sp.areas[start].end {
      assert Holds(sp.areas, start, v * PAGE_SIZE);
    }
    Present(files, sp, p, v);
  }

  lemma GrowSim(files: Files, w: World, e: Eager, s: nat, start: nat, newEnd: nat)
    requires Inv0(w) && Sim(files, w, e) && Enabled(w, Grow(s, start, newEnd))
    ensures Sim(files, Raw(w, files, Grow(s, start, newEnd)), EStep(e, files, Grow(s, start, newEnd)))
  {
    var sp := w.spaces[s];
    var node := sp.areas[start];
    var sp' := sp.(areas := sp.areas[start := node.(end := newEnd)]);
    assert SpaceOk(sp);
    AreaSide(sp.areas, start);
    GrownLookup(sp.areas, start, newEnd, 0);
    var x := View(files, sp, w.pool);
    forall v: nat
      ensures CellIs(files, sp', w.pool, x.(priv := NewPages(files, start, newEnd, node.area) + x.priv), v)
    {
      assert PteOk(sp, v);
      GrowCell(files, sp, w.pool, start, newEnd, v);
    }
    HeapPage(files, sp, w.pool, start);
    hide Inv0, View, Sim, CellIs, NewPages, SpaceOk, Wf;
    SimAt(files, w, e, s);
    ViewIs(files, sp', w.pool, x.(priv := NewPages(files, start, newEnd, node.area) + x.priv));
    OnlySpace(files, w, e, s, sp', w.pool);
  }

  lemma HeapPage(files: Files, sp: Space, p: Pool, start: nat)
    requires AreasOk(sp.areas) && start in sp.areas && sp.areas[start].area.kind.Anonymous?
    ensures
      var x := View(files, sp, p);
      VpnDown(start) in x.priv && Area(Anonymous, x.priv[VpnDown(start)].perm) == sp.areas[start].area
  {
    AreaSide(sp.areas, start);
    assert Holds(sp.areas, start, start);
    assert VpnDown(start) * PAGE_SIZE == start;
    Present(files, sp, p, VpnDown(start));
  }

  // ---- Fork ----

  lemma MarkedView(files: Files, sp: Space, p: Pool, tables: set<Frame>, p': Pool)
    requires Wf(sp.areas) && p'.mem == p.mem
    ensures View(files, Space(sp.areas, Marked(sp.pt), tables), p') == View(files, sp, p)
  {
    var sp' := Space(sp.areas, Marked(sp.pt), tables);
    forall v: nat
      ensures SameShown(files, sp, p, sp', p', v)
    {
      hide Lookup;
    }
    hide View, SameShown;
    SameView(files, sp, p, sp', p');
  }

  /** At a fork the child gets a copy of every page the parent sees, and the parent sees no change. */
  lemma ForkSim(files: Files, w: World, e: Eager, s: nat, c: nat, tabs: set<Frame>)
    requires Inv0(w) && Sim(files, w, e) && s in w.spaces && c !in w.spaces
    ensures Sim(files, Forked(w, s, c, tabs), EWith(e, c, e.spaces[s]))
  {
    hide View, Marked, SameBut, Exact, Separate, Exclusive, ShmOk, SpaceOk, Contents;
    var w', e' := Forked(w, s, c, tabs), EWith(e, c, e.spaces[s]);
    SameMem(w.pool, w'.pool);
    assert SimSpace(files, w, e, s);
    MarkedView(files, w.spaces[s], w.pool, w.spaces[s].tables, w'.pool);
    MarkedView(files, w.spaces[s], w.pool, tabs, w'.pool);
    forall s2: nat
      ensures SimSpace(files, w', e', s2)
    {
      assert SimSpace(files, w, e, s2);
      if s2 in w.spaces && s2 != s {
        OtherFrame(files, w.spaces[s2], w.pool, w'.pool, None);
      }
    }
    forall id: nat
      ensures SimShm(w', e', id)
    {
      assert SimShm(w, e, id);
      if id in w.shms {
        OtherContents(w.pool, w'.pool, None, w.shms[id].frames);
      }
    }
  }

  // ---- Unmapping ----

  lemma CutCell(files: Files, sp: Space, p: Pool, p': Pool, start: nat, end: nat, v: nat)
    requires Wf(sp.areas) && start < end && NoShmCut(sp.areas, start, end) && p'.mem == p.mem
    requires Wf(Removed(sp.areas, start, end))
    ensures
      var pages := PagesIn(start, end);
      var sp' := Space(Removed(sp.areas, start, end), sp.pt - pages, sp.tables);
      var x := View(files, sp, p);
      CellIs(files, sp', p', ESpace(x.priv - pages, x.shared - pages), v)
  {
    hide Wf, Lookup, View, Removed;
    RemovedLookup(sp.areas, start, end, v * PAGE_SIZE);
    Present(files, sp, p, v);
    assert v in PagesIn(start, end) <==> PageIn(v, start, end);
  }

  lemma CutView(files: Files, sp: Space, p: Pool, p': Pool, start: nat, end: nat)
    requires Wf(sp.areas) && start < end && NoShmCut(sp.areas, start, end) && p'.mem == p.mem
    ensures
      var pages := PagesIn(start, end);
      var sp' := Space(Removed(sp.areas, start, end), sp.pt - pages, sp.tables);
      var x := View(files, sp, p);
      Wf(sp'.areas) && View(files, sp', p') == ESpace(x.priv - pages, x.shared - pages)
  {
    hide Wf, Lookup, View, Removed, CellIs, PagesIn;
    var pages := PagesIn(start, end);
    var sp' := Space(Removed(sp.areas, start, end), sp.pt - pages, sp.tables);
    var x := View(files, sp, p);
    RemovedWf(sp.areas, start, end);
    forall v: nat
      ensures CellIs(files, sp', p', ESpace(x.priv - pages, x.shared - pages), v)
    {
      CutCell(files, sp, p, p', start, end, v);
    }
    ViewIs(files, sp', p', ESpace(x.priv - pages, x.shared - pages));
  }

  lemma UnmapSim(files: Files, w: World, e: Eager, s: nat, start: nat, end: nat)
    requires Sim(files, w, e) && s in w.spaces && Wf(w.spaces[s].areas)
    requires start < end && NoShmCut(w.spaces[s].areas, start, end)
    ensures
      var r := UnmapStep(w.spaces[s], w.pool, start, end);
      s in e.spaces &&
      Sim(files, With(w, s, r.0, r.1),
          EWith(e, s, ESpace(e.spaces[s].priv - PagesIn(start, end), e.spaces[s].shared - PagesIn(start, end))))
  {
    hide Sim, View, Removed, Wf, PagesIn, NoShmCut;
    var r := UnmapStep(w.spaces[s], w.pool, start, end);
    SimAt(files, w, e, s);
    CutView(files, w.spaces[s], w.pool, r.1, start, end);
    OnlySpace(files, w, e, s, r.0, r.1);
  }

  /** The pages of one attachment are those of its area. */
  lemma DetachRefs(files: Files, w: World, s: nat, start: nat)
    requires Inv0(w) && s in w.spaces && start in w.spaces[s].areas && w.spaces[s].areas[start].area.kind.Shm?
    requires Wf(w.spaces[s].areas)
    ensures
      var x := View(files, w.spaces[s], w.pool);
      var pages := PagesIn(start, w.spaces[s].areas[start].end);
      && VpnDown(start) in x.shared
      && x.priv - pages == x.priv && x.shared - pages == OtherRefs(x.shared, VpnDown(start))
  {
    hide Inv0, View, PagesIn, SpaceOk, Wf;
    var sp := w.spaces[s];
    var x := View(files, sp, w.pool);
    var pages := PagesIn(start, sp.areas[start].end);
    SpaceAreas(w, s);
    AreaSide(sp.areas, start);
    var lo := VpnDown(start);
    assert lo * PAGE_SIZE == start && PageIn(lo, start, sp.areas[start].end) by {
      AreaNonEmpty(sp.areas, start);
    }
    DetachPage(files, sp, w.pool, start, lo);
    forall v: nat
      ensures v in x.shared ==> (v in pages <==> x.shared[v].id == x.shared[lo].id && v == lo + x.shared[v].i)
      ensures v in x.priv ==> v !in pages
    {
      DetachPage(files, sp, w.pool, start, v);
    }
  }

  lemma AreaNonEmpty(m: Areas, k: nat)
    requires Wf(m) && k in m
    ensures k < m[k].end
  {
  }

  lemma DetachPage(files: Files, sp: Space, p: Pool, start: nat, v: nat)
    requires AreasOk(sp.areas) && start in sp.areas && sp.areas[start].area.kind.Shm?
    ensures
      var x := View(files, sp, p);
      var inside := PageIn(v, start, sp.areas[start].end);
      && (v in PagesIn(start, sp.areas[start].end) <==> inside)
      && (inside ==> v in x.shared && x.shared[v].id == sp.areas[start].area.kind.id && v == VpnDown(start) + x.shared[v].i)
      && (v in x.shared && v == VpnDown(start) + x.shared[v].i ==> inside)
      && (v in x.priv ==> !inside)
  {
    AreaSide(sp.areas, start);
    var m := sp.areas;
    Present(files, sp, p, v);
    if PageIn(v, start, m[start].end) {
      assert Holds(m, start, v * PAGE_SIZE);
    } else if v in View(files, sp, p).shared {
      var k := Get(m, v * PAGE_SIZE).value;
      AreaSide(m, k);
    }
  }

  lemma DetachSim(files: Files, w: World, e: Eager, s: nat, start: nat)
    requires Inv0(w) && Sim(files, w, e) && Enabled(w, Detach(s, start))
    ensures Sim(files, Raw(w, files, Detach(s, start)), EStep(e, files, Detach(s, start)))
  {
    assert SpaceOk(w.spaces[s]);
    AreaSide(w.spaces[s].areas, start);
    hide Inv0, Sim, View, PagesIn, OtherRefs, UnmapStep, DetachStep, Wf;
    SimAt(files, w, e, s);
    DetachIsUnmap(w.spaces[s], w.pool, start);
    UnmapSim(files, w, e, s, start, w.spaces[s].areas[start].end);
    DetachRefs(files, w, s, start);
  }

  // ---- Attaching ----

  /** One page of a space that gains a shared area, given what the new tables show there. */
  lemma ShmCell(files: Files, sp: Space, p: Pool, sp': Space, p': Pool, start: nat, end: nat, id: nat, perm: Perm,
                v: nat)
    requires Wf(sp.areas) && Wf(sp'.areas) && Aligned(start) && start < end <= USER_END && p'.mem == p.mem
    requires Lookup(sp'.areas, v * PAGE_SIZE) ==
             if start <= v * PAGE_SIZE < end then Some(CellOf(Area(Shm(id), perm), v * PAGE_SIZE - start))
             else Lookup(sp.areas, v * PAGE_SIZE)
    requires start <= v * PAGE_SIZE < end ==> Lookup(sp.areas, v * PAGE_SIZE) == None
    requires !(start <= v * PAGE_SIZE < end) ==> (v in sp'.pt <==> v in sp.pt) && (v in sp.pt ==> sp'.pt[v] == sp.pt[v])
    ensures
      var x := View(files, sp, p);
      CellIs(files, sp', p', x.(shared := x.shared + NewRefs(start, end, id, perm)), v)
  {
    hide Wf, Lookup, View;
    Present(files, sp, p, v);
  }

  lemma AttachCell(files: Files, w: World, s: nat, id: nat, start: nat, perm: Perm, tabs: set<Frame>, v: nat)
    requires CanAttach(w, s, id, start, tabs) && |w.shms[id].frames| > 0
    requires Wf(w.spaces[s].areas) && Wf(Attaching(w, s, id, start, perm, tabs).spaces[s].areas)
    ensures
      var w' := Attaching(w, s, id, start, perm, tabs);
      var x := View(files, w.spaces[s], w.pool);
      var end := start + |w.shms[id].frames| * PAGE_SIZE;
      CellIs(files, w'.spaces[s], w'.pool, x.(shared := x.shared + NewRefs(start, end, id, perm)), v)
  {
    hide Inv0, Wf, View, NewRefs, CellIs, CellOf;
    var sp, w' := w.spaces[s], Attaching(w, s, id, start, perm, tabs);
    var end := start + |w.shms[id].frames| * PAGE_SIZE;
    InsertedLookup(sp.areas, start, end, Area(Shm(id), perm), v * PAGE_SIZE);
    if start <= v * PAGE_SIZE < end {
      UncoveredFree(sp.areas, start, end, v * PAGE_SIZE);
    }
    ShmCell(files, sp, w.pool, w'.spaces[s], w'.pool, start, end, id, perm, v);
  }

  lemma AttachSim(files: Files, w: World, e: Eager, s: nat, id: nat, start: nat, perm: Perm, tabs: set<Frame>)
    requires CanAttach(w, s, id, start, tabs) && Sim(files, w, e)
    ensures
      var end := start + |w.shms[id].frames| * PAGE_SIZE;
      s in e.spaces &&
      Sim(files, Attaching(w, s, id, start, perm, tabs),
          EWith(e, s, e.spaces[s].(shared := e.spaces[s].shared + NewRefs(start, end, id, perm))))
  {
    hide Inv0, View, Sim, NewRefs, AttachStep, Overlaps;
    SimAt(files, w, e, s);
    SegmentSize(w, id);
    AttachViewIs(files, w, s, id, start, perm, tabs);
    AttachOnly(files, w, e, s, id, start, perm, tabs);
  }

  lemma SegmentSize(w: World, id: nat)
    requires Inv0(w) && id in w.shms
    ensures |w.shms[id].frames| > 0
  {
  }

  lemma AttachTaken(files: Files, w: World, e: Eager, s: nat, id: nat, start: nat)
    requires Inv0(w) && Sim(files, w, e) && s in w.spaces && id in w.shms && Aligned(start)
    requires start + |w.shms[id].frames| * PAGE_SIZE <= SHARE_END
    ensures s in e.spaces && id in e.shms && |e.shms[id]| == |w.shms[id].frames|
    ensures
      var end := start + |w.shms[id].frames| * PAGE_SIZE;
      Taken(e.spaces[s], start, end) <==> Overlaps(w.spaces[s].areas, start, end)
  {
    assert SpaceOk(w.spaces[s]) && AreasOk(w.spaces[s].areas);
    assert SimShm(w, e, id);
    hide AreasOk, View, Taken, Overlaps;
    SegmentSize(w, id);
    SimAt(files, w, e, s);
    TakenIsOverlap(files, w.spaces[s], w.pool, start, start + |w.shms[id].frames| * PAGE_SIZE);
  }

  lemma AttachViewIs(files: Files, w: World, s: nat, id: nat, start: nat, perm: Perm, tabs: set<Frame>)
    requires CanAttach(w, s, id, start, tabs) && |w.shms[id].frames| > 0 && Wf(w.spaces[s].areas)
    ensures
      var w' := Attaching(w, s, id, start, perm, tabs);
      var x := View(files, w.spaces[s], w.pool);
      var end := start + |w.shms[id].frames| * PAGE_SIZE;
      && Wf(w'.spaces[s].areas)
      && View(files, w'.spaces[s], w'.pool) == x.(shared := x.shared + NewRefs(start, end, id, perm))
  {
    hide View, NewRefs, CellIs, Wf;
    AttachSpaceOk(w, s, id, start, perm, tabs);
    var w' := Attaching(w, s, id, start, perm, tabs);
    var x := View(files, w.spaces[s], w.pool);
    var end := start + |w.shms[id].frames| * PAGE_SIZE;
    forall v: nat
      ensures CellIs(files, w'.spaces[s], w'.pool, x.(shared := x.shared + NewRefs(start, end, id, perm)), v)
    {
      AttachCell(files, w, s, id, start, perm, tabs, v);
    }
    ViewIs(files, w'.spaces[s], w'.pool, x.(shared := x.shared + NewRefs(start, end, id, perm)));
  }

  lemma AttachOnly(files: Files, w: World, e: Eager, s: nat, id: nat, start: nat, perm: Perm, tabs: set<Frame>)
    requires Sim(files, w, e) && s in w.spaces && id in w.shms
    requires Wf(Attaching(w, s, id, start, perm, tabs).spaces[s].areas)
    ensures
      var w' := Attaching(w, s, id, start, perm, tabs);
      Sim(files, w', EWith(e, s, View(files, w'.spaces[s], w'.pool)))
  {
    hide Sim, View, Wf;
    var w' := Attaching(w, s, id, start, perm, tabs);
    OnlySpace(files, w, e, s, w'.spaces[s], w'.pool);
  }

  // ---- The rest, and all steps together ----

  predicate KeptSpace(w: World, e: Eager, w': World, e': Eager, s: nat) {
    s in w'.spaces ==>
      s in w.spaces && w'.spaces[s] == w.spaces[s] && s in e.spaces && s in e'.spaces && e'.spaces[s] == e.spaces[s]
  }

  ghost predicate KeptShm(w: World, e: Eager, w': World, e': Eager, id: nat) {
    id in w'.shms ==>
      && id in e'.shms
      && (|| e'.shms[id] == Contents(w.pool, w'.shms[id].frames)
          || (id in w.shms && id in e.shms && w'.shms[id].frames == w.shms[id].frames && e'.shms[id] == e.shms[id]))
  }

  lemma KeepSim(files: Files, w: World, e: Eager, w': World, e': Eager)
    requires Sim(files, w, e) && w'.pool.mem == w.pool.mem
    requires e'.spaces.Keys == w'.spaces.Keys
    requires forall s: nat :: KeptSpace(w, e, w', e', s)
    requires forall id: nat :: KeptShm(w, e, w', e', id)
    ensures Sim(files, w', e')
  {
    SameMem(w.pool, w'.pool);
    hide View, Contents, SameBut;
    forall s: nat
      ensures SimSpace(files, w', e', s)
    {
      assert SimSpace(files, w, e, s) && KeptSpace(w, e, w', e', s);
      if s in w'.spaces {
        OtherFrame(files, w.spaces[s], w.pool, w'.pool, None);
      }
    }
    forall id: nat
      ensures SimShm(w', e', id)
    {
      assert SimShm(w, e, id) && KeptShm(w, e, w', e', id);
      if id in w'.shms {
        OtherContents(w.pool, w'.pool, None, w'.shms[id].frames);
      }
    }
  }

  /** Spaces disappear, segments disappear or change their handles. */
  lemma LessSim(files: Files, w: World, e: Eager, w': World, e': Eager)
    requires Sim(files, w, e) && w'.pool.mem == w.pool.mem && e'.shms == e.shms
    requires e'.spaces.Keys == w'.spaces.Keys
    requires forall s: nat :: KeptSpace(w, e, w', e', s)
    requires forall id: nat :: id in w'.shms ==> id in w.shms && w'.shms[id].frames == w.shms[id].frames
    ensures Sim(files, w', e')
  {
    hide View, Contents;
    forall id: nat
      ensures KeptShm(w, e, w', e', id)
    {
      assert SimShm(w, e, id);
    }
    KeepSim(files, w, e, w', e');
  }

  lemma HandlesSim(files: Files, w: World, e: Eager, id: nat, n: nat)
    requires Sim(files, w, e) && id in w.shms
    ensures Sim(files, w.(shms := w.shms[id := w.shms[id].(handles := n)]), e)
  {
    hide View;
    LessSim(files, w, e, w.(shms := w.shms[id := w.shms[id].(handles := n)]), e);
  }

  lemma CreateSim(files: Files, w: World, e: Eager, id: nat, frames: seq<Frame>, pages: seq<Page>)
    requires Sim(files, w, e) && |pages| == |frames| && id !in w.shms
    requires forall i :: 0 <= i < |frames| ==> pages[i] == Content(w.pool, frames[i])
    ensures Sim(files, Created(w, id, frames), e.(shms := e.shms[id := pages]))
  {
    assert Contents(w.pool, frames) == pages;
    hide View, Contents;
    var w', e' := Created(w, id, frames), e.(shms := e.shms[id := pages]);
    forall id': nat
      ensures KeptShm(w, e, w', e', id')
    {
      assert SimShm(w, e, id');
    }
    KeepSim(files, w, e, w', e');
  }

  lemma DropSim(files: Files, w: World, e: Eager, s: nat)
    requires Sim(files, w, e) && s in w.spaces
    ensures Sim(files, Dropped(w, s), e.(spaces := e.spaces - {s}))
  {
    hide View;
    LessSim(files, w, e, Dropped(w, s), e.(spaces := e.spaces - {s}));
  }

  lemma ReapSim(files: Files, w: World, e: Eager)
    requires Sim(files, w, e)
    ensures Sim(files, Reap(w), e)
  {
    hide View, Held, UnheldFrames;
    LessSim(files, w, e, Reap(w), e);
  }

  lemma BornSim(files: Files, w: World, e: Eager, s: nat, root: Frame)
    requires Sim(files, w, e) && s !in w.spaces
    ensures Sim(files, Born(w, s, root), EWith(e, s, ESpace(map[], map[])))
  {
    var w', e' := Born(w, s, root), EWith(e, s, ESpace(map[], map[]));
    SameMem(w.pool, w'.pool);
    assert View(files, w'.spaces[s], w'.pool) == ESpace(map[], map[]);
    hide View, Contents, SameBut;
    forall s2: nat
      ensures SimSpace(files, w', e', s2)
    {
      assert SimSpace(files, w, e, s2);
      if s2 in w.spaces {
        OtherFrame(files, w.spaces[s2], w.pool, w'.pool, None);
      }
    }
    forall id: nat
      ensures SimShm(w', e', id)
    {
      assert SimShm(w, e, id);
      if id in w.shms {
        OtherContents(w.pool, w'.pool, None, w.shms[id].frames);
      }
    }
  }

  lemma SimKeys(files: Files, w: World, e: Eager)
    requires Sim(files, w, e)
    ensures e.spaces.Keys == w.spaces.Keys
  {
    hide View;
  }

  lemma RawSim(files: Files, w: World, e: Eager, l: Label)
    requires Inv0(w) && Sim(files, w, e) && Enabled(w, l)
    ensures Sim(files, Raw(w, files, l), EStep(e, files, l))
  {
    hide Inv0, View, FaultStep, UnmapStep, DetachStep, AttachStep, ForkStep, Contents, EWrite, DropRefs, Overlaps,
      Taken, Sim;
    SimKeys(files, w, e);
    match l {
      case NewSpace(s, root) => BornSim(files, w, e, s, root);
      case Insert(s, start, end, area) => InsertSim(files, w, e, s, start, end, area);
      case Grow(s, start, newEnd) => GrowSim(files, w, e, s, start, newEnd);
      case Fault(s, v, acc, got, tabs) =>
        SpaceFacts(w, s, v);
        FaultSim(files, w, e, s, v, acc, got, tabs);
      case Store(s, v, data) =>
        SimAt(files, w, e, s);
        if InShare(v) {
          StoreShared(files, w, e, s, v, data);
        } else {
          StorePrivate(files, w, e, s, v, data);
        }
      case Fork(s, c, tabs) =>
        SimAt(files, w, e, s);
        ForkSim(files, w, e, s, c, tabs);
      case Unmap(s, start, end) =>
        SpaceFacts(w, s, 0);
        UnmapSim(files, w, e, s, start, end);
      case ShmCreate(id, frames, pages) => CreateSim(files, w, e, id, frames, pages);
      case ShmRetain(id) => HandlesSim(files, w, e, id, w.shms[id].handles + 1);
      case ShmRelease(id) => HandlesSim(files, w, e, id, w.shms[id].handles - 1);
      case Attach(s, id, start, perm, tabs) =>
        AttachTaken(files, w, e, s, id, start);
        if !Overlaps(w.spaces[s].areas, start, start + |w.shms[id].frames| * PAGE_SIZE) {
          AttachSim(files, w, e, s, id, start, perm, tabs);
        }
      case Detach(s, start) => DetachSim(files, w, e, s, start);
      case Drop(s) => DropSim(files, w, e, s);
    }
  }

  /** One step of the lazy system is one step of the eager one. */
  lemma StepSim(files: Files, w: World, e: Eager, l: Label)
    requires Inv(w) && Sim(files, w, e) && Enabled(w, l)
    ensures Inv(Step(w, files, l)) && Sim(files, Step(w, files, l), EStep(e, files, l))
  {
    hide Inv0, Raw, Reap, Sim, EStep, Held;
    StepInv(w, files, l);
    RawSim(files, w, e, l);
    ReapSim(files, Raw(w, files, l), EStep(e, files, l));
  }

  // ---- Whole runs ----

  /**
   The labels lead from `w` to `w'`, each enabled where it is taken. `Inv0` is named only because
   `Enabled` is defined under it, and nothing is assumed of it: by `StepInv` it holds all along a run
   from boot.
   */
  ghost predicate Runs(files: Files, w: World, ls: seq<Label>, w': World)
    decreases |ls|
  {
    if ls == [] then w' == w
    else Inv0(w) ==> Enabled(w, ls[0]) && Runs(files, Step(w, files, ls[0]), ls[1..], w')
  }

  ghost function ERun(files: Files, e: Eager, ls: seq<Label>): Eager
    decreases |ls|
  {
    if ls == [] then e else ERun(files, EStep(e, files, ls[0]), ls[1..])
  }

  lemma {:induction false} RunSim(files: Files, w: World, e: Eager, ls: seq<Label>, w': World)
    requires Inv(w) && Sim(files, w, e) && Runs(files, w, ls, w')
    ensures Inv(w') && Sim(files, w', ERun(files, e, ls))
    decreases |ls|
  {
    hide Inv0, Sim, Enabled, Step, EStep, Held;
    if ls == [] {
    } else {
      StepSim(files, w, e, ls[0]);
      RunSim(files, Step(w, files, ls[0]), EStep(e, files, ls[0]), ls[1..], w');
    }
  }

  /** After boot: no space, no segment, every frame of the allocator free. */
  ghost predicate Boot(w: World) {
    && w.spaces == map[] && w.shms == map[] && PoolOk(w.pool) && w.pool.free == w.pool.count.Keys
  }

  lemma BootInv(w: World)
    requires Boot(w)
    ensures Inv(w)
  {
    forall f: Frame
      ensures CountRight(w, f)
    {
      OwnersAre(w, f);
      assert Owners(w, f) == {};
    }
    assert forall o: Owner, f: Frame :: !Owns(w, o, f);
  }

  /**
   Over every run from boot, each space shows exactly the pages, rights and contents that it has in
   the system that copies all pages at every fork.
   */
  lemma LazyRefinesEager(files: Files, w: World, ls: seq<Label>, w': World)
    requires Boot(w) && Runs(files, w, ls, w')
    ensures Inv(w')
    ensures
      var e := ERun(files, Eager(map[], map[]), ls);
      && e.spaces.Keys == w'.spaces.Keys
      && (forall s: nat :: s in w'.spaces ==>
            Wf(w'.spaces[s].areas) && e.spaces[s] == View(files, w'.spaces[s], w'.pool))
      && (forall id: nat :: id in w'.shms ==>
            id in e.shms && e.shms[id] == Contents(w'.pool, w'.shms[id].frames))
  {
    BootInv(w);
    var e0 := Eager(map[], map[]);
    assert Sim(files, w, e0);
    RunSim(files, w, e0, ls, w');
    hide Inv, View, Runs, ERun;
    var e := ERun(files, e0, ls);
    assert forall s: nat :: SimSpace(files, w', e, s);
    assert forall id: nat :: SimShm(w', e, id);
    forall s: nat | s in w'.spaces
      ensures Wf(w'.spaces[s].areas) && e.spaces[s] == View(files, w'.spaces[s], w'.pool)
    {
      assert SimSpace(files, w', e, s);
    }
    forall id: nat | id in w'.shms
      ensures id in e.shms && e.shms[id] == Contents(w'.pool, w'.shms[id].frames)
    {
      assert SimShm(w', e, id);
    }
  }

  /** The entry maps `data` with the rights that `perm` gives. */
  ghost predicate Presents(p: Pool, e: Entry, data: Page, perm: Perm, shared: bool) {
    Content(p, e.frame) == data && Allowed(perm, e.flags, shared)
  }

  /** What the eager system has at a mapped page of the lazy one. */
  ghost predicate EntryPresents(w: World, e: Eager, s: nat, v: nat)
    requires s in w.spaces && v in w.spaces[s].pt
  {
    s in e.spaces &&
    var x, entry := e.spaces[s], w.spaces[s].pt[v];
    if InShare(v) then
      && v in x.shared && x.shared[v].id in e.shms && x.shared[v].i < |e.shms[x.shared[v].id]|
      && Presents(w.pool, entry, e.shms[x.shared[v].id][x.shared[v].i], x.shared[v].perm, true)
    else v in x.priv && Presents(w.pool, entry, x.priv[v].data, x.priv[v].perm, false)
  }

  lemma PrivatePresents(files: Files, w: World, e: Eager, s: nat, v: nat)
    requires Inv0(w) && Sim(files, w, e) && s in w.spaces && v in w.spaces[s].pt && !InShare(v)
    ensures EntryPresents(w, e, s, v)
  {
    hide Inv0, Sim, Wf, Lookup, Allowed, InShare;
    PrivateMapped(w, s, v);
    SimAt(files, w, e, s);
    ViewRights(files, w, s, v);
  }

  lemma SharedPresents(files: Files, w: World, e: Eager, s: nat, v: nat)
    requires Inv0(w) && Sim(files, w, e) && s in w.spaces && v in w.spaces[s].pt && InShare(v)
    ensures EntryPresents(w, e, s, v)
  {
    hide Inv0, View, Wf, Lookup, Allowed, InShare;
    var id, i := SharedPage(w, s, v);
    SharedRef(files, w, e, s, v, id, i);
    SimAt(files, w, e, s);
    ViewRights(files, w, s, v);
    assert SimShm(w, e, id);
  }

  /**
   Over every run from boot, what the hardware finds through any entry of any page table is what the
   eager system has there: a private page with its own contents, or a page of a segment, and in either
   case the rights of its area and no others.
   */
  lemma EntriesPresent(files: Files, w: World, ls: seq<Label>, w': World, s: nat, v: nat)
    requires Boot(w) && Runs(files, w, ls, w') && s in w'.spaces && v in w'.spaces[s].pt
    ensures EntryPresents(w', ERun(files, Eager(map[], map[]), ls), s, v)
  {
    hide Runs, ERun, Inv0, View, Held, EntryPresents;
    BootInv(w);
    var e0 := Eager(map[], map[]);
    assert Sim(files, w, e0);
    RunSim(files, w, e0, ls, w');
    if InShare(v) {
      SharedPresents(files, w', ERun(files, e0, ls), s, v);
    } else {
      PrivatePresents(files, w', ERun(files, e0, ls), s, v);
    }
  }

  /** Once all spaces and all segments are gone, every frame is back in the allocator. */
  lemma AllReturned(w: World)
    requires Inv0(w) && w.spaces == map[] && w.shms == map[]
    ensures w.pool.free == w.pool.count.Keys
  {
    PoolIsOk(w);
    forall f | f in w.pool.count
      ensures f in w.pool.free
    {
      CountOf(w, f);
      OwnersAre(w, f);
      assert Owners(w, f) == {};
    }
  }
}
