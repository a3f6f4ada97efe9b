/** Every step keeps the invariants of the world. */
module WorldInvariant {
  import opened Collections
  import opened Options
  import opened Address
  import opened Pte
  import opened UserAreas
  import opened Frames
  import opened CowMarks
  import opened Spaces
  import opened Worlds

  // ---- Consequences of the invariants ----

  lemma ShareSide(m: Areas, v: nat)
    requires AreasOk(m) && Lookup(m, v * PAGE_SIZE).Some?
    ensures InShare(v) <==> Lookup(m, v * PAGE_SIZE).value.origin.ShmAt?
  {
    var k := Get(m, v * PAGE_SIZE).value;
    assert RightSide(k, m[k]);
  }

  // The invariants at one point, for use where they are hidden.

  lemma CountOf(w: World, f: Frame)
    requires Exact(w) && f in w.pool.count
    ensures w.pool.count[f] == |Owners(w, f)| && (f in w.pool.free <==> w.pool.count[f] == 0)
  {
    assert CountRight(w, f);
  }

  lemma PoolIsOk(w: World)
    requires Exact(w)
    ensures PoolOk(w.pool)
  {
  }

  lemma OwnedInPool(w: World, o: Owner, f: Frame)
    requires Exact(w) && Owns(w, o, f)
    ensures f in w.pool.count && f !in w.pool.free
  {
    assert OwnedKnown(w, o, f);
    CountOf(w, f);
    OwnersAre(w, f);
  }

  lemma SeparateAt(w: World, a: Owner, b: Owner, f: Frame)
    requires Separate(w) && Owns(w, a, f) && Owns(w, b, f)
    ensures Fits(a, b)
  {
    assert SeparateFor(w, a, b, f);
  }

  lemma ExclusiveAt(w: World, s: nat, v: nat, o: Owner)
    requires Exclusive(w) && WritablePrivate(w, s, v) && Owns(w, o, w.spaces[s].pt[v].frame)
    ensures o == ByPte(s, v)
  {
    assert ExclusiveFor(w, s, v, o);
  }

  lemma FitsRefl(a: Owner)
    ensures Fits(a, a)
  {
  }

  lemma FreeUnowned(w: World, o: Owner, f: Frame)
    requires Exact(w) && f in w.pool.free
    ensures !Owns(w, o, f)
  {
    if Owns(w, o, f) {
      OwnedInPool(w, o, f);
    }
  }

  lemma SoleOwner(w: World, o: Owner, f: Frame)
    requires Exact(w) && Owns(w, o, f) && Count(w.pool, f) == 1
    ensures forall o' :: Owns(w, o', f) ==> o' == o
  {
    OwnersAre(w, f);
    CountOf(w, f);
    var os := Owners(w, f);
    hide Owners, Exact;
    assert |os - {o}| == 0;
    assert forall o' :: Owns(w, o', f) && o' != o ==> o' in os - {o};
  }

  lemma SoleCount(w: World, o: Owner, f: Frame)
    requires Exact(w) && Owns(w, o, f) && forall o' :: Owns(w, o', f) ==> o' == o
    ensures f in w.pool.count && w.pool.count[f] == 1
  {
    hide Owners, Exact, Owns;
    OwnersAre(w, f);
    OwnedInPool(w, o, f);
    CountOf(w, f);
    assert Owners(w, f) == {o};
  }

  /** So two spaces never both hold write access to one private frame. */
  lemma OneWriter(w: World, s: nat, v: nat, s': nat, v': nat)
    requires Inv0(w) && WritablePrivate(w, s, v) && WritablePrivate(w, s', v')
    requires w.spaces[s].pt[v].frame == w.spaces[s'].pt[v'].frame
    ensures s == s' && v == v' && Count(w.pool, w.spaces[s].pt[v].frame) == 1
  {
    var f := w.spaces[s].pt[v].frame;
    assert Owns(w, ByPte(s, v), f) && Owns(w, ByPte(s', v'), f);
    hide Owns, Exact, Separate, Exclusive, ShmOk, SpaceOk;
    ExclusiveAt(w, s, v, ByPte(s', v'));
    forall o | Owns(w, o, f)
      ensures o == ByPte(s, v)
    {
      ExclusiveAt(w, s, v, o);
    }
    SoleCount(w, ByPte(s, v), f);
  }

  // ---- A new entry for one page ----

  ghost function Given(w: World, s: nat, v: nat, e: Entry, tabs: set<Frame>, p: Pool): World
    requires s in w.spaces
  {
    With(w, s, Space(w.spaces[s].areas, w.spaces[s].pt[v := e], w.spaces[s].tables + tabs), p)
  }

  /** The counts after page `v` of space `s` has been given entry `e` and `tabs` became tables. */
  ghost predicate CountsAfter(w: World, s: nat, v: nat, e: Entry, tabs: set<Frame>, p: Pool)
    requires s in w.spaces
  {
    && PoolOk(p) && p.count.Keys == w.pool.count.Keys
    && forall f :: f in p.count ==>
         p.count[f] == w.pool.count[f] - Leaves(w.spaces[s].pt, v, e, f) + Joins(w.spaces[s].pt, v, e, f) +
                       (if f in tabs then 1 else 0)
  }

  function Leaves(pt: map<nat, Entry>, v: nat, e: Entry,
                  f: Frame): nat { if Maps(pt, v, f) && f != e.frame then 1 else 0 }
  function Joins(pt: map<nat, Entry>, v: nat, e: Entry,
                 f: Frame): nat { if f == e.frame && !Maps(pt, v, f) then 1 else 0 }

  /** The frame is the one page `v` has, or nobody's; the tables are nobody's. */
  ghost predicate FrameFits(w: World, s: nat, v: nat, f: Frame, tabs: set<Frame>)
    requires s in w.spaces
  {
    && tabs <= w.pool.free && f !in tabs
    && (Maps(w.spaces[s].pt, v, f) || f in w.pool.free)
  }

  lemma GivenOwns(w: World, s: nat, v: nat, e: Entry, tabs: set<Frame>, p: Pool, o: Owner, f: Frame)
    requires s in w.spaces
    ensures Owns(Given(w, s, v, e, tabs, p), o, f) ==
            if o == ByPte(s, v) then f == e.frame else Owns(w, o, f) || (o == ByTable(s) && f in tabs)
  {
  }

  lemma GivenCount(w: World, s: nat, v: nat, e: Entry, tabs: set<Frame>, p: Pool, f: Frame)
    requires Exact(w) && s in w.spaces && CountsAfter(w, s, v, e, tabs, p) && f in p.count
    requires FrameFits(w, s, v, e.frame, tabs)
    ensures p.count[f] == |Owners(Given(w, s, v, e, tabs, p), f)|
  {
    hide Exact, Owners;
    var w' := Given(w, s, v, e, tabs, p);
    var pt, pt' := w.spaces[s].pt, w.spaces[s].pt[v := e];
    CountOf(w, f);
    if f in tabs {
      FreeUnowned(w, ByTable(s), f);
    }
    SpaceDelta(w, s, w'.spaces[s], p, f);
    assert Lost(pt, pt', f) == if Maps(pt, v, f) && f != e.frame then {v} else {};
    assert Lost(pt', pt, f) == if f == e.frame && !Maps(pt, v, f) then {v} else {};
  }

  lemma GivenKnown(w: World, s: nat, v: nat, e: Entry, tabs: set<Frame>, p: Pool, o: Owner, f: Frame)
    requires Exact(w) && s in w.spaces && p.count.Keys == w.pool.count.Keys && FrameFits(w, s, v, e.frame, tabs)
    ensures OwnedKnown(Given(w, s, v, e, tabs, p), o, f)
  {
    PoolIsOk(w);
    GivenOwns(w, s, v, e, tabs, p, o, f);
    if Owns(w, o, f) {
      OwnedInPool(w, o, f);
    } else if Maps(w.spaces[s].pt, v, f) {
      OwnedInPool(w, ByPte(s, v), f);
    }
  }

  lemma GivenExact(w: World, s: nat, v: nat, e: Entry, tabs: set<Frame>, p: Pool)
    requires Exact(w) && s in w.spaces && CountsAfter(w, s, v, e, tabs, p)
    requires FrameFits(w, s, v, e.frame, tabs)
    ensures Exact(Given(w, s, v, e, tabs, p))
  {
    var w' := Given(w, s, v, e, tabs, p);
    forall f: Frame
      ensures CountRight(w', f)
    {
      if f in p.count {
        GivenCount(w, s, v, e, tabs, p, f);
      }
    }
    forall o: Owner, f: Frame
      ensures OwnedKnown(w', o, f)
    {
      GivenKnown(w, s, v, e, tabs, p, o, f);
    }
  }

  lemma GivenSeparateFor(w: World, s: nat, v: nat, e: Entry, tabs: set<Frame>, p: Pool, a: Owner, b: Owner, f: Frame)
    requires Exact(w) && Separate(w) && s in w.spaces && FrameFits(w, s, v, e.frame, tabs)
    ensures SeparateFor(Given(w, s, v, e, tabs, p), a, b, f)
  {
    assert Maps(w.spaces[s].pt, v, f) <==> Owns(w, ByPte(s, v), f);
    hide Exact, Separate, Given, Owns, Fits;
    GivenOwns(w, s, v, e, tabs, p, a, f);
    GivenOwns(w, s, v, e, tabs, p, b, f);
    FitsRefl(a);
    if f in w.pool.free {
      FreeUnowned(w, a, f);
      FreeUnowned(w, b, f);
    } else if Owns(w, a, f) && Owns(w, b, f) {
      SeparateAt(w, a, b, f);
    }
  }

  lemma GivenSeparate(w: World, s: nat, v: nat, e: Entry, tabs: set<Frame>, p: Pool)
    requires Exact(w) && Separate(w) && s in w.spaces && FrameFits(w, s, v, e.frame, tabs)
    ensures Separate(Given(w, s, v, e, tabs, p))
  {
    forall a: Owner, b: Owner, f: Frame
      ensures SeparateFor(Given(w, s, v, e, tabs, p), a, b, f)
    {
      GivenSeparateFor(w, s, v, e, tabs, p, a, b, f);
    }
  }

  lemma GivenExclusiveFor(w: World, s: nat, v: nat, e: Entry, tabs: set<Frame>, p: Pool, s2: nat, v2: nat, o: Owner)
    requires Exact(w) && Exclusive(w) && s in w.spaces
    requires FrameFits(w, s, v, e.frame, tabs)
    requires e.flags.w && !InShare(v) && Maps(w.spaces[s].pt, v, e.frame) ==>
               forall o :: Owns(w, o, e.frame) ==> o == ByPte(s, v)
    ensures ExclusiveFor(Given(w, s, v, e, tabs, p), s2, v2, o)
  {
    var w' := Given(w, s, v, e, tabs, p);
    if WritablePrivate(w', s2, v2) && Owns(w', o, w'.spaces[s2].pt[v2].frame) {
      var f := w'.spaces[s2].pt[v2].frame;
      assert Maps(w.spaces[s].pt, v, f) <==> Owns(w, ByPte(s, v), f);
      GivenOwns(w, s, v, e, tabs, p, o, f);
      if (s2, v2) != (s, v) {
        assert WritablePrivate(w, s2, v2) && w.spaces[s2].pt[v2].frame == f;
        assert Owns(w, ByPte(s2, v2), f);
        hide Exact, Exclusive, Given, Owns;
        OwnedInPool(w, ByPte(s2, v2), f);
        ExclusiveAt(w, s2, v2, o);
      } else if f in w.pool.free {
        hide Exact, Exclusive, Given, Owns;
        FreeUnowned(w, o, f);
      }
    }
  }

  lemma GivenExclusive(w: World, s: nat, v: nat, e: Entry, tabs: set<Frame>, p: Pool)
    requires Exact(w) && Exclusive(w) && s in w.spaces
    requires FrameFits(w, s, v, e.frame, tabs)
    requires e.flags.w && !InShare(v) && Maps(w.spaces[s].pt, v, e.frame) ==>
               forall o :: Owns(w, o, e.frame) ==> o == ByPte(s, v)
    ensures Exclusive(Given(w, s, v, e, tabs, p))
  {
    forall s2: nat, v2: nat, o: Owner
      ensures ExclusiveFor(Given(w, s, v, e, tabs, p), s2, v2, o)
    {
      GivenExclusiveFor(w, s, v, e, tabs, p, s2, v2, o);
    }
  }

  lemma GivenSpaces(w: World, s: nat, v: nat, e: Entry, tabs: set<Frame>, p: Pool)
    requires s in w.spaces && SpaceOk(w.spaces[s]) && v < USER_VPNS
    requires Lookup(w.spaces[s].areas, v * PAGE_SIZE).Some?
    requires e.flags == FlagsFor(Lookup(w.spaces[s].areas, v * PAGE_SIZE).value.perm)
    ensures SpaceOk(Given(w, s, v, e, tabs, p).spaces[s])
  {
    var sp, sp' := w.spaces[s], Given(w, s, v, e, tabs, p).spaces[s];
    hide AreasOk, Lookup;
    forall u: nat
      ensures PteOk(sp', u)
    {
      assert PteOk(sp, u);
    }
  }

  lemma ShmAt(w: World, s: nat, k: nat, id: nat)
    requires ShmOk(w) && IsShmArea(w, s, k, id)
    ensures Worlds.Attached(w, s, k, id) && |w.shms[id].frames| > 0
  {
    assert ShmAreaOk(w, s, k, id);
  }

  lemma AreaSide(m: Areas, k: nat)
    requires AreasOk(m) && k in m
    ensures k < m[k].end <= USER_END && Aligned(k) && RightSide(k, m[k])
  {
  }

  lemma GivenShm(w: World, s: nat, v: nat, e: Entry, tabs: set<Frame>, p: Pool)
    requires ShmOk(w) && s in w.spaces && SpaceOk(w.spaces[s]) && !InShare(v)
    ensures ShmOk(Given(w, s, v, e, tabs, p))
  {
    var w' := Given(w, s, v, e, tabs, p);
    forall s2: nat, k: nat, id: nat
      ensures ShmAreaOk(w', s2, k, id)
    {
      if IsShmArea(w', s2, k, id) {
        ShmAt(w, s2, k, id);
        if s2 == s {
          AreaSide(w.spaces[s].areas, k);
          forall i | 0 <= i < |w.shms[id].frames|
            ensures Maps(w'.spaces[s].pt, VpnDown(k) + i, w.shms[id].frames[i])
          {
            assert Maps(w.spaces[s].pt, VpnDown(k) + i, w.shms[id].frames[i]);
            assert InShare(VpnDown(k) + i);
          }
        }
      }
    }
  }

  lemma GivenInv(w: World, s: nat, v: nat, e: Entry, tabs: set<Frame>, p: Pool)
    requires Inv0(w) && s in w.spaces && v < USER_VPNS && CountsAfter(w, s, v, e, tabs, p)
    requires Lookup(w.spaces[s].areas, v * PAGE_SIZE).Some? && !InShare(v)
    requires e.flags == FlagsFor(Lookup(w.spaces[s].areas, v * PAGE_SIZE).value.perm)
    requires FrameFits(w, s, v, e.frame, tabs)
    requires Maps(w.spaces[s].pt, v, e.frame) ==> forall o :: Owns(w, o, e.frame) ==> o == ByPte(s, v)
    ensures Inv0(Given(w, s, v, e, tabs, p))
  {
    hide Exact, Separate, Exclusive, ShmOk, SpaceOk, Owns, CountsAfter, FrameFits;
    GivenExact(w, s, v, e, tabs, p);
    GivenSeparate(w, s, v, e, tabs, p);
    GivenExclusive(w, s, v, e, tabs, p);
    GivenSpaces(w, s, v, e, tabs, p);
    GivenShm(w, s, v, e, tabs, p);
  }

  // ---- Page fault ----

  lemma MappedOk(w: World, s: nat, v: nat)
    requires Inv0(w) && s in w.spaces && v in w.spaces[s].pt
    ensures v < USER_VPNS && Lookup(w.spaces[s].areas, v * PAGE_SIZE).Some?
    ensures
      var perm := Lookup(w.spaces[s].areas, v * PAGE_SIZE).value.perm;
      var flags := w.spaces[s].pt[v].flags;
      && (flags == FlagsFor(perm) || (!InShare(v) && flags == CowFlags(perm)))
      && (CowFault(w.spaces[s], v, perm) <==> flags == CowFlags(perm) && perm.write)
    ensures w.spaces[s].pt[v].frame in w.pool.count && w.spaces[s].pt[v].frame !in w.pool.free
    ensures w.pool.count[w.spaces[s].pt[v].frame] > 0
  {
    assert PteOk(w.spaces[s], v);
    OwnedInPool(w, ByPte(s, v), w.spaces[s].pt[v].frame);
    CountOf(w, w.spaces[s].pt[v].frame);
  }

  /** A page of the share segment is always mapped, so it is never faulted in. */
  lemma SharePageMapped(w: World, s: nat, v: nat)
    requires Inv0(w) && s in w.spaces && InShare(v) && Lookup(w.spaces[s].areas, v * PAGE_SIZE).Some?
    ensures v in w.spaces[s].pt
  {
    var m := w.spaces[s].areas;
    ShareSide(m, v);
    var k := Get(m, v * PAGE_SIZE).value;
    var id := m[k].area.kind.id;
    assert IsShmArea(w, s, k, id);
    hide Exact, Separate, Exclusive;
    ShmAt(w, s, k, id);
    AreaSide(m, k);
    assert Maps(w.spaces[s].pt, VpnDown(k) + (v - VpnDown(k)), w.shms[id].frames[v - VpnDown(k)]);
  }

  lemma FreshCounts(w: World, s: nat, v: nat, f: Frame, flags: Flags, data: Page, tabs: set<Frame>)
    requires PoolOk(w.pool) && s in w.spaces && v !in w.spaces[s].pt
    requires f in w.pool.free && tabs <= w.pool.free && f !in tabs
    ensures CountsAfter(w, s, v, Entry(f, flags), tabs, AllocAll(Filled(Alloc(w.pool, f), f, data), tabs))
  {
  }

  lemma CopyCounts(w: World, s: nat, v: nat, f: Frame, flags: Flags, data: Page, tabs: set<Frame>)
    requires PoolOk(w.pool) && s in w.spaces && v in w.spaces[s].pt && Count(w.pool, w.spaces[s].pt[v].frame) > 1
    requires f in w.pool.free && tabs <= w.pool.free && f !in tabs
    ensures CountsAfter(w, s, v, Entry(f, flags), tabs,
                        AllocAll(Filled(Alloc(Decrease(w.pool, w.spaces[s].pt[v].frame), f), f, data), tabs))
  {
  }

  lemma InPlaceCounts(w: World, s: nat, v: nat, flags: Flags, tabs: set<Frame>)
    requires PoolOk(w.pool) && s in w.spaces && v in w.spaces[s].pt && tabs <= w.pool.free
    ensures CountsAfter(w, s, v, Entry(w.spaces[s].pt[v].frame, flags), tabs, AllocAll(w.pool, tabs))
  {
  }

  lemma FreshInv(w: World, s: nat, v: nat, perm: Perm, data: Page, got: Option<Frame>, tabs: set<Frame>)
    requires Inv0(w) && s in w.spaces && v !in w.spaces[s].pt && v < USER_VPNS
    requires Lookup(w.spaces[s].areas, v * PAGE_SIZE).Some?
    requires perm == Lookup(w.spaces[s].areas, v * PAGE_SIZE).value.perm
    requires tabs <= w.pool.free && (got.Some? ==> got.value in w.pool.free && got.value !in tabs)
    ensures
      var r := FaultFresh(w.spaces[s], w.pool, v, perm, data, got, tabs);
      Inv0(With(w, s, r.0, r.1))
  {
    hide Exact, Separate, Exclusive, ShmOk, SpaceOk, Wf, Owns, CountsAfter, Lookup;
    PoolIsOk(w);
    if got.Some? {
      if InShare(v) { SharePageMapped(w, s, v); }
      FreshCounts(w, s, v, got.value, FlagsFor(perm), data, tabs);
      GivenInv(w, s, v, Entry(got.value, FlagsFor(perm)), tabs,
               AllocAll(Filled(Alloc(w.pool, got.value), got.value, data), tabs));
    } else {
      assert With(w, s, w.spaces[s], w.pool) == w;
    }
  }

  lemma CowInv(w: World, s: nat, v: nat, perm: Perm, got: Option<Frame>, tabs: set<Frame>)
    requires Inv0(w) && s in w.spaces && v in w.spaces[s].pt && CowFault(w.spaces[s], v, perm)
    requires Lookup(w.spaces[s].areas, v * PAGE_SIZE).Some?
    requires perm == Lookup(w.spaces[s].areas, v * PAGE_SIZE).value.perm
    requires tabs <= w.pool.free && (got.Some? ==> got.value in w.pool.free && got.value !in tabs)
    requires Count(w.pool, w.spaces[s].pt[v].frame) > 1 ==> got.Some?
    ensures
      var r := FaultCow(w.spaces[s], w.pool, v, perm, got, tabs);
      Inv0(With(w, s, r.0, r.1))
  {
    hide Exact, Separate, Exclusive, ShmOk, SpaceOk, Wf, Owns, CountsAfter, Lookup;
    PoolIsOk(w);
    var sp := w.spaces[s];
    var frame := sp.pt[v].frame;
    MappedOk(w, s, v);
    OwnsPte(w, s, v);
    if Count(w.pool, frame) <= 1 {
      InPlaceCounts(w, s, v, FlagsFor(perm), tabs);
      SoleOwner(w, ByPte(s, v), frame);
      GivenInv(w, s, v, Entry(frame, FlagsFor(perm)), tabs, AllocAll(w.pool, tabs));
    } else {
      CopyCounts(w, s, v, got.value, FlagsFor(perm), Content(w.pool, frame), tabs);
      GivenInv(w, s, v, Entry(got.value, FlagsFor(perm)), tabs,
               AllocAll(Filled(Alloc(Decrease(w.pool, frame), got.value), got.value, Content(w.pool, frame)), tabs));
    }
  }

  lemma OwnsPte(w: World, s: nat, v: nat)
    requires s in w.spaces && v in w.spaces[s].pt
    ensures Owns(w, ByPte(s, v), w.spaces[s].pt[v].frame)
  {
  }

  /** A fault that obtains its frame keeps everything. */
  lemma FaultInv(w: World, files: Files, s: nat, v: nat, acc: Access, got: Option<Frame>, tabs: set<Frame>)
    requires Inv0(w) && s in w.spaces && v < USER_VPNS && Wf(w.spaces[s].areas)
    requires tabs <= w.pool.free && (got.Some? ==> got.value in w.pool.free && got.value !in tabs)
    requires SharedCow(w, s, v, acc) ==> got.Some?
    ensures
      var r := FaultStep(w.spaces[s], w.pool, files, v, acc, got, tabs);
      Inv0(With(w, s, r.0, r.1))
  {
    hide Inv0, FaultFresh, FaultCow, Lookup;
    var sp := w.spaces[s];
    assert With(w, s, sp, w.pool) == w;
    match Lookup(sp.areas, v * PAGE_SIZE)
    case None =>
    case Some(cell) =>
      if CanAccess(acc, cell.perm) {
        if v !in sp.pt {
          FreshInv(w, s, v, cell.perm, Demand(files, cell.origin), got, tabs);
        } else if CowFault(sp, v, cell.perm) {
          CowInv(w, s, v, cell.perm, got, tabs);
        }
      }
  }

  /**
   When no frame is left, a fault keeps the counts exact if and only if it does not run into the
   copy-on-write branch of a shared frame: there the old count is already down by one.
   */
  lemma OutOfMemoryExact(w: World, files: Files, s: nat, v: nat, acc: Access)
    requires Inv0(w) && s in w.spaces && v < USER_VPNS && Wf(w.spaces[s].areas)
    ensures
      var r := FaultStep(w.spaces[s], w.pool, files, v, acc, None, {});
      Exact(With(w, s, r.0, r.1)) <==> !SharedCow(w, s, v, acc)
  {
    hide Inv0, Exact, Owners, Owns, FaultFresh, Lookup;
    var sp := w.spaces[s];
    if !SharedCow(w, s, v, acc) {
      FaultInv(w, files, s, v, acc, None, {});
      var r := FaultStep(sp, w.pool, files, v, acc, None, {});
      Inv0Exact(With(w, s, r.0, r.1));
    } else {
      Inv0Exact(w);
      OwnsPte(w, s, v);
      OneLess(w, sp.pt[v].frame, s);
    }
  }

  /**
   A `Shm::alloc` that runs out of frames keeps all of them: the counts stay exact if and only if
   there was nothing to keep.
   */
  lemma ShmAllocFailExact(w: World)
    requires Exact(w)
    ensures Exact(w.(pool := AllocAll(w.pool, w.pool.free))) <==> w.pool.free == {}
  {
    hide Owners, Owns;
    var w' := w.(pool := AllocAll(w.pool, w.pool.free));
    if w.pool.free == {} {
      assert w'.pool == w.pool;
      assert w' == w;
    } else {
      var f :| f in w.pool.free;
      CountOf(w, f);
      SamePeople(w, w', f);
      assert !CountRight(w', f);
    }
  }

  lemma Inv0Exact(w: World)
    requires Inv0(w)
    ensures Exact(w)
  {
  }

  lemma OneLess(w: World, f: Frame, s: nat)
    requires Exact(w) && f in w.pool.count && w.pool.count[f] > 0 && s in w.spaces
    ensures !Exact(With(w, s, w.spaces[s], Decrease(w.pool, f)))
  {
    var w' := With(w, s, w.spaces[s], Decrease(w.pool, f));
    assert w'.spaces == w.spaces;
    CountOf(w, f);
    SamePeople(w, w', f);
    assert !CountRight(w', f);
  }

  lemma SamePeople(w: World, w': World, f: Frame)
    requires w.spaces == w'.spaces && w.shms == w'.shms
    ensures Owners(w, f) == Owners(w', f) && forall o :: Owns(w, o, f) <==> Owns(w', o, f)
  {
    OwnersAre(w, f);
    OwnersAre(w', f);
    assert forall o :: Owns(w, o, f) <==> Owns(w', o, f);
  }

  // ---- Stores ----

  lemma StoreInv(w: World, f: Frame, data: Page)
    requires Inv0(w) && f in w.pool.count
    ensures Inv0(w.(pool := Filled(w.pool, f, data)))
  {
    hide Exact, Separate, Exclusive, ShmOk, SpaceOk, Owns, Owners;
    var w' := w.(pool := Filled(w.pool, f, data));
    StoreExact(w, f, data);
    StoreSeparate(w, w');
    StoreExclusive(w, w');
    StoreShm(w, w');
  }

  lemma StoreExact(w: World, f: Frame, data: Page)
    requires Exact(w) && f in w.pool.count
    ensures Exact(w.(pool := Filled(w.pool, f, data)))
  {
    var w' := w.(pool := Filled(w.pool, f, data));
    forall g: Frame
      ensures CountRight(w', g)
    {
      assert CountRight(w, g);
      SamePeople(w, w', g);
    }
    forall o: Owner, g: Frame
      ensures OwnedKnown(w', o, g)
    {
      assert OwnedKnown(w, o, g);
      SamePeople(w, w', g);
    }
  }

  lemma StoreSeparate(w: World, w': World)
    requires Separate(w) && w.spaces == w'.spaces && w.shms == w'.shms
    ensures Separate(w')
  {
    forall a: Owner, b: Owner, g: Frame
      ensures SeparateFor(w', a, b, g)
    {
      assert SeparateFor(w, a, b, g);
      SamePeople(w, w', g);
    }
  }

  lemma StoreExclusive(w: World, w': World)
    requires Exclusive(w) && w.spaces == w'.spaces && w.shms == w'.shms
    ensures Exclusive(w')
  {
    forall s: nat, v: nat, o: Owner
      ensures ExclusiveFor(w', s, v, o)
    {
      assert ExclusiveFor(w, s, v, o);
    }
  }

  lemma StoreShm(w: World, w': World)
    requires ShmOk(w) && w.spaces == w'.spaces && w.shms == w'.shms
    ensures ShmOk(w')
  {
    forall s: nat, k: nat, id: nat
      ensures ShmAreaOk(w', s, k, id)
    {
      assert ShmAreaOk(w, s, k, id);
    }
  }

  // ---- Fork ----

  lemma ForkOwns(w: World, s: nat, c: nat, tabs: set<Frame>, o: Owner, f: Frame)
    requires s in w.spaces && c !in w.spaces
    ensures Owns(Forked(w, s, c, tabs), o, f) ==
            match o
            case ByPte(s', v) => if s' == c then Owns(w, ByPte(s, v), f) else Owns(w, o, f)
            case ByTable(s') => if s' == c then f in tabs else Owns(w, o, f)
            case ByShm(_, _) => Owns(w, o, f)
  {
  }

  ghost function Forked(w: World, s: nat, c: nat, tabs: set<Frame>): World
    requires s in w.spaces
  {
    var r := ForkStep(w.spaces[s], w.pool, tabs);
    World(w.spaces[s := r.0][c := r.1], w.shms, r.2)
  }

  lemma UserFlags(w: World, s: nat, v: nat)
    requires Inv0(w) && s in w.spaces && v in w.spaces[s].pt
    ensures w.spaces[s].pt[v].flags.u
  {
    MappedOk(w, s, v);
  }

  lemma ForkCount(w: World, s: nat, c: nat, tabs: set<Frame>, f: Frame)
    requires Inv0(w) && s in w.spaces && c !in w.spaces && tabs <= w.pool.free && f in w.pool.count
    ensures |Owners(Forked(w, s, c, tabs), f)| ==
            w.pool.count[f] + (if f in tabs then 1 else 0) + |Users(w.spaces[s].pt, f)|
  {
    var pages := Users(w.spaces[s].pt, f);
    var table := if f in tabs then {ByTable(c)} else {};
    var came := Image(c, pages) + table;
    assert Image(c, pages) !! table;
    hide Inv0, Owners, Forked, Image, Users;
    var w' := Forked(w, s, c, tabs);
    ImageCard(c, pages);
    forall o
      ensures o in came ==> !Owns(w, o, f)
      ensures Owns(w', o, f) <==> Owns(w, o, f) || o in came
    {
      ForkOwner(w, s, c, tabs, f, o);
    }
    hide Owns;
    Inv0Exact(w);
    CountOf(w, f);
    OwnersDelta(w, w', f, {}, came);
  }

  lemma ForkOwner(w: World, s: nat, c: nat, tabs: set<Frame>, f: Frame, o: Owner)
    requires Inv0(w) && s in w.spaces && c !in w.spaces
    ensures
      var came := Image(c, Users(w.spaces[s].pt, f)) + if f in tabs then {ByTable(c)} else {};
      && (o in came ==> !Owns(w, o, f))
      && (Owns(Forked(w, s, c, tabs), o, f) <==> Owns(w, o, f) || o in came)
  {
    hide Inv0, Forked;
    ForkOwns(w, s, c, tabs, o, f);
    if o.ByPte? && o.s == c && o.v in w.spaces[s].pt {
      UserFlags(w, s, o.v);
    }
  }

  lemma ForkPool(w: World, s: nat, tabs: set<Frame>)
    requires Exact(w) && s in w.spaces && tabs <= w.pool.free
    ensures PoolOk(Shared(w.pool, tabs, w.spaces[s].pt))
  {
    forall f: Frame
      ensures f in w.pool.free ==> Users(w.spaces[s].pt, f) == {}
    {
      if f in w.pool.free {
        FreeUnused(w, s, f);
      }
    }
    hide Users;
  }

  lemma FreeUnused(w: World, s: nat, f: Frame)
    requires Exact(w) && s in w.spaces && f in w.pool.free
    ensures Users(w.spaces[s].pt, f) == {}
  {
    if Users(w.spaces[s].pt, f) != {} {
      var v :| v in Users(w.spaces[s].pt, f);
      FreeUnowned(w, ByPte(s, v), f);
    }
  }

  lemma ForkExact(w: World, s: nat, c: nat, tabs: set<Frame>)
    requires Inv0(w) && s in w.spaces && c !in w.spaces && tabs <= w.pool.free
    ensures Exact(Forked(w, s, c, tabs))
  {
    var w' := Forked(w, s, c, tabs);
    ForkPool(w, s, tabs);
    forall f: Frame
      ensures CountRight(w', f)
    {
      if f in w.pool.count {
        ForkCount(w, s, c, tabs, f);
      }
    }
    forall o: Owner, f: Frame
      ensures OwnedKnown(w', o, f)
    {
      ForkKnown(w, s, c, tabs, o, f);
    }
  }

  /** The owner in the parent that an owner after the fork comes from. */
  function Origin(s: nat, c: nat, o: Owner): Owner { if o.ByPte? && o.s == c then ByPte(s, o.v) else o }

  lemma ForkKnown(w: World, s: nat, c: nat, tabs: set<Frame>, o: Owner, f: Frame)
    requires Exact(w) && s in w.spaces && c !in w.spaces && tabs <= w.pool.free
    ensures OwnedKnown(Forked(w, s, c, tabs), o, f)
  {
    PoolIsOk(w);
    ForkOwns(w, s, c, tabs, o, f);
    if Owns(w, Origin(s, c, o), f) {
      OwnedInPool(w, Origin(s, c, o), f);
    }
  }

  lemma ForkSeparateFor(w: World, s: nat, c: nat, tabs: set<Frame>, a: Owner, b: Owner, f: Frame)
    requires Exact(w) && Separate(w) && s in w.spaces && c !in w.spaces && tabs <= w.pool.free
    ensures SeparateFor(Forked(w, s, c, tabs), a, b, f)
  {
    hide Forked, Owns, Exact, Separate;
    ForkOwns(w, s, c, tabs, a, f);
    ForkOwns(w, s, c, tabs, b, f);
    var a', b' := Origin(s, c, a), Origin(s, c, b);
    if f in tabs {
      FreeUnowned(w, a', f);
      FreeUnowned(w, b', f);
    } else if Owns(w, a', f) && Owns(w, b', f) {
      SeparateAt(w, a', b', f);
    }
  }

  lemma ForkSeparate(w: World, s: nat, c: nat, tabs: set<Frame>)
    requires Exact(w) && Separate(w) && s in w.spaces && c !in w.spaces && tabs <= w.pool.free
    ensures Separate(Forked(w, s, c, tabs))
  {
    forall a: Owner, b: Owner, f: Frame
      ensures SeparateFor(Forked(w, s, c, tabs), a, b, f)
    {
      ForkSeparateFor(w, s, c, tabs, a, b, f);
    }
  }

  lemma ForkExclusiveFor(w: World, s: nat, c: nat, tabs: set<Frame>, s2: nat, v2: nat, o: Owner)
    requires Inv0(w) && s in w.spaces && c !in w.spaces && tabs <= w.pool.free
    ensures ExclusiveFor(Forked(w, s, c, tabs), s2, v2, o)
  {
    var w' := Forked(w, s, c, tabs);
    if WritablePrivate(w', s2, v2) && Owns(w', o, w'.spaces[s2].pt[v2].frame) {
      var f := w'.spaces[s2].pt[v2].frame;
      if s2 == s || s2 == c {
        UserFlags(w, s, v2);
        assert false;
      }
      OwnsPte(w, s2, v2);
      ForkOwns(w, s, c, tabs, o, f);
      OwnedInPool(w, ByPte(s2, v2), f);
      ExclusiveAt(w, s2, v2, Origin(s, c, o));
    }
  }

  lemma ForkExclusive(w: World, s: nat, c: nat, tabs: set<Frame>)
    requires Inv0(w) && s in w.spaces && c !in w.spaces && tabs <= w.pool.free
    ensures Exclusive(Forked(w, s, c, tabs))
  {
    forall s2: nat, v2: nat, o: Owner
      ensures ExclusiveFor(Forked(w, s, c, tabs), s2, v2, o)
    {
      ForkExclusiveFor(w, s, c, tabs, s2, v2, o);
    }
  }

  lemma MarkedSpaceOk(sp: Space, tables: set<Frame>)
    requires SpaceOk(sp)
    ensures SpaceOk(Space(sp.areas, Marked(sp.pt), tables))
  {
    var sp' := Space(sp.areas, Marked(sp.pt), tables);
    forall v: nat
      ensures PteOk(sp', v)
    {
      assert PteOk(sp, v);
    }
  }

  lemma ForkShm(w: World, s: nat, c: nat, tabs: set<Frame>)
    requires ShmOk(w) && s in w.spaces && c !in w.spaces
    ensures ShmOk(Forked(w, s, c, tabs))
  {
    var w' := Forked(w, s, c, tabs);
    forall s2: nat, k: nat, id: nat
      ensures ShmAreaOk(w', s2, k, id)
    {
      var s1 := if s2 == c then s else s2;
      if IsShmArea(w', s2, k, id) {
        assert IsShmArea(w, s1, k, id);
        ShmAt(w, s1, k, id);
        forall i | 0 <= i < |w.shms[id].frames|
          ensures Maps(w'.spaces[s2].pt, VpnDown(k) + i, w.shms[id].frames[i])
        {
          assert Maps(w.spaces[s1].pt, VpnDown(k) + i, w.shms[id].frames[i]);
        }
      }
    }
  }

  lemma ForkInv(w: World, s: nat, c: nat, tabs: set<Frame>)
    requires Inv0(w) && s in w.spaces && c !in w.spaces && tabs <= w.pool.free
    ensures Inv0(Forked(w, s, c, tabs))
  {
    hide Exact, Separate, Exclusive, ShmOk, SpaceOk, Marked, Shared;
    ForkExact(w, s, c, tabs);
    ForkSeparate(w, s, c, tabs);
    ForkExclusive(w, s, c, tabs);
    ForkShm(w, s, c, tabs);
    MarkedSpaceOk(w.spaces[s], w.spaces[s].tables);
    MarkedSpaceOk(w.spaces[s], tabs);
  }

  // ---- Steps that only take references away ----

  ghost predicate Fewer(w: World, w': World) {
    && (forall o: Owner, f: Frame :: OwnsLess(w, w', o, f))
    && (forall s: nat, v: nat :: SamePage(w, w', s, v))
  }

  predicate OwnsLess(w: World, w': World, o: Owner, f: Frame) { Owns(w', o, f) ==> Owns(w, o, f) }

  predicate SamePage(w: World, w': World, s: nat, v: nat) {
    s in w'.spaces && v in w'.spaces[s].pt ==>
      s in w.spaces && v in w.spaces[s].pt && w.spaces[s].pt[v] == w'.spaces[s].pt[v]
  }

  lemma FewerSeparate(w: World, w': World)
    requires Separate(w) && Exclusive(w) && Fewer(w, w')
    ensures Separate(w') && Exclusive(w')
  {
    forall a: Owner, b: Owner, f: Frame
      ensures SeparateFor(w', a, b, f)
    {
      assert SeparateFor(w, a, b, f) && OwnsLess(w, w', a, f) && OwnsLess(w, w', b, f);
    }
    forall s: nat, v: nat, o: Owner
      ensures ExclusiveFor(w', s, v, o)
    {
      assert ExclusiveFor(w, s, v, o) && SamePage(w, w', s, v);
      if s in w'.spaces && v in w'.spaces[s].pt {
        assert OwnsLess(w, w', o, w'.spaces[s].pt[v].frame);
      }
    }
  }

  lemma ExactCovers(w: World, s: nat)
    requires Exact(w) && s in w.spaces
    ensures Covers(w.pool, w.spaces[s].pt)
  {
    var pt := w.spaces[s].pt;
    forall v | v in pt
      ensures pt[v].frame in w.pool.count && |RefsIn(pt, pt.Keys, pt[v].frame)| <= w.pool.count[pt[v].frame]
    {
      var f := pt[v].frame;
      OwnsPte(w, s, v);
      OwnedInPool(w, ByPte(s, v), f);
      CountOf(w, f);
      OwnersAre(w, f);
      var refs := RefsIn(pt, pt.Keys, f);
      ImageCard(s, refs);
      assert Image(s, refs) <= Owners(w, f);
      CardMono(Image(s, refs), Owners(w, f));
    }
  }

  lemma CutCount(w: World, s: nat, areas: Areas, pages: set<nat>, f: Frame)
    requires Exact(w) && s in w.spaces && f in w.pool.count
    ensures
      var sp := Space(areas, w.spaces[s].pt - pages, w.spaces[s].tables);
      var p := DropRefs(w.pool, w.spaces[s].pt, pages);
      p.count[f] == |Owners(With(w, s, sp, p), f)|
  {
    var pt := w.spaces[s].pt;
    var sp := Space(areas, pt - pages, w.spaces[s].tables);
    var p := DropRefs(w.pool, pt, pages);
    assert Lost(pt, pt - pages, f) == RefsIn(pt, pages, f);
    assert Lost(pt - pages, pt, f) == {};
    hide Exact, Owners, Lost, RefsIn;
    CountOf(w, f);
    SpaceDelta(w, s, sp, p, f);
  }

  /** Dropping the references of a set of pages keeps the counts exact, whatever becomes of the areas. */
  lemma CutExact(w: World, s: nat, areas: Areas, pages: set<nat>)
    requires Exact(w) && s in w.spaces
    ensures
      var sp := Space(areas, w.spaces[s].pt - pages, w.spaces[s].tables);
      Exact(With(w, s, sp, DropRefs(w.pool, w.spaces[s].pt, pages)))
  {
    var sp := Space(areas, w.spaces[s].pt - pages, w.spaces[s].tables);
    var w' := With(w, s, sp, DropRefs(w.pool, w.spaces[s].pt, pages));
    ExactCovers(w, s);
    DropOk(w.pool, w.spaces[s].pt, pages);
    forall f: Frame
      ensures CountRight(w', f)
    {
      if f in w.pool.count {
        CutCount(w, s, areas, pages, f);
      }
    }
    forall o: Owner, f: Frame
      ensures OwnedKnown(w', o, f)
    {
      assert OwnedKnown(w, o, f);
    }
  }

  lemma CutFewer(w: World, s: nat, areas: Areas, pages: set<nat>, p: Pool)
    requires s in w.spaces
    ensures Fewer(w, With(w, s, Space(areas, w.spaces[s].pt - pages, w.spaces[s].tables), p))
  {
  }

  /**
   `sys_munmap` checks only the start of its range: areas begin at page boundaries afterwards if and
   only if the end is one too or cuts no area.
   */
  lemma RemovedAreasOk(m: Areas, start: nat, end: nat)
    requires AreasOk(m) && start < end && Aligned(start) && NoShmCut(m, start, end)
    ensures AreasOk(Removed(m, start, end)) <==> CleanCut(m, end)
  {
    hide Removed;
    RemovedWf(m, start, end);
    var r := Removed(m, start, end);
    if CleanCut(m, end) {
      forall k | k in r
        ensures Aligned(k) && r[k].end <= USER_END && RightSide(k, r[k])
      {
        RemovedKey(m, start, end, k);
        if k == end {
          AreaSide(m, Get(m, end).value);
        } else {
          AreaSide(m, k);
        }
      }
    } else {
      var k :| k in m && k < end < m[k].end;
      assert Holds(m, k, end);
      RemovedKey(m, start, end, end);
      assert end in r;
    }
  }

  lemma CutSpaceOk(sp: Space, start: nat, end: nat)
    requires SpaceOk(sp) && start < end && Aligned(start) && CleanCut(sp.areas, end) && NoShmCut(sp.areas, start, end)
    ensures SpaceOk(Space(Removed(sp.areas, start, end), sp.pt - PagesIn(start, end), sp.tables))
  {
    var sp' := Space(Removed(sp.areas, start, end), sp.pt - PagesIn(start, end), sp.tables);
    RemovedAreasOk(sp.areas, start, end);
    forall v: nat
      ensures PteOk(sp', v)
    {
      assert PteOk(sp, v);
      RemovedLookup(sp.areas, start, end, v * PAGE_SIZE);
      hide AreasOk, Lookup, Removed;
      assert v in sp'.pt ==> !(start <= v * PAGE_SIZE < end);
    }
  }

  /** A segment that is still attached after the removal lies outside the range. */
  lemma CutShm(w: World, s: nat, start: nat, end: nat, p: Pool)
    requires ShmOk(w) && s in w.spaces && SpaceOk(w.spaces[s]) && start < end && NoShmCut(w.spaces[s].areas, start, end)
    ensures
      var sp := w.spaces[s];
      ShmOk(With(w, s, Space(Removed(sp.areas, start, end), sp.pt - PagesIn(start, end), sp.tables), p))
  {
    var m, pt := w.spaces[s].areas, w.spaces[s].pt;
    var w' := With(w, s, Space(Removed(m, start, end), pt - PagesIn(start, end), w.spaces[s].tables), p);
    forall s2: nat, k: nat, id: nat
      ensures ShmAreaOk(w', s2, k, id)
    {
      assert ShmAreaOk(w, s2, k, id);
      if s2 == s && IsShmArea(w', s, k, id) {
        CutShmArea(w, s, start, end, k, id);
      }
    }
  }

  lemma CutShmArea(w: World, s: nat, start: nat, end: nat, k: nat, id: nat)
    requires ShmOk(w) && s in w.spaces && SpaceOk(w.spaces[s]) && start < end && NoShmCut(w.spaces[s].areas, start, end)
    requires
      var r := Removed(w.spaces[s].areas, start, end);
      k in r && r[k].area.kind == Shm(id)
    ensures
      var m := w.spaces[s].areas;
      && k in m && Removed(m, start, end)[k] == m[k] && IsShmArea(w, s, k, id)
      && Worlds.Attached(w, s, k, id)
      && forall i :: 0 <= i < |w.shms[id].frames| ==>
           Maps(w.spaces[s].pt - PagesIn(start, end), VpnDown(k) + i, w.shms[id].frames[i])
  {
    hide Removed, ShmOk, PteOk, NoShmCut;
    var m := w.spaces[s].areas;
    RemovedKey(m, start, end, k);
    ShmAt(w, s, k, id);
    AreaSide(m, k);
    UncutOutside(m, start, end, k);
    forall i | 0 <= i < |w.shms[id].frames|
      ensures Maps(w.spaces[s].pt - PagesIn(start, end), VpnDown(k) + i, w.shms[id].frames[i])
    {
      assert Maps(w.spaces[s].pt, VpnDown(k) + i, w.shms[id].frames[i]);
      assert k <= (VpnDown(k) + i) * PAGE_SIZE < m[k].end;
    }
  }

  lemma UncutOutside(m: Areas, start: nat, end: nat, k: nat)
    requires Wf(m) && start < end && NoShmCut(m, start, end) && k in Removed(m, start, end) && k in m
    requires m[k].area.kind.Shm?
    ensures m[k].end <= start || end <= k
  {
    RemovedKey(m, start, end, k);
  }

  /** Unmapping a range that cuts no segment. */
  lemma UnmapInv(w: World, s: nat, start: nat, end: nat)
    requires Inv0(w) && s in w.spaces && start < end && Aligned(start) && Wf(w.spaces[s].areas)
    requires CleanCut(w.spaces[s].areas, end)
    requires NoShmCut(w.spaces[s].areas, start, end)
    ensures
      var r := UnmapStep(w.spaces[s], w.pool, start, end);
      Inv0(With(w, s, r.0, r.1))
  {
    hide Exact, Separate, Exclusive, ShmOk, SpaceOk, Removed, DropRefs, Fewer, NoShmCut, Wf;
    var sp := w.spaces[s];
    var r := UnmapStep(sp, w.pool, start, end);
    CutExact(w, s, r.0.areas, PagesIn(start, end));
    CutFewer(w, s, r.0.areas, PagesIn(start, end), r.1);
    FewerSeparate(w, With(w, s, r.0, r.1));
    CutSpaceOk(sp, start, end);
    CutShm(w, s, start, end, r.1);
  }

  /** Detaching a segment is unmapping exactly its area. */
  lemma DetachIsUnmap(sp: Space, p: Pool, start: nat)
    requires Wf(sp.areas) && start in sp.areas
    ensures NoShmCut(sp.areas, start, sp.areas[start].end)
    ensures DetachStep(sp, p, start) == UnmapStep(sp, p, start, sp.areas[start].end)
  {
    RemovedWhole(sp.areas, start);
  }

  lemma DetachInv(w: World, s: nat, start: nat)
    requires Inv0(w) && s in w.spaces && start in w.spaces[s].areas && w.spaces[s].areas[start].area.kind.Shm?
    ensures
      var r := DetachStep(w.spaces[s], w.pool, start);
      Inv0(With(w, s, r.0, r.1))
  {
    assert SpaceOk(w.spaces[s]);
    AreaSide(w.spaces[s].areas, start);
    DetachIsUnmap(w.spaces[s], w.pool, start);
    hide Inv0, Removed, DropRefs, PagesIn;
    UnmapInv(w, s, start, w.spaces[s].areas[start].end);
  }

  /**
   While an area is attached its segment's frames have at least two references. `detach_shm` gives up
   the area's handle first; if that was the last one, `decrease_and_must_dealloc` finds such a count
   and panics.
   */
  lemma AttachedTwice(w: World, s: nat, k: nat, id: nat, i: nat)
    requires Inv0(w) && IsShmArea(w, s, k, id)
    ensures id in w.shms && (i < |w.shms[id].frames| ==> Count(w.pool, w.shms[id].frames[i]) >= 2)
  {
    hide Exact, Separate, Exclusive, SpaceOk, Owners;
    ShmAt(w, s, k, id);
    if i < |w.shms[id].frames| {
      var f := w.shms[id].frames[i];
      var a, b := ByShm(id, i), ByPte(s, VpnDown(k) + i);
      assert Maps(w.spaces[s].pt, VpnDown(k) + i, f);
      assert Owns(w, a, f) && Owns(w, b, f);
      OwnedInPool(w, a, f);
      CountIs(w, f);
      OwnersAre(w, f);
      CardMono({a, b}, Owners(w, f));
    }
  }

  /** Every segment without a holder can be dropped: `decrease_and_must_dealloc` finds count one. */
  ghost predicate DropReady(w: World) {
    forall id :: id in w.shms && !Held(w, id) ==> OnlyOnce(w.pool, w.shms[id].frames)
  }

  predicate OnlyOnce(p: Pool, frames: seq<Frame>) {
    forall i :: 0 <= i < |frames| ==> Count(p, frames[i]) == 1
  }

  /** `detach_shm` after the area is gone and before its pages are unmapped. */
  function AreaGone(w: World, s: nat, k: nat): World
    requires s in w.spaces
  {
    With(w, s, w.spaces[s].(areas := w.spaces[s].areas - {k}), w.pool)
  }

  /** `detach_shm` drops the area's handle without a panic if and only if somebody else holds the segment. */
  lemma DetachExact(w: World, s: nat, k: nat, id: nat)
    requires Inv(w) && IsShmArea(w, s, k, id)
    ensures DropReady(AreaGone(w, s, k)) <==> HeldElsewhere(w, id, s, k)
  {
    hide Exact, Separate, Exclusive, SpaceOk, ShmAreaOk;
    var w' := AreaGone(w, s, k);
    assert forall s': nat, k': nat, jd: nat ::
      IsShmArea(w', s', k', jd) <==> IsShmArea(w, s', k', jd) && (s', k') != (s, k);
    AttachedTwice(w, s, k, id, 0);
    if HeldElsewhere(w, id, s, k) {
      forall jd | jd in w'.shms
        ensures Held(w', jd)
      {
        assert Held(w, jd);
        if w.shms[jd].handles == 0 && jd != id {
          var s', k' :| IsShmArea(w, s', k', jd);
          assert IsShmArea(w', s', k', jd);
        }
      }
    } else {
      assert !Held(w', id);
      assert |w.shms[id].frames| > 0;
      assert !OnlyOnce(w'.pool, w'.shms[id].frames);
    }
  }

  // ---- Frames that lose their last reference ----

  predicate KeptOwner(w: World, w': World, o: Owner, f: Frame) { Owns(w', o, f) <==> Owns(w, o, f) }

  lemma SameOwners(w: World, w': World, f: Frame)
    requires forall o: Owner :: KeptOwner(w, w', o, f)
    ensures Owners(w', f) == Owners(w, f)
  {
    OwnersAre(w, f);
    OwnersAre(w', f);
    hide Owners, Owns;
    assert forall o: Owner :: KeptOwner(w, w', o, f) ==> (Owns(w', o, f) <==> Owns(w, o, f)) by {
      forall o: Owner
        ensures KeptOwner(w, w', o, f) ==> (Owns(w', o, f) <==> Owns(w, o, f))
      {
        assert KeptOwner(w, w', o, f);
      }
    }
    forall o: Owner
      ensures o in Owners(w', f) <==> o in Owners(w, f)
    {
      assert KeptOwner(w, w', o, f);
    }
  }

  /** The frames `fs` had one reference each and now have none; all others keep theirs. */
  lemma FreedExact(w: World, w': World, fs: set<Frame>)
    requires Exact(w) && w'.pool == Freed(w.pool, fs)
    requires forall f :: f in fs ==> Count(w.pool, f) == 1
    requires forall o: Owner, f: Frame :: f !in fs ==> KeptOwner(w, w', o, f)
    requires forall o: Owner, f: Frame :: f in fs ==> !Owns(w', o, f)
    ensures Exact(w')
  {
    assert PoolOk(w'.pool);
    forall f: Frame
      ensures CountRight(w', f)
    {
      assert CountRight(w, f);
      if f !in fs {
        SameOwners(w, w', f);
      } else {
        OwnersAre(w', f);
        hide Owners;
        assert Owners(w', f) == {};
      }
    }
    forall o: Owner, f: Frame
      ensures OwnedKnown(w', o, f)
    {
      assert OwnedKnown(w, o, f);
      if f !in fs {
        assert KeptOwner(w, w', o, f);
      }
    }
  }

  // ---- Drop ----

  /** Once its pages are gone, the tables of a space are all it still holds, and they go back to the pool. */
  lemma DropTablesExact(w: World, s: nat)
    requires Exact(w) && Separate(w) && s in w.spaces && w.spaces[s].pt == map[]
    ensures Exact(World(w.spaces - {s}, w.shms, Freed(w.pool, w.spaces[s].tables)))
  {
    var fs := w.spaces[s].tables;
    var w' := World(w.spaces - {s}, w.shms, Freed(w.pool, fs));
    forall f | f in fs
      ensures Count(w.pool, f) == 1
      ensures forall o: Owner :: !Owns(w', o, f)
    {
      TableAlone(w, s, f);
      forall o: Owner
        ensures !Owns(w', o, f)
      {
        assert Owns(w', o, f) ==> Owns(w, o, f) && o != ByTable(s);
      }
    }
    FreedExact(w, w', fs);
  }

  lemma TableAlone(w: World, s: nat, f: Frame)
    requires Exact(w) && Separate(w) && s in w.spaces && f in w.spaces[s].tables
    ensures Count(w.pool, f) == 1 && forall o: Owner :: Owns(w, o, f) ==> o == ByTable(s)
  {
    assert Owns(w, ByTable(s), f);
    hide Owns, Exact, Separate;
    forall o: Owner | Owns(w, o, f)
      ensures o == ByTable(s)
    {
      SeparateAt(w, o, ByTable(s), f);
    }
    SoleCount(w, ByTable(s), f);
  }

  /** Every mapped page is covered by an area, so releasing the areas releases every page. */
  lemma DropCoversAll(w: World, s: nat)
    requires Inv0(w) && s in w.spaces
    ensures w.spaces[s].pt.Keys <= AreaPages(w.spaces[s].areas)
    ensures w.spaces[s].pt - AreaPages(w.spaces[s].areas) == map[]
  {
    forall v | v in w.spaces[s].pt
      ensures v in AreaPages(w.spaces[s].areas)
    {
      MappedOk(w, s, v);
      assert Holds(w.spaces[s].areas, Get(w.spaces[s].areas, v * PAGE_SIZE).value, v * PAGE_SIZE);
    }
  }

  ghost function Emptied(w: World, s: nat): World
    requires s in w.spaces
  {
    var sp := w.spaces[s];
    var pages := AreaPages(sp.areas);
    With(w, s, Space(sp.areas, sp.pt - pages, sp.tables), DropRefs(w.pool, sp.pt, pages))
  }

  ghost function Dropped(w: World, s: nat): World
    requires s in w.spaces
  {
    World(w.spaces - {s}, w.shms, DropStep(w.spaces[s], w.pool))
  }

  lemma DropInv(w: World, s: nat)
    requires Inv0(w) && s in w.spaces
    ensures Inv0(Dropped(w, s))
  {
    var w1, w' := Emptied(w, s), Dropped(w, s);
    assert w'.spaces == w1.spaces - {s} && w'.pool == Freed(w1.pool, w1.spaces[s].tables);
    DropCoversAll(w, s);
    hide AreaPages, DropRefs, Exact, Separate, Exclusive, SpaceOk;
    CutExact(w, s, w.spaces[s].areas, AreaPages(w.spaces[s].areas));
    CutFewer(w, s, w.spaces[s].areas, AreaPages(w.spaces[s].areas), w1.pool);
    FewerSeparate(w, w1);
    DropTablesExact(w1, s);
    DropFewer(w, s);
    FewerSeparate(w, w');
    DropShm(w, s);
  }

  lemma DropFewer(w: World, s: nat)
    requires s in w.spaces
    ensures Fewer(w, Dropped(w, s))
  {
    hide DropStep;
  }

  lemma DropShm(w: World, s: nat)
    requires ShmOk(w) && s in w.spaces
    ensures ShmOk(Dropped(w, s))
  {
    hide DropStep;
    var w' := Dropped(w, s);
    forall s2: nat, k: nat, id: nat
      ensures ShmAreaOk(w', s2, k, id)
    {
      assert ShmAreaOk(w, s2, k, id);
    }
  }

  // ---- Segments without a holder ----

  lemma UnheldAlone(w: World, id: nat, i: nat)
    requires Inv0(w) && id in w.shms && i < |w.shms[id].frames| && !Held(w, id)
    ensures Count(w.pool, w.shms[id].frames[i]) == 1
    ensures forall o: Owner :: Owns(w, o, w.shms[id].frames[i]) ==> o == ByShm(id, i)
  {
    var f := w.shms[id].frames[i];
    assert Owns(w, ByShm(id, i), f);
    forall o: Owner | Owns(w, o, f)
      ensures o == ByShm(id, i)
    {
      SeparateAt(w, o, ByShm(id, i), f);
      if o.ByPte? {
        SharePageOwner(w, o.s, o.v, id, i);
      }
    }
    SoleCount(w, ByShm(id, i), f);
  }

  /** A page that maps a frame of a segment lies in an area attached to that segment. */
  lemma SharePageOwner(w: World, s: nat, v: nat, id: nat, i: nat)
    requires Inv0(w) && s in w.spaces && v in w.spaces[s].pt && InShare(v)
    requires id in w.shms && i < |w.shms[id].frames| && w.spaces[s].pt[v].frame == w.shms[id].frames[i]
    ensures Held(w, id)
  {
    MappedOk(w, s, v);
    var m := w.spaces[s].areas;
    var k := Get(m, v * PAGE_SIZE).value;
    ShareSide(m, v);
    var id' := m[k].area.kind.id;
    assert IsShmArea(w, s, k, id');
    ShmAt(w, s, k, id');
    AreaSide(m, k);
    var j := v - VpnDown(k);
    assert Maps(w.spaces[s].pt, VpnDown(k) + j, w.shms[id'].frames[j]);
    assert Owns(w, ByShm(id', j), w.shms[id].frames[i]) && Owns(w, ByShm(id, i), w.shms[id].frames[i]);
    SeparateAt(w, ByShm(id', j), ByShm(id, i), w.shms[id].frames[i]);
  }

  lemma ReapExact(w: World)
    requires Inv0(w)
    ensures Exact(Reap(w))
  {
    var fs, w' := UnheldFrames(w), Reap(w);
    forall f | f in fs
      ensures Count(w.pool, f) == 1
      ensures forall o: Owner :: !Owns(w', o, f)
    {
      var id, i: nat :| id in w.shms && i < |w.shms[id].frames| && !Held(w, id) && w.shms[id].frames[i] == f;
      UnheldAlone(w, id, i);
      hide Inv0, Held;
      forall o: Owner
        ensures !Owns(w', o, f)
      {
        assert Owns(w', o, f) ==> Owns(w, o, f) && o != ByShm(id, i);
      }
    }
    forall o: Owner, f: Frame | f !in fs
      ensures KeptOwner(w, w', o, f)
    {
      hide Inv0, Held, Freed;
    }
    hide Inv0, Held, Owns, UnheldFrames;
    Inv0Exact(w);
    FreedExact(w, w', fs);
  }

  lemma ReapFewer(w: World)
    ensures Fewer(w, Reap(w))
  {
    hide Held, Freed, UnheldFrames;
  }

  lemma ReapShm(w: World)
    requires ShmOk(w)
    ensures ShmOk(Reap(w))
  {
    var w' := Reap(w);
    hide Freed, UnheldFrames;
    forall s: nat, k: nat, id: nat
      ensures ShmAreaOk(w', s, k, id)
    {
      assert ShmAreaOk(w, s, k, id);
      if IsShmArea(w', s, k, id) {
        assert IsShmArea(w, s, k, id);
        assert Held(w, id);
      }
    }
  }

  /** Dropping the segments that nobody holds any more restores the full invariant. */
  lemma ReapInv(w: World)
    requires Inv0(w)
    ensures Inv(Reap(w))
  {
    var w' := Reap(w);
    forall id | id in w'.shms
      ensures Held(w', id)
    {
      if w.shms[id].handles == 0 {
        var s: nat, k: nat :| IsShmArea(w, s, k, id);
        assert IsShmArea(w', s, k, id);
      }
    }
    hide Exact, Separate, Exclusive, ShmOk, SpaceOk, Freed, UnheldFrames, Held;
    ReapExact(w);
    ReapFewer(w);
    FewerSeparate(w, w');
    ReapShm(w);
  }

  // ---- Changes of areas only ----

  lemma SameOwnersAll(w: World, w': World)
    requires Exact(w) && Separate(w) && w'.pool == w.pool
    requires forall o: Owner, f: Frame :: KeptOwner(w, w', o, f)
    ensures Exact(w') && Separate(w')
  {
    forall f: Frame
      ensures CountRight(w', f)
    {
      assert CountRight(w, f);
      SameOwners(w, w', f);
    }
    forall o: Owner, f: Frame
      ensures OwnedKnown(w', o, f)
    {
      assert OwnedKnown(w, o, f) && KeptOwner(w, w', o, f);
    }
    forall a: Owner, b: Owner, f: Frame
      ensures SeparateFor(w', a, b, f)
    {
      assert SeparateFor(w, a, b, f) && KeptOwner(w, w', a, f) && KeptOwner(w, w', b, f);
    }
  }

  /** Page `v` keeps its meaning; area `k` is a segment of the same extent before and after. */
  ghost predicate PageKept(m: Areas, m': Areas, pt: map<nat, Entry>, v: nat)
    requires Wf(m) && Wf(m')
  {
    v in pt ==> Lookup(m', v * PAGE_SIZE) == Lookup(m, v * PAGE_SIZE)
  }

  predicate SegmentsKept(m: Areas, m': Areas, k: nat) {
    k in m' && m'[k].area.kind.Shm? ==> k in m && m[k] == m'[k]
  }

  lemma AreasInv(w: World, s: nat, m': Areas)
    requires Inv0(w) && s in w.spaces && AreasOk(m') && Wf(w.spaces[s].areas)
    requires forall v: nat :: PageKept(w.spaces[s].areas, m', w.spaces[s].pt, v)
    requires forall k: nat :: SegmentsKept(w.spaces[s].areas, m', k)
    ensures Inv0(With(w, s, w.spaces[s].(areas := m'), w.pool))
  {
    hide Exact, Separate, Exclusive, ShmOk, Owners, PteOk, AreasOk, Wf;
    var sp, sp' := w.spaces[s], w.spaces[s].(areas := m');
    var w' := With(w, s, sp', w.pool);
    assert forall o: Owner, f: Frame :: KeptOwner(w, w', o, f);
    hide Owns;
    SameOwnersAll(w, w');
    AreasExclusive(w, s, m');
    AreasWf(m');
    forall v: nat
      ensures PteOk(sp', v)
    {
      SpaceFacts(w, s, v);
      assert PageKept(sp.areas, m', sp.pt, v);
      PteKept(sp, m', v);
    }
    AreasShm(w, s, m');
  }

  lemma AreasWf(m: Areas)
    requires AreasOk(m)
    ensures Wf(m)
  {
  }

  lemma PteKept(sp: Space, m': Areas, v: nat)
    requires Wf(sp.areas) && Wf(m') && PteOk(sp, v) && PageKept(sp.areas, m', sp.pt, v)
    ensures PteOk(sp.(areas := m'), v)
  {
    hide Wf;
  }

  lemma AreasExclusive(w: World, s: nat, m': Areas)
    requires Exclusive(w) && s in w.spaces
    ensures Exclusive(With(w, s, w.spaces[s].(areas := m'), w.pool))
  {
    var w' := With(w, s, w.spaces[s].(areas := m'), w.pool);
    forall s2: nat, v2: nat, o: Owner
      ensures ExclusiveFor(w', s2, v2, o)
    {
      assert ExclusiveFor(w, s2, v2, o);
    }
  }

  lemma AreasShm(w: World, s: nat, m': Areas)
    requires ShmOk(w) && s in w.spaces
    requires forall k: nat :: SegmentsKept(w.spaces[s].areas, m', k)
    ensures ShmOk(With(w, s, w.spaces[s].(areas := m'), w.pool))
  {
    var w' := With(w, s, w.spaces[s].(areas := m'), w.pool);
    forall s2: nat, k: nat, id: nat
      ensures ShmAreaOk(w', s2, k, id)
    {
      assert ShmAreaOk(w, s2, k, id) && SegmentsKept(w.spaces[s].areas, m', k);
    }
  }

  lemma InsertInv(w: World, s: nat, start: nat, end: nat, area: Area)
    requires Inv0(w) && s in w.spaces && start < end <= USER_END && Aligned(start)
    requires !area.kind.Shm? && RightSide(start, Node(end, area)) && !Overlaps(w.spaces[s].areas, start, end)
    ensures Inv0(With(w, s, w.spaces[s].(areas := w.spaces[s].areas[start := Node(end, area)]), w.pool))
  {
    var sp := w.spaces[s];
    assert SpaceOk(sp);
    var m' := Inserted(sp.areas, start, end, area).value;
    forall v: nat
      ensures PageKept(sp.areas, m', sp.pt, v)
    {
      assert PteOk(sp, v);
      InsertedLookup(sp.areas, start, end, area, v * PAGE_SIZE);
      if start <= v * PAGE_SIZE < end {
        UncoveredFree(sp.areas, start, end, v * PAGE_SIZE);
      }
    }
    hide Exact, Separate, Exclusive, ShmOk, Lookup;
    AreasInv(w, s, m');
  }

  lemma UncoveredFree(m: Areas, start: nat, end: nat, a: nat)
    requires Wf(m) && !Overlaps(m, start, end) && start <= a < end
    ensures Lookup(m, a) == None
  {
    assert forall k: nat :: Holds(m, k, a) ==> k < end && start < m[k].end;
  }

  lemma GrownLookup(m: Areas, start: nat, newEnd: nat, a: nat)
    requires Wf(m) && start in m && m[start].end < newEnd && Free(m, m[start].end, newEnd)
    ensures
      var m' := m[start := m[start].(end := newEnd)];
      && Wf(m')
      && Lookup(m', a) == (if m[start].end <= a < newEnd then Some(CellOf(m[start].area, a - start)) else Lookup(m, a))
      && (m[start].end <= a < newEnd ==> Lookup(m, a) == None)
  {
    var m' := m[start := m[start].(end := newEnd)];
    if m[start].end <= a < newEnd {
      assert Holds(m', start, a);
    } else {
      assert forall k: nat :: Holds(m, k, a) <==> Holds(m', k, a);
    }
  }

  lemma GrowInv(w: World, s: nat, start: nat, newEnd: nat)
    requires Inv0(w) && s in w.spaces && start in w.spaces[s].areas && w.spaces[s].areas[start].area.kind.Anonymous?
    requires w.spaces[s].areas[start].end < newEnd <= USER_END
    requires Free(w.spaces[s].areas, w.spaces[s].areas[start].end, newEnd)
    requires RightSide(start, w.spaces[s].areas[start].(end := newEnd))
    ensures
      var sp := w.spaces[s];
      Inv0(With(w, s, sp.(areas := sp.areas[start := sp.areas[start].(end := newEnd)]), w.pool))
  {
    var sp := w.spaces[s];
    assert SpaceOk(sp);
    var m := sp.areas;
    var m' := m[start := m[start].(end := newEnd)];
    AreaSide(m, start);
    GrownLookup(m, start, newEnd, 0);
    forall v: nat
      ensures PageKept(m, m', sp.pt, v)
    {
      assert PteOk(sp, v);
      GrownLookup(m, start, newEnd, v * PAGE_SIZE);
    }
    hide Exact, Separate, Exclusive, ShmOk, Lookup;
    AreasInv(w, s, m');
  }

  // ---- New spaces and new segments ----

  lemma NewSpaceOwns(w: World, s: nat, root: Frame, o: Owner, f: Frame)
    requires s !in w.spaces
    ensures Owns(Born(w, s, root), o, f) <==> Owns(w, o, f) || (o == ByTable(s) && f == root)
  {
  }

  ghost function Born(w: World, s: nat, root: Frame): World {
    World(w.spaces[s := Space(map[], map[], {root})], w.shms, Alloc(w.pool, root))
  }

  lemma NewSpaceInv(w: World, s: nat, root: Frame)
    requires Inv0(w) && s !in w.spaces && root in w.pool.free
    ensures Inv0(Born(w, s, root))
  {
    var w' := Born(w, s, root);
    hide Inv0, Owns, Owners;
    Inv0Exact(w);
    AllocAllOk(w.pool, {root});
    forall f: Frame
      ensures CountRight(w', f)
    {
      NewSpaceCount(w, s, root, f);
    }
    forall o: Owner, f: Frame
      ensures OwnedKnown(w', o, f)
      ensures FreshOwner(w, w', {root}, o, f)
    {
      assert OwnedKnown(w, o, f);
      NewSpaceOwns(w, s, root, o, f);
    }
    forall a: Owner, b: Owner, f: Frame
      ensures OneFresh(w, w', {root}, a, b, f)
    {
      FreeUnowned(w, a, root);
      FreeUnowned(w, b, root);
      NewSpaceOwns(w, s, root, a, f);
      NewSpaceOwns(w, s, root, b, f);
    }
    NewSpaceRest(w, s, root);
    NewSpaceSeparate(w, w', root);
    NewSpaceAll(w, s, root);
  }

  lemma NewSpaceSeparate(w: World, w': World, root: Frame)
    requires Inv0(w) && root in w.pool.free
    requires forall o: Owner, f: Frame :: FreshOwner(w, w', {root}, o, f)
    requires forall a: Owner, b: Owner, f: Frame :: OneFresh(w, w', {root}, a, b, f)
    ensures Separate(w')
  {
    FreshSeparate(w, w', {root}, w'.pool);
  }

  lemma NewSpaceAll(w: World, s: nat, root: Frame)
    requires Inv0(w) && s !in w.spaces && SpaceOk(Space(map[], map[], {root}))
    requires
      var w' := Born(w, s, root);
      Exact(w') && Separate(w') && Exclusive(w') && ShmOk(w')
    ensures Inv0(Born(w, s, root))
  {
    hide Exact, Separate, Exclusive, ShmOk, SpaceOk;
  }

  lemma NewSpaceCount(w: World, s: nat, root: Frame, f: Frame)
    requires Exact(w) && s !in w.spaces && root in w.pool.free
    ensures CountRight(Born(w, s, root), f)
  {
    hide Exact, Owns, Owners;
    var w' := Born(w, s, root);
    BornCount(w, s, root, f);
    FreeUnowned(w, ByTable(s), root);
    forall o: Owner
      ensures Owns(w', o, f) <==> Owns(w, o, f) || (o == ByTable(s) && f == root)
    {
      NewSpaceOwns(w, s, root, o, f);
    }
    OwnersDelta(w, w', f, {}, if f == root then {ByTable(s)} else {});
  }

  lemma BornCount(w: World, s: nat, root: Frame, f: Frame)
    requires Exact(w)
    ensures
      var p := Born(w, s, root).pool;
      && CountRight(w, f) && (f in p.count <==> f in w.pool.count)
      && (f in p.count ==> p.count[f] == w.pool.count[f] + if f == root then 1 else 0)
  {
    hide Owns, Owners;
    assert CountRight(w, f);
  }

  /** Frames that were free get one reference each; nothing else changes hands. */
  ghost predicate FreshOwner(w: World, w': World, fs: set<Frame>, o: Owner, f: Frame) {
    Owns(w', o, f) && !Owns(w, o, f) ==> f in fs && !o.ByPte?
  }

  ghost predicate OneFresh(w: World, w': World, fs: set<Frame>, a: Owner, b: Owner, f: Frame) {
    f in fs && Owns(w', a, f) && Owns(w', b, f) ==> a == b
  }

  lemma FreshSeparate(w: World, w': World, fs: set<Frame>, p: Pool)
    requires Exact(w) && Separate(w) && fs <= w.pool.free
    requires forall o: Owner, f: Frame :: FreshOwner(w, w', fs, o, f)
    requires forall a: Owner, b: Owner, f: Frame :: OneFresh(w, w', fs, a, b, f)
    ensures Separate(w')
  {
    forall a: Owner, b: Owner, f: Frame
      ensures SeparateFor(w', a, b, f)
    {
      assert SeparateFor(w, a, b, f) && FreshOwner(w, w', fs, a, f) && FreshOwner(w, w', fs, b, f);
      assert OneFresh(w, w', fs, a, b, f);
    }
  }

  lemma NewSpaceRest(w: World, s: nat, root: Frame)
    requires Inv0(w) && s !in w.spaces && root in w.pool.free
    ensures Exclusive(Born(w, s, root)) && ShmOk(Born(w, s, root))
    ensures SpaceOk(Space(map[], map[], {root}))
  {
    hide Inv0, Owners;
    var w' := Born(w, s, root);
    forall s2: nat, v2: nat, o: Owner
      ensures ExclusiveFor(w', s2, v2, o)
    {
      NewSpaceExclusiveFor(w, s, root, s2, v2, o);
    }
    NewSpaceShm(w, s, root);
  }

  lemma NewSpaceExclusiveFor(w: World, s: nat, root: Frame, s2: nat, v2: nat, o: Owner)
    requires Inv0(w) && s !in w.spaces && root in w.pool.free
    ensures ExclusiveFor(Born(w, s, root), s2, v2, o)
  {
    hide Exact, Separate, Exclusive, ShmOk, SpaceOk, Owns, Owners;
    var w' := Born(w, s, root);
    if WritablePrivate(w', s2, v2) {
      var f := w'.spaces[s2].pt[v2].frame;
      Inv0Exact(w);
      OwnsPte(w, s2, v2);
      FreeUnowned(w, ByPte(s2, v2), root);
      NewSpaceOwns(w, s, root, o, f);
      if Owns(w, o, f) {
        ExclusiveAt(w, s2, v2, o);
      }
    }
  }

  lemma NewSpaceShm(w: World, s: nat, root: Frame)
    requires Inv0(w) && s !in w.spaces
    ensures ShmOk(Born(w, s, root)) && SpaceOk(Space(map[], map[], {root}))
  {
    hide Exact, Separate, Exclusive;
    var w' := Born(w, s, root);
    forall s2: nat, k: nat, id: nat
      ensures ShmAreaOk(w', s2, k, id)
    {
      assert ShmAreaOk(w, s2, k, id);
    }
  }

  ghost function Created(w: World, id: nat, frames: seq<Frame>): World {
    World(w.spaces, w.shms[id := Segment(frames, 1)], AllocAll(w.pool, set f | f in frames))
  }

  lemma CreateOwns(w: World, id: nat, frames: seq<Frame>, o: Owner, f: Frame)
    requires id !in w.shms
    ensures Owns(Created(w, id, frames), o, f) <==>
            Owns(w, o, f) || (o.ByShm? && o.id == id && o.i < |frames| && frames[o.i] == f)
  {
  }

  lemma CreateCount(w: World, id: nat, frames: seq<Frame>, f: Frame)
    requires Exact(w) && id !in w.shms && Distinct(frames)
    requires forall i :: 0 <= i < |frames| ==> frames[i] in w.pool.free
    ensures CountRight(Created(w, id, frames), f)
  {
    var w' := Created(w, id, frames);
    assert CountRight(w, f);
    forall o: Owner
      ensures Owns(w', o, f) <==> Owns(w, o, f) || (o.ByShm? && o.id == id && o.i < |frames| && frames[o.i] == f)
    {
      CreateOwns(w, id, frames, o, f);
    }
    if f in frames {
      var i :| 0 <= i < |frames| && frames[i] == f;
      FreeUnowned(w, ByShm(id, i), f);
      hide Owns, Owners;
      OwnersDelta(w, w', f, {}, {ByShm(id, i)});
    } else {
      hide Owns, Owners;
      OwnersDelta(w, w', f, {}, {});
    }
  }

  lemma CreateInv(w: World, id: nat, frames: seq<Frame>)
    requires Inv0(w) && id !in w.shms && |frames| > 0 && Distinct(frames)
    requires forall i :: 0 <= i < |frames| ==> frames[i] in w.pool.free
    ensures Inv0(Created(w, id, frames))
  {
    var w' := Created(w, id, frames);
    var fs := set f | f in frames;
    PoolIsOk(w);
    AllocAllOk(w.pool, fs);
    forall f: Frame
      ensures CountRight(w', f)
    {
      CreateCount(w, id, frames, f);
    }
    forall o: Owner, f: Frame
      ensures OwnedKnown(w', o, f)
      ensures FreshOwner(w, w', fs, o, f)
    {
      assert OwnedKnown(w, o, f);
    }
    forall a: Owner, b: Owner, f: Frame
      ensures OneFresh(w, w', fs, a, b, f)
    {
      if f in fs {
        FreeUnowned(w, a, f);
        FreeUnowned(w, b, f);
      }
    }
    FreshSeparate(w, w', fs, w'.pool);
    CreateRest(w, id, frames);
  }

  lemma CreateRest(w: World, id: nat, frames: seq<Frame>)
    requires Inv0(w) && id !in w.shms && |frames| > 0
    requires forall i :: 0 <= i < |frames| ==> frames[i] in w.pool.free
    ensures Exclusive(Created(w, id, frames)) && ShmOk(Created(w, id, frames))
  {
    var w' := Created(w, id, frames);
    forall s2: nat, v2: nat, o: Owner
      ensures ExclusiveFor(w', s2, v2, o)
    {
      assert ExclusiveFor(w, s2, v2, o);
      if WritablePrivate(w', s2, v2) {
        OwnsPte(w, s2, v2);
        OwnedInPool(w, ByPte(s2, v2), w.spaces[s2].pt[v2].frame);
      }
    }
    forall s2: nat, k: nat, id': nat
      ensures ShmAreaOk(w', s2, k, id')
    {
      assert ShmAreaOk(w, s2, k, id');
    }
  }

  lemma HandlesInv(w: World, id: nat, n: nat)
    requires Inv0(w) && id in w.shms
    ensures Inv0(w.(shms := w.shms[id := w.shms[id].(handles := n)]))
  {
    var w' := w.(shms := w.shms[id := w.shms[id].(handles := n)]);
    assert forall o: Owner, f: Frame :: KeptOwner(w, w', o, f);
    SameOwnersAll(w, w');
    forall s2: nat, v2: nat, o: Owner
      ensures ExclusiveFor(w', s2, v2, o)
    {
      assert ExclusiveFor(w, s2, v2, o);
    }
    forall s2: nat, k: nat, id': nat
      ensures ShmAreaOk(w', s2, k, id')
    {
      assert ShmAreaOk(w, s2, k, id');
    }
  }

  // ---- Attaching a segment ----

  ghost function Attaching(w: World, s: nat, id: nat, start: nat, perm: Perm, tabs: set<Frame>): World
    requires s in w.spaces && id in w.shms
  {
    var r := AttachStep(w.spaces[s], w.pool, start, id, w.shms[id].frames, perm, tabs);
    With(w, s, r.0, r.1)
  }

  /** What an attachment may rely on. */
  ghost predicate CanAttach(w: World, s: nat, id: nat, start: nat, tabs: set<Frame>) {
    && Inv0(w) && s in w.spaces && id in w.shms && Aligned(start) && tabs <= w.pool.free
    && SHARE_BEG <= start && start + |w.shms[id].frames| * PAGE_SIZE <= SHARE_END
    && !Overlaps(w.spaces[s].areas, start, start + |w.shms[id].frames| * PAGE_SIZE)
  }

  predicate NewPage(w: World, id: nat, start: nat, v: nat)
    requires id in w.shms
  {
    VpnDown(start) <= v < VpnDown(start) + |w.shms[id].frames|
  }

  lemma NewPageUnmapped(w: World, s: nat, id: nat, start: nat, tabs: set<Frame>, v: nat)
    requires CanAttach(w, s, id, start, tabs) && NewPage(w, id, start, v)
    ensures v !in w.spaces[s].pt && InShare(v) && v < USER_VPNS
    ensures start <= v * PAGE_SIZE < start + |w.shms[id].frames| * PAGE_SIZE
  {
    assert SpaceOk(w.spaces[s]);
    UncoveredFree(w.spaces[s].areas, start, start + |w.shms[id].frames| * PAGE_SIZE, v * PAGE_SIZE);
    assert PteOk(w.spaces[s], v);
  }

  lemma AttachOwns(w: World, s: nat, id: nat, start: nat, perm: Perm, tabs: set<Frame>, o: Owner, f: Frame)
    requires CanAttach(w, s, id, start, tabs)
    ensures Owns(Attaching(w, s, id, start, perm, tabs), o, f) <==>
            || Owns(w, o, f)
            || (o == ByTable(s) && f in tabs)
            || (o.ByPte? && o.s == s && NewPage(w, id, start, o.v) && w.shms[id].frames[o.v - VpnDown(start)] == f)
  {
    if o.ByPte? && o.s == s && NewPage(w, id, start, o.v) {
      NewPageUnmapped(w, s, id, start, tabs, o.v);
    }
    hide Inv0, Overlaps, Bumped;
  }

  lemma SegmentDistinct(w: World, id: nat, i: nat, j: nat)
    requires Inv0(w) && id in w.shms && i < |w.shms[id].frames| && j < |w.shms[id].frames|
    requires w.shms[id].frames[i] == w.shms[id].frames[j]
    ensures i == j
  {
    SeparateAt(w, ByShm(id, i), ByShm(id, j), w.shms[id].frames[i]);
  }

  lemma AttachCounts(w: World, s: nat, id: nat, start: nat, perm: Perm, tabs: set<Frame>, f: Frame)
    requires s in w.spaces && id in w.shms
    ensures
      var w' := Attaching(w, s, id, start, perm, tabs);
      && (f in w'.pool.count <==> f in w.pool.count)
      && (f in w.pool.count ==>
            w'.pool.count[f] == w.pool.count[f] + (if f in w.shms[id].frames then 1 else 0) + (if f in tabs then 1 else 0))
  {
  }

  lemma AttachCount(w: World, s: nat, id: nat, start: nat, perm: Perm, tabs: set<Frame>, f: Frame)
    requires CanAttach(w, s, id, start, tabs)
    ensures CountRight(Attaching(w, s, id, start, perm, tabs), f)
  {
    hide Attaching, Owners, Owns, Exact, Separate, Exclusive, ShmOk, SpaceOk, Overlaps;
    var w' := Attaching(w, s, id, start, perm, tabs);
    AttachCounts(w, s, id, start, perm, tabs, f);
    CountIs(w, f);
    if f in w.shms[id].frames {
      var i :| 0 <= i < |w.shms[id].frames| && w.shms[id].frames[i] == f;
      AttachedOnce(w, s, id, start, perm, tabs, i);
      AttachPageNew(w, s, id, start, tabs, i);
    } else {
      AttachedTable(w, s, id, start, perm, tabs, f);
    }
  }

  lemma CountIs(w: World, f: Frame)
    requires Inv0(w)
    ensures CountRight(w, f)
  {
    hide Separate, Exclusive, ShmOk, SpaceOk, Owners, Owns;
  }

  lemma AttachedOnce(w: World, s: nat, id: nat, start: nat, perm: Perm, tabs: set<Frame>, i: nat)
    requires CanAttach(w, s, id, start, tabs) && i < |w.shms[id].frames|
    ensures
      var f := w.shms[id].frames[i];
      |Owners(Attaching(w, s, id, start, perm, tabs), f)| == |Owners(w, f)| + 1
  {
    hide Attaching, Owners, Owns, Exact, Separate, Exclusive, ShmOk, SpaceOk, Overlaps;
    var w', f := Attaching(w, s, id, start, perm, tabs), w.shms[id].frames[i];
    var page := ByPte(s, VpnDown(start) + i);
    forall o: Owner
      ensures Owns(w', o, f) <==> Owns(w, o, f) || o == page
    {
      AttachPage(w, s, id, start, perm, tabs, i, o);
    }
    AttachPageNew(w, s, id, start, tabs, i);
    OwnersDelta(w, w', f, {}, {page});
  }

  lemma AttachedTable(w: World, s: nat, id: nat, start: nat, perm: Perm, tabs: set<Frame>, f: Frame)
    requires CanAttach(w, s, id, start, tabs) && f !in w.shms[id].frames
    ensures |Owners(Attaching(w, s, id, start, perm, tabs), f)| == |Owners(w, f)| + if f in tabs then 1 else 0
  {
    hide Attaching, Owners, Owns, Exact, Separate, Exclusive, ShmOk, SpaceOk, Overlaps;
    var w' := Attaching(w, s, id, start, perm, tabs);
    var table: set<Owner> := if f in tabs then {ByTable(s)} else {};
    if f in tabs {
      FreeUnowned(w, ByTable(s), f);
    }
    forall o: Owner
      ensures Owns(w', o, f) <==> Owns(w, o, f) || o in table
    {
      AttachOwns(w, s, id, start, perm, tabs, o, f);
    }
    OwnersDelta(w, w', f, {}, table);
  }

  lemma AttachPageNew(w: World, s: nat, id: nat, start: nat, tabs: set<Frame>, i: nat)
    requires CanAttach(w, s, id, start, tabs) && i < |w.shms[id].frames|
    ensures !Owns(w, ByPte(s, VpnDown(start) + i), w.shms[id].frames[i]) && w.shms[id].frames[i] !in tabs
  {
    OwnedInPool(w, ByShm(id, i), w.shms[id].frames[i]);
    NewPageUnmapped(w, s, id, start, tabs, VpnDown(start) + i);
  }

  lemma AttachPage(w: World, s: nat, id: nat, start: nat, perm: Perm, tabs: set<Frame>, i: nat, o: Owner)
    requires CanAttach(w, s, id, start, tabs) && i < |w.shms[id].frames|
    ensures Owns(Attaching(w, s, id, start, perm, tabs), o, w.shms[id].frames[i]) <==>
            Owns(w, o, w.shms[id].frames[i]) || o == ByPte(s, VpnDown(start) + i)
  {
    var f := w.shms[id].frames[i];
    OwnedInPool(w, ByShm(id, i), f);
    hide Attaching, Owns;
    AttachOwns(w, s, id, start, perm, tabs, o, f);
    if o.ByPte? && o.s == s && NewPage(w, id, start, o.v) && w.shms[id].frames[o.v - VpnDown(start)] == f {
      SegmentDistinct(w, id, i, o.v - VpnDown(start));
    }
  }

  lemma AttachPool(w: World, s: nat, id: nat, start: nat, perm: Perm, tabs: set<Frame>)
    requires CanAttach(w, s, id, start, tabs)
    ensures PoolOk(Attaching(w, s, id, start, perm, tabs).pool)
  {
    PoolIsOk(w);
    forall i | 0 <= i < |w.shms[id].frames|
      ensures w.shms[id].frames[i] !in w.pool.free
    {
      OwnedInPool(w, ByShm(id, i), w.shms[id].frames[i]);
    }
    hide Inv0;
    var fs := set f | f in w.shms[id].frames;
    assert PoolOk(Bumped(w.pool, fs));
    AllocAllOk(Bumped(w.pool, fs), tabs);
  }

  lemma AttachKnown(w: World, s: nat, id: nat, start: nat, perm: Perm, tabs: set<Frame>, o: Owner, f: Frame)
    requires CanAttach(w, s, id, start, tabs)
    ensures OwnedKnown(Attaching(w, s, id, start, perm, tabs), o, f)
  {
    PoolIsOk(w);
    assert OwnedKnown(w, o, f);
    AttachOwns(w, s, id, start, perm, tabs, o, f);
    if o.ByPte? && NewPage(w, id, start, o.v) && w.shms[id].frames[o.v - VpnDown(start)] == f {
      assert OwnedKnown(w, ByShm(id, o.v - VpnDown(start)), f);
    }
  }

  /** Who owned the frame before: the page is new, its segment is not. */
  lemma AttachSource(w: World, s: nat, id: nat, start: nat, perm: Perm, tabs: set<Frame>, o: Owner,
                     f: Frame) returns (o': Owner)
    requires CanAttach(w, s, id, start, tabs) && Owns(Attaching(w, s, id, start, perm, tabs), o, f) && f !in tabs
    ensures Owns(w, o', f) && (o' == o || (o'.ByShm? && o.ByPte? && InShare(o.v)))
  {
    AttachOwns(w, s, id, start, perm, tabs, o, f);
    if Owns(w, o, f) {
      return o;
    }
    NewPageUnmapped(w, s, id, start, tabs, o.v);
    return ByShm(id, o.v - VpnDown(start));
  }

  lemma AttachSeparateFor(w: World, s: nat, id: nat, start: nat, perm: Perm, tabs: set<Frame>, a: Owner, b: Owner,
                          f: Frame)
    requires CanAttach(w, s, id, start, tabs)
    ensures SeparateFor(Attaching(w, s, id, start, perm, tabs), a, b, f)
  {
    var w' := Attaching(w, s, id, start, perm, tabs);
    if Owns(w', a, f) && Owns(w', b, f) {
      hide Attaching, Owns;
      if f in tabs {
        AttachOwns(w, s, id, start, perm, tabs, a, f);
        AttachOwns(w, s, id, start, perm, tabs, b, f);
        FreeUnowned(w, a, f);
        FreeUnowned(w, b, f);
        TabsNotSegment(w, id, tabs, f);
      } else {
        var a' := AttachSource(w, s, id, start, perm, tabs, a, f);
        var b' := AttachSource(w, s, id, start, perm, tabs, b, f);
        SeparateAt(w, a', b', f);
      }
    }
  }

  lemma TabsNotSegment(w: World, id: nat, tabs: set<Frame>, f: Frame)
    requires Exact(w) && id in w.shms && tabs <= w.pool.free && f in tabs
    ensures forall i :: 0 <= i < |w.shms[id].frames| ==> w.shms[id].frames[i] != f
  {
    forall i | 0 <= i < |w.shms[id].frames|
      ensures w.shms[id].frames[i] != f
    {
      FreeUnowned(w, ByShm(id, i), f);
    }
  }

  lemma AttachExclusiveFor(w: World, s: nat, id: nat, start: nat, perm: Perm, tabs: set<Frame>, s2: nat, v2: nat,
                           o: Owner)
    requires CanAttach(w, s, id, start, tabs)
    ensures ExclusiveFor(Attaching(w, s, id, start, perm, tabs), s2, v2, o)
  {
    var w' := Attaching(w, s, id, start, perm, tabs);
    if WritablePrivate(w', s2, v2) && Owns(w', o, w'.spaces[s2].pt[v2].frame) {
      var f := w'.spaces[s2].pt[v2].frame;
      if s2 == s && NewPage(w, id, start, v2) {
        NewPageUnmapped(w, s, id, start, tabs, v2);
        assert false;
      }
      assert WritablePrivate(w, s2, v2) && w.spaces[s2].pt[v2].frame == f;
      OwnsPte(w, s2, v2);
      hide Attaching, Owns;
      OwnedInPool(w, ByPte(s2, v2), f);
      var o' := AttachSource(w, s, id, start, perm, tabs, o, f);
      ExclusiveAt(w, s2, v2, o');
    }
  }

  lemma AttachSpaceOk(w: World, s: nat, id: nat, start: nat, perm: Perm, tabs: set<Frame>)
    requires CanAttach(w, s, id, start, tabs) && |w.shms[id].frames| > 0
    ensures SpaceOk(Attaching(w, s, id, start, perm, tabs).spaces[s])
  {
    hide Exact, Separate, Exclusive, ShmOk, SpaceOk, AreasOk, Wf, PteOk, AllocAll, Bumped, SegmentEntries;
    var sp' := Attaching(w, s, id, start, perm, tabs).spaces[s];
    SpaceAreas(w, s);
    AttachAreas(w.spaces[s].areas, start, start + |w.shms[id].frames| * PAGE_SIZE, Area(Shm(id), perm));
    forall v: nat
      ensures PteOk(sp', v)
    {
      AttachPte(w, s, id, start, perm, tabs, v);
    }
    SpaceOkIs(sp');
  }

  lemma SpaceOkIs(sp: Space)
    requires AreasOk(sp.areas) && forall v: nat :: PteOk(sp, v)
    ensures SpaceOk(sp)
  {
    hide PteOk;
  }

  lemma AttachAreas(m: Areas, start: nat, end: nat, area: Area)
    requires AreasOk(m) && area.kind.Shm? && Aligned(start) && Aligned(end)
    requires SHARE_BEG <= start < end <= SHARE_END && !Overlaps(m, start, end)
    ensures AreasOk(m[start := Node(end, area)]) && Wf(m[start := Node(end, area)])
  {
    assert Inserted(m, start, end, area).Some?;
  }

  lemma SpaceAreas(w: World, s: nat)
    requires Inv0(w) && s in w.spaces
    ensures AreasOk(w.spaces[s].areas)
  {
    assert SpaceOk(w.spaces[s]);
  }

  lemma SpaceFacts(w: World, s: nat, v: nat)
    requires Inv0(w) && s in w.spaces
    ensures Wf(w.spaces[s].areas) && PteOk(w.spaces[s], v)
  {
    assert SpaceOk(w.spaces[s]);
  }

  lemma AttachPte(w: World, s: nat, id: nat, start: nat, perm: Perm, tabs: set<Frame>, v: nat)
    requires CanAttach(w, s, id, start, tabs) && |w.shms[id].frames| > 0
    requires Wf(Attaching(w, s, id, start, perm, tabs).spaces[s].areas)
    ensures PteOk(Attaching(w, s, id, start, perm, tabs).spaces[s], v)
  {
    hide Exact, Separate, Exclusive, ShmOk, SpaceOk, Lookup, AllocAll, Bumped, Wf;
    var sp := w.spaces[s];
    var end := start + |w.shms[id].frames| * PAGE_SIZE;
    SpaceFacts(w, s, v);
    InsertedLookup(sp.areas, start, end, Area(Shm(id), perm), v * PAGE_SIZE);
    if NewPage(w, id, start, v) {
      NewPageUnmapped(w, s, id, start, tabs, v);
    }
  }

  lemma AttachShmOk(w: World, s: nat, id: nat, start: nat, perm: Perm, tabs: set<Frame>)
    requires CanAttach(w, s, id, start, tabs)
    ensures ShmOk(Attaching(w, s, id, start, perm, tabs))
  {
    var w' := Attaching(w, s, id, start, perm, tabs);
    forall s2: nat, k: nat, id': nat
      ensures ShmAreaOk(w', s2, k, id')
    {
      assert ShmAreaOk(w, s2, k, id');
      if s2 == s && IsShmArea(w', s, k, id') {
        if k == start {
          forall i | 0 <= i < |w.shms[id].frames|
            ensures Maps(w'.spaces[s].pt, VpnDown(start) + i, w.shms[id].frames[i])
          {
          }
        } else {
          AttachOther(w, s, id, start, perm, tabs, k, id');
        }
      }
    }
  }

  lemma AttachOther(w: World, s: nat, id: nat, start: nat, perm: Perm, tabs: set<Frame>, k: nat, id': nat)
    requires CanAttach(w, s, id, start, tabs) && IsShmArea(w, s, k, id')
    ensures Worlds.Attached(w, s, k, id')
    ensures forall i :: 0 <= i < |w.shms[id'].frames| ==>
              Maps(Attaching(w, s, id, start, perm, tabs).spaces[s].pt, VpnDown(k) + i, w.shms[id'].frames[i])
  {
    ShmAt(w, s, k, id');
    forall i | 0 <= i < |w.shms[id'].frames|
      ensures Maps(Attaching(w, s, id, start, perm, tabs).spaces[s].pt, VpnDown(k) + i, w.shms[id'].frames[i])
    {
      assert Maps(w.spaces[s].pt, VpnDown(k) + i, w.shms[id'].frames[i]);
      if NewPage(w, id, start, VpnDown(k) + i) {
        NewPageUnmapped(w, s, id, start, tabs, VpnDown(k) + i);
      }
    }
  }

  lemma AttachInv(w: World, s: nat, id: nat, start: nat, perm: Perm, tabs: set<Frame>)
    requires CanAttach(w, s, id, start, tabs)
    ensures Inv0(Attaching(w, s, id, start, perm, tabs))
  {
    var w' := Attaching(w, s, id, start, perm, tabs);
    AttachPool(w, s, id, start, perm, tabs);
    AttachSpaceOk(w, s, id, start, perm, tabs);
    AttachShmOk(w, s, id, start, perm, tabs);
    hide SpaceOk, ShmOk, Owns, Owners;
    forall f: Frame
      ensures CountRight(w', f)
    {
      AttachCount(w, s, id, start, perm, tabs, f);
    }
    forall o: Owner, f: Frame
      ensures OwnedKnown(w', o, f)
    {
      AttachKnown(w, s, id, start, perm, tabs, o, f);
    }
    forall a: Owner, b: Owner, f: Frame
      ensures SeparateFor(w', a, b, f)
    {
      AttachSeparateFor(w, s, id, start, perm, tabs, a, b, f);
    }
    forall s2: nat, v2: nat, o: Owner
      ensures ExclusiveFor(w', s2, v2, o)
    {
      AttachExclusiveFor(w, s, id, start, perm, tabs, s2, v2, o);
    }
  }

  // ---- All steps ----

  lemma RawInv(w: World, files: Files, l: Label)
    requires Inv0(w) && Enabled(w, l)
    ensures Inv0(Raw(w, files, l))
  {
    hide Exact, Separate, Exclusive, ShmOk, Owns, Owners, FaultStep, UnmapStep, DetachStep, AttachStep, DropStep,
      ForkStep;
    match l {
      case NewSpace(s, root) => NewSpaceInv(w, s, root);
      case Insert(s, start, end, area) =>
        if !Overlaps(w.spaces[s].areas, start, end) {
          InsertInv(w, s, start, end, area);
        }
      case Grow(s, start, newEnd) => GrowInv(w, s, start, newEnd);
      case Fault(s, v, acc, got, tabs) =>
        assert SpaceOk(w.spaces[s]);
        FaultInv(w, files, s, v, acc, got, tabs);
      case Store(s, v, data) =>
        MappedOk(w, s, v);
        StoreInv(w, w.spaces[s].pt[v].frame, data);
      case Fork(s, c, tabs) => ForkInv(w, s, c, tabs);
      case Unmap(s, start, end) =>
        assert SpaceOk(w.spaces[s]);
        UnmapInv(w, s, start, end);
      case ShmCreate(id, frames, _) => CreateInv(w, id, frames);
      case ShmRetain(id) => HandlesInv(w, id, w.shms[id].handles + 1);
      case ShmRelease(id) => HandlesInv(w, id, w.shms[id].handles - 1);
      case Attach(s, id, start, perm, tabs) =>
        if !Overlaps(w.spaces[s].areas, start, start + |w.shms[id].frames| * PAGE_SIZE) {
          AttachInv(w, s, id, start, perm, tabs);
        }
      case Detach(s, start) => DetachInv(w, s, start);
      case Drop(s) => DropInv(w, s);
    }
  }

  /** Every step keeps the invariant. */
  lemma StepInv(w: World, files: Files, l: Label)
    requires Inv(w) && Enabled(w, l)
    ensures Inv(Step(w, files, l))
  {
    hide Inv0, Raw, Reap, Held;
    RawInv(w, files, l);
    ReapInv(Raw(w, files, l));
  }

  // ---- Shrinking the heap ----

  /** `reduce_back`: an emptied area goes. */
  function Shrunk(m: Areas, start: nat, newEnd: nat): Areas
    requires start in m
  {
    if newEnd == start then m - {start} else m[start := m[start].(end := newEnd)]
  }

  /**
   `reset_heap_break` with a smaller break cuts the area and leaves the page table alone: pages stay
   covered by areas if and only if none of them is mapped in the part that is cut off.
   */
  lemma ShrinkCover(sp: Space, start: nat, newEnd: nat)
    requires SpaceOk(sp) && start in sp.areas && sp.areas[start].area.kind.Anonymous?
    requires start <= newEnd < sp.areas[start].end
    ensures SpaceOk(sp.(areas := Shrunk(sp.areas, start, newEnd))) <==>
            forall v :: v in sp.pt ==> !PageIn(v, newEnd, sp.areas[start].end)
  {
    hide PteOk;
    var m := sp.areas;
    var m' := Shrunk(m, start, newEnd);
    var sp' := sp.(areas := m');
    AreaSide(m, start);
    assert AreasOk(m');
    if v :| v in sp.pt && PageIn(v, newEnd, m[start].end) {
      ShrunkPte(sp, start, newEnd, v);
      assert !PteOk(sp', v);
    } else {
      forall v: nat
        ensures PteOk(sp', v)
      {
        assert PteOk(sp, v);
        ShrunkPte(sp, start, newEnd, v);
      }
    }
  }

  lemma ShrunkPte(sp: Space, start: nat, newEnd: nat, v: nat)
    requires Wf(sp.areas) && start in sp.areas && start <= newEnd < sp.areas[start].end && PteOk(sp, v)
    requires Wf(Shrunk(sp.areas, start, newEnd))
    ensures
      var sp' := sp.(areas := Shrunk(sp.areas, start, newEnd));
      PteOk(sp', v) <==> (v in sp.pt ==> !PageIn(v, newEnd, sp.areas[start].end))
  {
    var m := sp.areas;
    var m' := Shrunk(m, start, newEnd);
    if v in sp.pt {
      if PageIn(v, newEnd, m[start].end) {
        assert Holds(m, start, v * PAGE_SIZE);
        assert forall k: nat :: !Holds(m', k, v * PAGE_SIZE);
      } else {
        assert forall k: nat :: Holds(m', k, v * PAGE_SIZE) <==> Holds(m, k, v * PAGE_SIZE);
      }
    }
  }
}
