/**
 `UserSpace` and `UserAreaManager` as the source runs them (src/process/user_space/mod.rs,
 user_area.rs), over the interval map, the three-level table and physical memory. Each method is
 shown to do what the step on values of the same name says.
 */
module UserSpaceCode {
  import opened Collections
  import opened Options
  import opened Address
  import opened Pte
  import opened UserAreas
  import opened RangeMaps
  import opened Frames
  import opened PageTables
  import opened PageTableCode
  import opened CowMarks
  import opened CowCopy
  import opened Spaces

  predicate Visits(v: nat, lo: nat, hi: nat) { lo <= v < hi }

  /** The pages `iter_vpn` visits. */
  ghost function VpnSet(lo: nat, hi: nat): set<nat> { set v: nat | v < hi && Visits(v, lo, hi) }

  /** An operation that leaves the tables of others alone changes nothing that another space maps. */
  lemma OtherSpaceSame(t: Tables, t': Tables, own: set<Frame>, root: Frame, shape: map<Frame, Slot>)
    requires OthersSame(t, t', own) && WfTables(t, root, shape) && PageTables.Attached(t, root, shape)
    requires shape.Keys !! own
    ensures WfTables(t', root, shape) && PageTables.Attached(t', root, shape)
    ensures Flat(t', root, shape) == Flat(t, root, shape)
  {
    hide WfTables, PageTables.Attached, Flat;
    TreeTables(t, root, shape);
    FlatFrame(t, t', root, shape);
    LeafTableFrame(t, t', root, shape);
  }

  lemma VpnSetNext(lo: nat, v: nat)
    requires lo <= v
    ensures VpnSet(lo, v + 1) == VpnSet(lo, v) + {v} && VpnSet(lo, v) !! {v}
  {
  }

  lemma MapMinus(m: map<nat, Entry>, a: set<nat>, b: set<nat>)
    ensures m - a - b == m - (a + b)
  {
  }

  lemma OthersJoin(a: Tables, b: Tables, c: Tables, own: set<Frame>)
    requires OthersSame(a, b, own) && OthersSame(b, c, own)
    ensures OthersSame(a, c, own)
  {
  }

  /** What a fault takes from the free frames, and that it leaves the tables of other spaces alone. */
  ghost predicate Took(free: set<Frame>, t: Tables, own: set<Frame>, t': Tables, res: FaultResult,
                       got: Option<Frame>, tabs: set<Frame>) {
    && tabs <= free && (got.Some? ==> got.value in free && got.value !in tabs)
    && (res == KernelOOM ==> free == {})
    && OthersSame(t, t', own + tabs)
  }

  lemma TookNothing(free: set<Frame>, t: Tables, own: set<Frame>)
    ensures forall res :: (res == KernelOOM ==> free == {}) ==> Took(free, t, own, t, res, None, {})
  {
  }

  lemma TookOne(free: set<Frame>, t: Tables, own: set<Frame>, t': Tables, f: Frame, tabs: set<Frame>)
    requires f in free && tabs <= free - {f} && OthersSame(t, t', own + tabs)
    ensures Took(free, t, own, t', Done, Some(f), tabs)
  {
  }

  lemma FreshNone(sp: Space, p: Pool, v: nat, perm: Perm)
    ensures forall data: Page :: FaultFresh(sp, p, v, perm, data, None, {}) == (sp, p, KernelOOM)
  {
  }

  lemma FreshSome(sp: Space, p: Pool, v: nat, perm: Perm, data: Page, f: Frame, tabs: set<Frame>)
    ensures FaultFresh(sp, p, v, perm, data, Some(f), tabs) ==
            Installed(sp, Filled(Alloc(p, f), f, data), v, Entry(f, FlagsFor(perm)), tabs)
  {
  }

  lemma AllocMem(p: Pool, f: Frame)
    ensures Alloc(p, f).mem == p.mem
  {
  }

  lemma FreeKnown(p: Pool)
    requires PoolOk(p)
    ensures p.free <= p.mem.Keys
  {
  }

  datatype AttachResult = Attached | Overlap | NoTable

  class UserSpace {
    const table: PageTable
    const areas: RangeMap

    constructor (table: PageTable, areas: RangeMap)
      ensures this.table == table && this.areas == areas
    {
      this.table := table;
      this.areas := areas;
    }

    ghost predicate Valid(pm: PhysMem)
      reads this, table, areas, pm
    {
      && Wf(areas.nodes) && table.Valid(pm)
      && Covers(pm.State(), table.Map(pm)) && Apart(table.Map(pm), table.shape.Keys)
    }

    ghost function State(pm: PhysMem): Space
      requires table.Valid(pm)
      reads this, table, areas, pm
    {
      Space(areas.nodes, table.Map(pm), table.shape.Keys)
    }

    /**
     A fault at `v` meets none of the source's assertions and panics: a present page that does not match
     is write-protected for copy-on-write; shared memory is always mapped; the frame of a file page and
     those of missing tables can be had.
     */
    ghost predicate FaultReady(pm: PhysMem, v: nat, acc: Access)
      requires Valid(pm) && v < USER_VPNS
      reads this, table, areas, pm
    {
      var sp, need := State(pm), Missing(pm.tab, table.root, table.shape, v);
      Lookup(sp.areas, v * PAGE_SIZE).Some? && CanAccess(acc, Lookup(sp.areas, v * PAGE_SIZE).value.perm) ==>
        var cell := Lookup(sp.areas, v * PAGE_SIZE).value;
        && (CowFault(sp, v, cell.perm) ==> sp.pt[v].flags.shared && !sp.pt[v].flags.w && cell.perm.write)
        && (v !in sp.pt ==> !cell.origin.ShmAt? && (cell.origin.FileAt? ==> pm.free != {}))
        && (v !in sp.pt ==> pm.free == {} || need < |pm.free|)
    }

    /**
     `page_fault`; `got` is the frame it allocated, `tabs` are the tables it created. It panics exactly
     when the fault is not ready.
     */
    method PageFault(pm: PhysMem, files: Files, v: nat, acc: Access)
      returns (panics: bool, res: FaultResult, ghost got: Option<Frame>, ghost tabs: set<Frame>)
      requires Valid(pm) && v < USER_VPNS
      modifies table, pm
      ensures panics <==> !old(FaultReady(pm, v, acc))
      ensures !panics ==>
                && table.Valid(pm) && Wf(areas.nodes)
                && (State(pm), pm.State(), res) ==
                   FaultStep(old(State(pm)), old(pm.State()), files, v, acc, got, tabs)
                && Took(old(pm.free), old(pm.tab), old(table.shape.Keys), pm.tab, res, got, tabs)
    {
      hide WfTables, PageTables.Attached, Flat, KernelHalf, Distinct, Covers, Apart, PoolOk, Missing, FaultFresh,
        FaultCow, Wf,
        Took;
      panics, got, tabs := false, None, {};
      TookNothing(pm.free, pm.tab, table.shape.Keys);
      var k := areas.Find(v * PAGE_SIZE);
      if k.None? {
        res := NoSegment;
        return;
      }
      var area := areas.nodes[k.value].area;
      if !CanAccess(acc, area.perm) {
        res := PermUnmatch;
        return;
      }
      var pte := table.GetPte(pm, v);
      res := Done;
      if pte.Some? {
        if MatchPerm(pte.value.flags, area.perm) {
          return;
        }
        if !(pte.value.flags.shared && !pte.value.flags.w && area.perm.write) {
          panics := true;
          return;
        }
        res, got, tabs := CopyOnWrite(pm, v, area.perm);
      } else {
        panics := area.kind.Shm? || (area.kind.Private? && pm.free == {});
        if !panics {
          var data := match area.kind
            case Private(file, offset) => files(file, Floor(offset + (v * PAGE_SIZE - k.value)))
            case _ => ZeroPage();
          panics, res, got, tabs := MapFresh(pm, v, area.perm, None, data);
        }
      }
    }

    /** A new frame, filled from `from` or with `data`, is mapped at `v`; panics without a frame for a table. */
    method MapFresh(pm: PhysMem, v: nat, perm: Perm, from: Option<Frame>, data: Page)
      returns (panics: bool, res: FaultResult, ghost got: Option<Frame>, ghost tabs: set<Frame>)
      requires table.Valid(pm) && v < USER_VPNS && (from.Some? ==> from.value in pm.mem)
      modifies table, pm
      ensures panics <==> old(pm.free != {} && |pm.free| <= Missing(pm.tab, table.root, table.shape, v))
      ensures !panics ==>
                && table.Valid(pm)
                && (State(pm), pm.State(), res) ==
                   FaultFresh(old(State(pm)), old(pm.State()), v, perm,
                              if from.Some? then Content(old(pm.State()), from.value) else data, got, tabs)
                && Took(old(pm.free), old(pm.tab), old(table.shape.Keys), pm.tab, res, got, tabs)
    {
      hide WfTables, PageTables.Attached, Flat, KernelHalf, Distinct, OthersSame, Missing, PoolOk, Took, AllocAll,
        FaultFresh, Installed, Filled;
      OthersRefl(pm.tab, table.shape.Keys + {});
      TookNothing(pm.free, pm.tab, table.shape.Keys);
      FreeKnown(pm.State());
      ghost var sp, p := State(pm), pm.State();
      panics, tabs := false, {};
      var r := pm.AllocFrame();
      got := r;
      if r.None? {
        FreshNone(sp, p, v, perm);
        res := KernelOOM;
        return;
      }
      AllocAllFree(old(pm.State()), {r.value});
      AllocFree(old(pm.State()), r.value, table.shape.Keys);
      AllocMem(old(pm.State()), r.value);
      res := Done;
      var need := table.TablesNeeded(pm, v);
      if need > |pm.free| {
        panics := true;
        return;
      }
      var bytes := if from.Some? then pm.mem[from.value] else data;
      tabs := FillAndMap(pm, v, r.value, bytes, perm);
      FreshSome(sp, p, v, perm, bytes, r.value, tabs);
      TookOne(old(pm.free), old(pm.tab), old(table.shape.Keys), pm.tab, r.value, tabs);
    }

    /** The page of an allocated frame is filled and mapped. */
    method FillAndMap(pm: PhysMem, v: nat, f: Frame, data: Page, perm: Perm) returns (ghost tabs: set<Frame>)
      requires table.Valid(pm) && v < USER_VPNS && f in pm.mem
      requires Missing(pm.tab, table.root, table.shape, v) <= |pm.free|
      modifies table, pm
      ensures table.Valid(pm) && tabs <= old(pm.free)
      ensures (State(pm), pm.State(), Done) ==
              Installed(old(State(pm)), Filled(old(pm.State()), f, data), v, Entry(f, FlagsFor(perm)), tabs)
      ensures OthersSame(old(pm.tab), pm.tab, old(table.shape.Keys) + tabs)
    {
      hide WfTables, PageTables.Attached, Flat, KernelHalf, Distinct, OthersSame, AllocAll, Missing;
      pm.FillPage(f, data);
      ghost var s, t, p := table.shape, pm.tab, pm.State();
      tabs := table.RemapPage(pm, v, f, FlagsFor(perm));
      GrownTabs(s, t, p, table.shape, pm.tab, pm.State(), tabs);
    }

    /** A write to a page that a fork has write-protected. */
    method CopyOnWrite(pm: PhysMem, v: nat, perm: Perm)
      returns (res: FaultResult, ghost got: Option<Frame>, ghost tabs: set<Frame>)
      requires Valid(pm) && v < USER_VPNS && v in table.Map(pm)
      modifies table, pm
      ensures table.Valid(pm)
      ensures (State(pm), pm.State(), res) == FaultCow(old(State(pm)), old(pm.State()), v, perm, got, tabs)
      ensures Took(old(pm.free), old(pm.tab), old(table.shape.Keys), pm.tab, res, got, tabs)
    {
      hide WfTables, PageTables.Attached, Flat, KernelHalf, Distinct, Covers, Apart, OthersSame, PoolOk, AllocAll;
      CoversAt(pm.State(), table.Map(pm), v);
      MappedPresent(pm.tab, table.root, table.shape, v);
      var pte := table.GetPte(pm, v);
      if pm.count[pte.value.frame] > 1 {
        res, got, tabs := CopyShared(pm, v, perm, pte.value.frame);
      } else {
        got := None;
        tabs := table.RemapPage(pm, v, pte.value.frame, FlagsFor(perm));
        GrownTabs(old(table.shape), old(pm.tab), old(pm.State()), table.shape, pm.tab, pm.State(), tabs);
        res := Done;
      }
    }

    method CopyShared(pm: PhysMem, v: nat, perm: Perm, frame: Frame)
      returns (res: FaultResult, ghost got: Option<Frame>, ghost tabs: set<Frame>)
      requires table.Valid(pm) && v < USER_VPNS && v in table.Map(pm) && frame == table.Map(pm)[v].frame
      requires frame in pm.count && pm.count[frame] > 1
      modifies table, pm
      ensures table.Valid(pm)
      ensures (State(pm), pm.State(), res) == FaultCow(old(State(pm)), old(pm.State()), v, perm, got, tabs)
      ensures Took(old(pm.free), old(pm.tab), old(table.shape.Keys), pm.tab, res, got, tabs)
    {
      hide WfTables, PageTables.Attached, Flat, KernelHalf, Distinct, OthersSame, PoolOk, AllocAll;
      MappedPresent(pm.tab, table.root, table.shape, v);
      DecreaseOk(pm.State(), frame);
      pm.DecreaseCount(frame);
      var panics;
      panics, res, got, tabs := MapFresh(pm, v, perm, Some(frame), ZeroPage());
    }

    /** A mapped page loses its entry, and its frame one reference. */
    method DropPage(pm: PhysMem, v: nat)
      requires Valid(pm) && v < USER_VPNS && v in table.Map(pm)
      modifies pm
      ensures Valid(pm) && table.Map(pm) == old(table.Map(pm)) - {v}
      ensures pm.State() == DropRefs(old(pm.State()), old(table.Map(pm)), {v})
      ensures OthersSame(old(pm.tab), pm.tab, table.shape.Keys)
    {
      hide WfTables, PageTables.Attached, Flat, KernelHalf, DropRefs, Distinct, OthersSame;
      ghost var m: map<nat, Entry>, p := table.Map(pm), pm.State();
      DropCovers(p, m, {v});
      CoversAt(p, m, v);
      DropOne(p, m, v);
      ReleaseFree(p, m[v].frame, table.shape.Keys);
      var frame := table.UnmapPage(pm, v);
      pm.DecreaseAndTryDealloc(frame);
    }

    method ReleasePage(pm: PhysMem, v: nat)
      requires Valid(pm) && v < USER_VPNS
      modifies pm
      ensures Valid(pm) && table.Map(pm) == old(table.Map(pm)) - {v}
      ensures pm.State() == DropRefs(old(pm.State()), old(table.Map(pm)), {v})
      ensures OthersSame(old(pm.tab), pm.tab, table.shape.Keys)
    {
      hide WfTables, PageTables.Attached, Flat, KernelHalf, DropRefs, Distinct, OthersSame, Covers, Apart, PoolOk;
      var pte := table.GetPte(pm, v);
      if pte.None? {
        DropNone(pm.State(), table.Map(pm), {v});
        assert table.Map(pm) - {v} == table.Map(pm);
        OthersRefl(pm.tab, table.shape.Keys);
        return;
      }
      DropPage(pm, v);
    }

    /** `release_range`: every mapped page that meets the range loses its entry and its reference. */
    method ReleaseRange(pm: PhysMem, start: nat, end: nat)
      requires Valid(pm) && end <= USER_END
      modifies pm
      ensures Valid(pm)
      ensures
        var pages := VpnSet(VpnLo(start), VpnHi(end));
        && table.Map(pm) == old(table.Map(pm)) - pages
        && pm.State() == DropRefs(old(pm.State()), old(table.Map(pm)), pages)
      ensures OthersSame(old(pm.tab), pm.tab, table.shape.Keys)
    {
      hide WfTables, PageTables.Attached, Flat, KernelHalf, DropRefs, Covers, Distinct, PoolOk, OthersSame, VpnSet,
        Apart;
      ghost var m0, p0, t0 := table.Map(pm), pm.State(), pm.tab;
      var v := VpnLo(start);
      ghost var lo := v;
      VpnSetEmpty(lo, lo);
      VpnSetEmpty(lo, VpnHi(end));
      DropNone(p0, m0, {});
      OthersRefl(t0, table.shape.Keys);
      assert m0 - {} == m0;
      while v < VpnHi(end)
        invariant lo <= v && (lo <= VpnHi(end) ==> v <= VpnHi(end)) && (VpnHi(end) < lo ==> v == lo)
        invariant Valid(pm)
        invariant table.Map(pm) == m0 - VpnSet(lo, v)
        invariant pm.State() == DropRefs(p0, m0, VpnSet(lo, v))
        invariant OthersSame(t0, pm.tab, table.shape.Keys)
      {
        ghost var t := pm.tab;
        VpnSetNext(lo, v);
        DropTwice(p0, m0, VpnSet(lo, v), {v});
        MapMinus(m0, VpnSet(lo, v), {v});
        ReleasePage(pm, v);
        OthersJoin(t0, t, pm.tab, table.shape.Keys);
        v := v + 1;
      }
    }

    /** `unmap_range` */
    method UnmapRange(pm: PhysMem, start: nat, end: nat)
      requires Valid(pm) && Tidy(areas.nodes, table.Map(pm)) && start < end && Aligned(start)
      requires NoShmCut(areas.nodes, start, end)
      modifies pm, areas
      ensures Valid(pm)
      ensures
        var r := UnmapStep(old(State(pm)), old(pm.State()), start, end);
        State(pm) == r.0 && pm.State() == r.1
      ensures OthersSame(old(pm.tab), pm.tab, table.shape.Keys)
    {
      hide WfTables, PageTables.Attached, Flat, KernelHalf, DropRefs, Covers, Distinct, PoolOk, OthersSame, VpnSet,
        Apart,
        Removed, NoShmCut;
      ghost var m0: map<nat, Entry>, p0, n0 := table.Map(pm), pm.State(), areas.nodes;
      var released := areas.Remove(start, end);
      PiecesEnd(n0, m0, areas.nodes, released, start, end);
      ReleasePieces(pm, released);
      PiecesArePages(n0, m0, areas.nodes, released, start, end);
      DropSame(p0, m0, PiecePages(released), PagesIn(start, end));
    }

    /** `clone_cow` */
    method CloneCow(pm: PhysMem) returns (child: UserSpace)
      requires Valid(pm) && Mapped(table.Map(pm), pm.State()) && |table.shape.Keys| <= |pm.free|
      modifies pm
      ensures fresh(child.table) && fresh(child.areas) && table.Valid(pm) && child.table.Valid(pm)
      ensures child.table.kernel == table.kernel
      ensures child.table.shape.Keys <= old(pm.free) && child.table.shape.Keys !! table.shape.Keys
      ensures (State(pm), child.State(pm), pm.State()) ==
              ForkStep(old(State(pm)), old(pm.State()), child.table.shape.Keys)
      ensures OthersSame(old(pm.tab), pm.tab, table.shape.Keys + child.table.shape.Keys)
    {
      hide WfTables, PageTables.Attached, Flat, KernelHalf, Distinct, Covers, Apart, OthersSame, PoolOk, Marked,
        Shared, Mapped;
      var newTable := CopyTableAndMarkSelfCow(table, pm);
      var newAreas := new RangeMap();
      newAreas.nodes := areas.nodes;
      child := new UserSpace(newTable, newAreas);
    }

    /**
     `attach_shm` at a given address. `NoTable` is the case where a page-table frame cannot be had,
     on which the source panics.
     */
    method AttachShm(pm: PhysMem, start: nat, id: nat, frames: seq<Frame>, perm: Perm)
      returns (res: AttachResult, ghost tabs: set<Frame>)
      requires Valid(pm) && Tidy(areas.nodes, table.Map(pm)) && Distinct(frames) && |frames| > 0
      requires Aligned(start) && start + |frames| * PAGE_SIZE <= USER_END
      requires forall f :: f in frames ==> f in pm.count && f !in pm.free
      modifies table, pm, areas
      ensures res == Overlap <==> Overlaps(old(areas.nodes), start, start + |frames| * PAGE_SIZE)
      ensures res == Overlap ==> Valid(pm) && State(pm) == old(State(pm)) && pm.State() == old(pm.State())
      ensures res == NoTable ==> |old(pm.free)| < 2 * |frames|
      ensures res == Attached ==>
                && table.Valid(pm) && Wf(areas.nodes) && tabs <= old(pm.free)
                && OthersSame(old(pm.tab), pm.tab, old(table.shape.Keys) + tabs)
                && (State(pm), pm.State()) == AttachStep(old(State(pm)), old(pm.State()), start, id, frames, perm, tabs)
    {
      hide WfTables, PageTables.Attached, Flat, KernelHalf, Covers, Distinct, PoolOk, Apart, Attaching, AttachStep,
        OthersSame,
        NoneMapped, Wf;
      tabs := {};
      var ok := areas.TryInsert(start, start + |frames| * PAGE_SIZE, Area(Shm(id), perm));
      if !ok {
        return Overlap, {};
      }
      NotMapped(old(areas.nodes), table.Map(pm), start, |frames|);
      ghost var sp, p, t := State(pm), pm.State(), pm.tab;
      res, tabs := MapSegment(pm, VpnDown(start), frames, perm);
      if res == Attached {
        AttachingAll(sp, old(areas.nodes), p, t, start, id, frames, perm, tabs, State(pm), pm.State(), pm.tab);
      }
    }

    /** The loop of `attach_shm`. */
    method MapSegment(pm: PhysMem, lo: nat, frames: seq<Frame>, perm: Perm)
      returns (res: AttachResult, ghost tabs: set<Frame>)
      requires table.Valid(pm) && Distinct(frames) && lo + |frames| <= USER_VPNS
      requires forall f :: f in frames ==> f in pm.count && f !in pm.free
      requires NoneMapped(table.Map(pm), lo, |frames|)
      modifies table, pm
      ensures res != Overlap
      ensures res == NoTable ==> |old(pm.free)| < 2 * |frames|
      ensures res == Attached ==>
                && table.Valid(pm)
                && Attaching(old(State(pm)), old(pm.State()), old(pm.tab), lo, frames, |frames|, perm, tabs,
                             State(pm), pm.State(), pm.tab)
    {
      hide WfTables, PageTables.Attached, Flat, KernelHalf, Distinct, PoolOk, Attaching, OneMapped, NoneMapped;
      ghost var sp, p, t0 := State(pm), pm.State(), pm.tab;
      tabs := {};
      AttachingNone(sp, p, t0, lo, frames, perm);
      for i := 0 to |frames|
        invariant table.Valid(pm) && Attaching(sp, p, t0, lo, frames, i, perm, tabs, State(pm), pm.State(), pm.tab)
      {
        ghost var sp1, p1, t1 := State(pm), pm.State(), pm.tab;
        AttachingKnown(sp, p, t0, lo, frames, i, perm, tabs, sp1, p1, t1, frames[i]);
        var ok, more := MapOne(pm, lo + i, frames[i], perm);
        if !ok {
          return NoTable, tabs;
        }
        AttachingMore(sp, p, t0, lo, frames, i, perm, tabs, more, sp1, p1, t1, State(pm), pm.State(), pm.tab);
        tabs := tabs + more;
      }
      res := Attached;
    }

    /** `increase` and `map_page`, which asserts that the page is not mapped yet. */
    method MapOne(pm: PhysMem, v: nat, f: Frame, perm: Perm) returns (ok: bool, ghost news: set<Frame>)
      requires table.Valid(pm) && v < USER_VPNS && v !in table.Map(pm) && f in pm.count && f !in pm.free
      modifies table, pm
      ensures !ok ==> |old(pm.free)| < 2
      ensures ok ==>
                && table.Valid(pm)
                && OneMapped(old(State(pm)), old(pm.State()), old(pm.tab), v, f, perm, news, State(pm), pm.State(), pm.tab)
    {
      hide WfTables, PageTables.Attached, Flat, KernelHalf, Distinct, Bumped, PoolOk, AllocAll, Missing, Grown;
      news := {};
      BumpOne(pm.State(), f);
      pm.Increase(f);
      var need := table.TablesNeeded(pm, v);
      if need > |pm.free| {
        MissingFew(pm.tab, table.root, table.shape, v);
        return false, {};
      }
      ghost var s, t, p := table.shape, pm.tab, pm.State();
      news := table.RemapPage(pm, v, f, FlagsFor(perm));
      GrownTabs(s, t, p, table.shape, pm.tab, pm.State(), news);
      ok := true;
    }

    /** `detach_shm` of the area around `vaddr`; the source panics on a page of it that is not mapped. */
    method DetachShm(pm: PhysMem, vaddr: nat) returns (ok: bool)
      requires Valid(pm) && Tidy(areas.nodes, table.Map(pm))
      requires Get(areas.nodes, vaddr).Some? ==>
                 var k := Get(areas.nodes, vaddr).value;
                 PagesIn(k, areas.nodes[k].end) <= table.Map(pm).Keys
      modifies pm, areas
      ensures Valid(pm) && (ok <==> Get(old(areas.nodes), vaddr).Some?)
      ensures !ok ==> State(pm) == old(State(pm)) && pm.State() == old(pm.State())
      ensures ok ==> (State(pm), pm.State()) ==
                     DetachStep(old(State(pm)), old(pm.State()), Get(old(areas.nodes), vaddr).value)
      ensures OthersSame(old(pm.tab), pm.tab, table.shape.Keys)
    {
      hide WfTables, PageTables.Attached, Flat, KernelHalf, DropRefs, Covers, Distinct, PoolOk, OthersSame, VpnSet,
        Apart, PagesIn;
      OthersRefl(pm.tab, table.shape.Keys);
      var k := areas.Find(vaddr);
      if k.None? {
        return false;
      }
      var start := k.value;
      var end := areas.nodes[start].end;
      var _ := areas.ForceRemoveOne(start, end);
      VpnSetIsPages(start, end);
      DropAll(pm, start, end);
      ok := true;
    }

    /** The loop of `detach_shm`. */
    method DropAll(pm: PhysMem, start: nat, end: nat)
      requires Valid(pm) && start < end <= USER_END && VpnSet(VpnLo(start), VpnHi(end)) <= table.Map(pm).Keys
      modifies pm
      ensures Valid(pm)
      ensures
        var pages := VpnSet(VpnLo(start), VpnHi(end));
        && table.Map(pm) == old(table.Map(pm)) - pages
        && pm.State() == DropRefs(old(pm.State()), old(table.Map(pm)), pages)
      ensures OthersSame(old(pm.tab), pm.tab, table.shape.Keys)
    {
      hide WfTables, PageTables.Attached, Flat, KernelHalf, DropRefs, Covers, Distinct, PoolOk, OthersSame, VpnSet,
        Apart;
      ghost var m0: map<nat, Entry>, p0, t0 := table.Map(pm), pm.State(), pm.tab;
      OthersRefl(t0, table.shape.Keys);
      var v, hi := VpnLo(start), VpnHi(end);
      ghost var lo := v;
      VpnSetEmpty(lo, lo);
      DropNone(p0, m0, {});
      assert m0 - {} == m0;
      while v < hi
        invariant lo <= v <= hi && Valid(pm)
        invariant table.Map(pm) == m0 - VpnSet(lo, v)
        invariant pm.State() == DropRefs(p0, m0, VpnSet(lo, v))
        invariant OthersSame(t0, pm.tab, table.shape.Keys)
      {
        ghost var t := pm.tab;
        VpnSetNext(lo, v);
        VpnSetHas(lo, hi, v);
        DropTwice(p0, m0, VpnSet(lo, v), {v});
        MapMinus(m0, VpnSet(lo, v), {v});
        DropPage(pm, v);
        OthersJoin(t0, t, pm.tab, table.shape.Keys);
        v := v + 1;
      }
    }

    /**
     `Drop for UserSpace`: every area is released, then the page table. No user page is left by then, so
     the debug checks panic only for a table with another reference or a user page in the kernel half.
     */
    method DropSpace(pm: PhysMem) returns (panics: bool)
      requires Valid(pm) && Tidy(areas.nodes, table.Map(pm))
      modifies pm
      ensures panics <==> !(CleanKernel(table.kernel) && CountedOnce(old(pm.State()), table.shape.Keys))
      ensures !panics ==> PoolOk(pm.State()) && pm.State() == DropStep(old(State(pm)), old(pm.State()))
      ensures OthersSame(old(pm.tab), pm.tab, table.shape.Keys)
    {
      hide WfTables, PageTables.Attached, Flat, KernelHalf, DropRefs, Covers, Distinct, PoolOk, OthersSame, VpnSet,
        Apart, PiecePages, AreaPages, Freed, CleanKernel;
      ghost var m: map<nat, Entry>, p := table.Map(pm), pm.State();
      var ps := AllPieces();
      ReleasePieces(pm, ps);
      AllPiecesPages(areas.nodes, m, ps);
      AllCovered(areas.nodes, m);
      assert table.Map(pm) == map[];
      DropSame(p, m, PiecePages(ps), AreaPages(areas.nodes));
      DropKeepsTables(p, m, PiecePages(ps), table.shape.Keys);
      DroppableExact(p, pm.State(), pm.tab, table.root, table.shape, table.kernel);
      panics := table.DropTables(pm);
    }

    /** `areas.iter()`: the ranges in ascending order. */
    method AllPieces() returns (ps: seq<Piece>)
      requires Wf(areas.nodes) && forall k :: k in areas.nodes ==> areas.nodes[k].end <= USER_END
      ensures forall i :: 0 <= i < |ps| ==> IsNode(areas.nodes, ps[i])
      ensures forall k :: k in areas.nodes ==> Piece(k, areas.nodes[k].end, areas.nodes[k].area) in ps
    {
      hide LeastIn;
      ps := [];
      var at := 0;
      var next := LeastIn(areas.nodes.Keys, at, USER_END);
      while next.Some?
        invariant next == LeastIn(areas.nodes.Keys, at, USER_END)
        invariant forall i :: 0 <= i < |ps| ==> IsNode(areas.nodes, ps[i])
        invariant forall k :: k in areas.nodes && k < at ==> Piece(k, areas.nodes[k].end, areas.nodes[k].area) in ps
        decreases USER_END - at
      {
        var k := next.value;
        ps := ps + [Piece(k, areas.nodes[k].end, areas.nodes[k].area)];
        at := k + 1;
        next := LeastIn(areas.nodes.Keys, at, USER_END);
      }
    }

    /** `release_range` on every piece. */
    method ReleasePieces(pm: PhysMem, ps: seq<Piece>)
      requires Valid(pm) && forall i :: 0 <= i < |ps| ==> ps[i].end <= USER_END
      modifies pm
      ensures Valid(pm)
      ensures table.Map(pm) == old(table.Map(pm)) - PiecePages(ps)
      ensures pm.State() == DropRefs(old(pm.State()), old(table.Map(pm)), PiecePages(ps))
      ensures OthersSame(old(pm.tab), pm.tab, table.shape.Keys)
    {
      hide WfTables, PageTables.Attached, Flat, KernelHalf, DropRefs, Covers, Distinct, PoolOk, OthersSame, VpnSet,
        Apart,
        PiecePages;
      ghost var m0: map<nat, Entry>, p0, t0 := table.Map(pm), pm.State(), pm.tab;
      NoPieces();
      DropNone(p0, m0, {});
      OthersRefl(t0, table.shape.Keys);
      assert m0 - {} == m0 && ps[..0] == [];
      for i := 0 to |ps|
        invariant Valid(pm)
        invariant table.Map(pm) == m0 - PiecePages(ps[..i])
        invariant pm.State() == DropRefs(p0, m0, PiecePages(ps[..i]))
        invariant OthersSame(t0, pm.tab, table.shape.Keys)
      {
        ghost var t, pages := pm.tab, VpnSet(VpnLo(ps[i].start), VpnHi(ps[i].end));
        DropAgain(p0, m0, PiecePages(ps[..i]), pages);
        MapMinus(m0, PiecePages(ps[..i]), pages);
        MorePieces(ps[..i], ps[i]);
        assert ps[..i] + [ps[i]] == ps[..i + 1];
        ReleaseRange(pm, ps[i].start, ps[i].end);
        OthersJoin(t0, t, pm.tab, table.shape.Keys);
      }
      assert ps[..|ps|] == ps;
    }
  }

  /** No mapped frame is a table of the space. */
  ghost predicate Apart(pt: map<nat, Entry>, tables: set<Frame>) {
    forall v: nat :: v in pt ==> pt[v].frame !in tables
  }

  lemma ReleaseFree(p: Pool, f: Frame, tables: set<Frame>)
    requires f !in tables && tables !! p.free && tables <= p.count.Keys
    ensures tables !! Release(p, f).free && tables <= Release(p, f).count.Keys
  {
  }

  lemma VpnSetHas(lo: nat, hi: nat, v: nat)
    requires lo <= v < hi
    ensures v in VpnSet(lo, hi) && v !in VpnSet(lo, v)
  {
    assert Visits(v, lo, hi);
  }

  lemma VpnSetEmpty(lo: nat, hi: nat)
    ensures hi <= lo ==> VpnSet(lo, hi) == {}
  {
  }

  lemma OthersRefl(t: Tables, own: set<Frame>)
    ensures OthersSame(t, t, own)
  {
  }

  lemma CoversAt(p: Pool, pt: map<nat, Entry>, v: nat)
    requires Covers(p, pt) && v in pt
    ensures pt[v].frame in p.count && p.count[pt[v].frame] > 0
  {
    assert v in RefsIn(pt, pt.Keys, pt[v].frame);
  }

  /** Areas begin at page boundaries in the user half, and every mapped page is covered. */
  ghost predicate Tidy(m: Areas, pt: map<nat, Entry>) {
    && (forall k :: k in m ==> Aligned(k) && m[k].end <= USER_END)
    && (forall v: nat :: v in pt ==> Covered(m, v))
  }

  ghost function PiecePages(ps: seq<Piece>): set<nat> {
    if ps == [] then {}
    else PiecePages(ps[..|ps| - 1]) + VpnSet(VpnLo(ps[|ps| - 1].start), VpnHi(ps[|ps| - 1].end))
  }

  lemma NoPieces()
    ensures PiecePages([]) == {}
  {
  }

  lemma MorePieces(ps: seq<Piece>, p: Piece)
    ensures PiecePages(ps + [p]) == PiecePages(ps) + VpnSet(VpnLo(p.start), VpnHi(p.end))
  {
    assert (ps + [p])[..|ps|] == ps;
  }

  lemma {:induction false} PiecePagesAre(ps: seq<Piece>, v: nat)
    requires forall i :: 0 <= i < |ps| ==> Aligned(ps[i].start)
    ensures v in PiecePages(ps) <==> InSome(ps, v * PAGE_SIZE)
  {
    if ps == [] {
    } else {
      var n := |ps| - 1;
      PiecePagesAre(ps[..n], v);
      AlignedRangePages(ps[n].start, ps[n].end, v);
      if InSome(ps, v * PAGE_SIZE) {
        var i :| 0 <= i < |ps| && InPiece(ps[i], v * PAGE_SIZE);
        if i < n {
          assert InPiece(ps[..n][i], v * PAGE_SIZE);
        }
      }
      if InSome(ps[..n], v * PAGE_SIZE) {
        var i :| 0 <= i < n && InPiece(ps[..n][i], v * PAGE_SIZE);
        assert InPiece(ps[i], v * PAGE_SIZE);
      }
    }
  }

  lemma PiecesEnd(m: Areas, pt: map<nat, Entry>, now: Areas, ps: seq<Piece>, start: nat, end: nat)
    requires Wf(m) && Wf(now) && Tidy(m, pt) && Conserved(m, now, ps, start, end) && PiecesOf(m, ps)
    ensures forall i :: 0 <= i < |ps| ==> ps[i].end <= USER_END
  {
    forall i | 0 <= i < |ps|
      ensures ps[i].end <= USER_END
    {
      var a: nat := ps[i].end - 1;
      assert InPiece(ps[i], a);
      assert Lookup(m, a) == Some(CellOf(ps[i].area, a - ps[i].start));
      assert Holds(m, Get(m, a).value, a);
    }
  }

  /** The released pieces are exactly the mapped pages of the range. */
  lemma PiecesArePages(m: Areas, pt: map<nat, Entry>, now: Areas, ps: seq<Piece>, start: nat, end: nat)
    requires Wf(m) && Tidy(m, pt) && start < end && Aligned(start) && NoShmCut(m, start, end)
    requires now == Removed(m, start, end) && Wf(now)
    requires Conserved(m, now, ps, start, end) && BeginsRight(m, ps, start)
    ensures forall v :: v in pt ==> (v in PiecePages(ps) <==> v in PagesIn(start, end))
  {
    hide Removed;
    forall v: nat | v in pt
      ensures v in PiecePages(ps) <==> v in PagesIn(start, end)
    {
      var a := v * PAGE_SIZE;
      PiecePagesAre(ps, v);
      RemovedLookup(m, start, end, a);
      var k: nat :| Holds(m, k, a);
      assert Lookup(m, a).Some?;
      assert v in PagesIn(start, end) <==> PageIn(v, start, end);
      if InSome(ps, a) {
        var i :| 0 <= i < |ps| && InPiece(ps[i], a);
        assert PageIn(v, start, end);
      }
    }
  }

  lemma MappedPresent(t: Tables, root: Frame, shape: map<Frame, Slot>, v: nat)
    requires WfTables(t, root, shape) && v < USER_VPNS && v in Flat(t, root, shape)
    ensures Missing(t, root, shape, v) == 0
  {
  }

  lemma DecreaseOk(p: Pool, f: Frame)
    requires PoolOk(p) && f in p.count && p.count[f] > 1
    ensures PoolOk(Decrease(p, f)) && f in p.mem && Decrease(p, f).free == p.free
    ensures Decrease(p, f).count.Keys == p.count.Keys
  {
  }

  lemma GrownTabs(s0: map<Frame, Slot>, t0: Tables, p0: Pool, s1: map<Frame, Slot>, t1: Tables, p1: Pool,
                  news: set<Frame>)
    requires Grown(s0, t0, p0, s1, t1, p1, news)
    ensures news <= p0.free && p1 == AllocAll(p0, news) && s1.Keys == s0.Keys + news
    ensures OthersSame(t0, t1, s0.Keys + news)
  {
  }

  lemma VpnSetIsPages(start: nat, end: nat)
    requires Aligned(start)
    ensures VpnSet(VpnLo(start), VpnHi(end)) == PagesIn(start, end)
  {
    forall v: nat
      ensures v in VpnSet(VpnLo(start), VpnHi(end)) <==> v in PagesIn(start, end)
    {
      AlignedRangePages(start, end, v);
      assert Visits(v, VpnLo(start), VpnHi(end)) <==> PageIn(v, start, end);
    }
  }

  predicate IsNode(m: Areas, p: Piece) {
    p.start in m && m[p.start] == Node(p.end, p.area)
  }

  lemma AllPiecesPages(m: Areas, pt: map<nat, Entry>, ps: seq<Piece>)
    requires Wf(m) && Tidy(m, pt) && forall i :: 0 <= i < |ps| ==> IsNode(m, ps[i])
    requires forall k :: k in m ==> Piece(k, m[k].end, m[k].area) in ps
    ensures forall v :: v in pt ==> (v in PiecePages(ps) <==> v in AreaPages(m))
  {
    forall v: nat | v in pt
      ensures v in PiecePages(ps) <==> v in AreaPages(m)
    {
      PiecePagesAre(ps, v);
      var k: nat :| Holds(m, k, v * PAGE_SIZE);
      var i :| 0 <= i < |ps| && ps[i] == Piece(k, m[k].end, m[k].area);
      assert InPiece(ps[i], v * PAGE_SIZE);
    }
  }

  /** References to tables are not among those that pages drop. */
  lemma DropKeepsTables(p: Pool, pt: map<nat, Entry>, pages: set<nat>, tables: set<Frame>)
    requires Apart(pt, tables) && tables <= p.count.Keys
    ensures forall f :: f in tables ==> f in DropRefs(p, pt, pages).count && DropRefs(p, pt, pages).count[f] == p.count[f]
  {
    forall f | f in tables
      ensures RefsIn(pt, pages, f) == {}
    {
    }
  }

  predicate CountedOnce(p: Pool, fs: set<Frame>) { forall f :: f in fs ==> f in p.count && p.count[f] == 1 }

  lemma DroppableExact(p: Pool, p1: Pool, t: Tables, root: Frame, shape: map<Frame, Slot>, kernel: seq<Entry>)
    requires WfTables(t, root, shape) && PageTables.Attached(t, root, shape) && KernelHalf(t, root, kernel)
    requires Flat(t, root, shape) == map[] && shape.Keys <= p.count.Keys
    requires forall f :: f in shape ==> f in p1.count && p1.count[f] == p.count[f]
    ensures (exists f :: f in shape && !Droppable(p1, t, f)) <==>
            !(CleanKernel(kernel) && CountedOnce(p, shape.Keys))
  {
    hide WfTables, PageTables.Attached, Flat, KernelHalf, CleanKernel, CleanTable;
    CleanExact(t, root, shape, kernel);
    if !CleanKernel(kernel) {
      var f :| f in shape && !CleanTable(t, f);
      assert !Droppable(p1, t, f);
    } else if !CountedOnce(p, shape.Keys) {
      var f :| f in shape.Keys && !(f in p.count && p.count[f] == 1);
      assert f in shape && !Droppable(p1, t, f);
    }
  }

  /** Every mapped page of a tidy space lies in an area. */
  lemma AllCovered(m: Areas, pt: map<nat, Entry>)
    requires Tidy(m, pt)
    ensures forall v :: v in pt ==> v in AreaPages(m)
  {
    forall v | v in pt
      ensures v in AreaPages(m)
    {
      var k: nat :| Holds(m, k, v * PAGE_SIZE);
    }
  }

  ghost predicate NoneMapped(pt: map<nat, Entry>, lo: nat, n: nat) {
    forall v: nat :: v in pt ==> !(lo <= v < lo + n)
  }

  /** A page of a free range is not mapped. */
  lemma NotMapped(m: Areas, pt: map<nat, Entry>, start: nat, n: nat)
    requires Tidy(m, pt) && Aligned(start) && !Overlaps(m, start, start + n * PAGE_SIZE)
    ensures NoneMapped(pt, VpnDown(start), n)
  {
    forall v: nat | v in pt
      ensures !(VpnDown(start) <= v < VpnDown(start) + n)
    {
      var k: nat :| Holds(m, k, v * PAGE_SIZE);
      assert m[k].end <= start || start + n * PAGE_SIZE <= k;
    }
  }

  ghost function MappedOne(sp: Space, p: Pool, v: nat, f: Frame, perm: Perm, tabs: set<Frame>): (Space, Pool) {
    (Space(sp.areas, sp.pt[v := Entry(f, FlagsFor(perm))], sp.tables + tabs), AllocAll(Bumped(p, {f}), tabs))
  }

  /** `map_page` and what it takes and leaves alone. */
  ghost predicate OneMapped(sp: Space, p: Pool, t: Tables, v: nat, f: Frame, perm: Perm, news: set<Frame>,
                            sp': Space, p': Pool, t': Tables) {
    && news <= p.free && |news| <= 2 && OthersSame(t, t', sp.tables + news)
    && (sp', p') == MappedOne(sp, p, v, f, perm, news)
  }

  /** `attach_shm` after its first `i` frames. */
  ghost predicate Attaching(sp0: Space, p0: Pool, t0: Tables, lo: nat, frames: seq<Frame>, i: nat, perm: Perm,
                            tabs: set<Frame>, sp: Space, p: Pool, t: Tables)
    requires i <= |frames|
  {
    && tabs <= p0.free && |tabs| <= 2 * i
    && sp == Space(sp0.areas, sp0.pt + SegmentEntries(lo, frames[..i], perm), sp0.tables + tabs)
    && p == AllocAll(Bumped(p0, SetOf(frames[..i])), tabs)
    && OthersSame(t0, t, sp0.tables + tabs)
  }

  lemma AttachingNone(sp: Space, p: Pool, t: Tables, lo: nat, frames: seq<Frame>, perm: Perm)
    ensures Attaching(sp, p, t, lo, frames, 0, perm, {}, sp, p, t)
  {
    assert SetOf(frames[..0]) == {};
    assert Bumped(p, {}) == p && AllocAll(p, {}) == p;
    assert sp.pt + SegmentEntries(lo, frames[..0], perm) == sp.pt;
    assert sp.tables + {} == sp.tables;
  }

  lemma AttachingKnown(sp0: Space, p0: Pool, t0: Tables, lo: nat, frames: seq<Frame>, i: nat, perm: Perm,
                       tabs: set<Frame>, sp: Space, p: Pool, t: Tables, f: Frame)
    requires i < |frames| && Attaching(sp0, p0, t0, lo, frames, i, perm, tabs, sp, p, t)
    requires f in p0.count && f !in p0.free && NoneMapped(sp0.pt, lo, |frames|)
    ensures lo + i !in sp.pt && f in p.count && f !in p.free && |p.free| >= |p0.free| - 2 * i
  {
    assert p.free == p0.free - tabs;
  }

  lemma AttachingMore(sp0: Space, p0: Pool, t0: Tables, lo: nat, frames: seq<Frame>, i: nat, perm: Perm,
                      tabs: set<Frame>, more: set<Frame>,
                      sp: Space, p: Pool, t: Tables, sp': Space, p': Pool, t': Tables)
    requires i < |frames| && Distinct(frames) && frames[i] !in p0.free
    requires Attaching(sp0, p0, t0, lo, frames, i, perm, tabs, sp, p, t)
    requires OneMapped(sp, p, t, lo + i, frames[i], perm, more, sp', p', t')
    ensures Attaching(sp0, p0, t0, lo, frames, i + 1, perm, tabs + more, sp', p', t')
  {
    hide SegmentEntries, OthersSame;
    SetOfMore(frames, i);
    BumpAgain(p0, SetOf(frames[..i]), tabs, frames[i], more);
    MoreEntries(sp0.pt, lo, frames, i, perm);
    assert sp0.tables + tabs + more == sp0.tables + (tabs + more);
    OthersChain(t0, t, t', sp0.tables + tabs, sp0.tables + (tabs + more));
  }

  /** All frames are mapped; `base` are the areas before the new one was inserted. */
  lemma AttachingAll(sp0: Space, base: Areas, p0: Pool, t0: Tables, start: nat, id: nat, frames: seq<Frame>, perm: Perm,
                     tabs: set<Frame>, sp: Space, p: Pool, t: Tables)
    requires Attaching(sp0, p0, t0, VpnDown(start), frames, |frames|, perm, tabs, sp, p, t)
    requires sp0.areas == base[start := Node(start + |frames| * PAGE_SIZE, Area(Shm(id), perm))]
    ensures (sp, p) == AttachStep(sp0.(areas := base), p0, start, id, frames, perm, tabs)
    ensures tabs <= p0.free && OthersSame(t0, t, sp0.tables + tabs)
  {
    hide SegmentEntries, Bumped, AllocAll, OthersSame;
    assert frames[..|frames|] == frames;
    assert SetOf(frames) == set f | f in frames;
  }

  lemma MoreEntries(m: map<nat, Entry>, lo: nat, frames: seq<Frame>, i: nat, perm: Perm)
    requires i < |frames|
    ensures m + SegmentEntries(lo, frames[..i + 1], perm) ==
            (m + SegmentEntries(lo, frames[..i], perm))[lo + i := Entry(frames[i], FlagsFor(perm))]
  {
    var a, b := SegmentEntries(lo, frames[..i + 1], perm), SegmentEntries(lo, frames[..i], perm);
    assert a.Keys == b.Keys + {lo + i};
    assert a == b[lo + i := Entry(frames[i], FlagsFor(perm))];
  }

  lemma BumpOne(p: Pool, f: Frame)
    requires f in p.count && f !in p.free && PoolOk(p)
    ensures Bumped(p, {f}) == p.(count := p.count[f := p.count[f] + 1]) && PoolOk(Bumped(p, {f}))
  {
  }

  lemma BumpAgain(p: Pool, fs: set<Frame>, tabs: set<Frame>, f: Frame, news: set<Frame>)
    requires f !in fs && f !in p.free && tabs <= p.free && news <= p.free - tabs
    ensures AllocAll(Bumped(AllocAll(Bumped(p, fs), tabs), {f}), news) == AllocAll(Bumped(p, fs + {f}), tabs + news)
    ensures AllocAll(Bumped(p, fs + {f}), tabs + news).free == p.free - (tabs + news)
    ensures AllocAll(Bumped(p, fs + {f}), tabs + news).count.Keys == p.count.Keys
    ensures |tabs + news| == |tabs| + |news|
  {
    var a, b := AllocAll(Bumped(AllocAll(Bumped(p, fs), tabs), {f}), news), AllocAll(Bumped(p, fs + {f}), tabs + news);
    assert a.free == b.free;
    assert a.count == b.count;
  }

  lemma MissingFew(t: Tables, root: Frame, shape: map<Frame, Slot>, v: nat)
    requires WfTables(t, root, shape) && v < USER_VPNS
    ensures Missing(t, root, shape, v) <= 2
  {
  }
}
