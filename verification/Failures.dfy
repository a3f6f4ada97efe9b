/** Runs and states that show where a promise of the source fails. */
module Failures {
  import opened Options
  import opened Address
  import opened Pte
  import opened UserAreas
  import opened Frames
  import opened CowMarks
  import opened SharedMemory
  import opened Spaces
  import opened Worlds
  import opened WorldInvariant
  import opened Refinement
  import opened AreaManagers

  const ReadWrite := Area(Anonymous, Perm(true, true, false))

  /** A machine whose allocator has the given frames. */
  function Machine(fs: set<Frame>): World {
    World(map[], map[], Pool(fs, map f | f in fs :: 0, map f | f in fs :: ZeroPage()))
  }

  lemma MachineBoots(fs: set<Frame>)
    ensures Boot(Machine(fs))
  {
  }

  // ---- Copy-on-write without memory ----

  /** One space with one written page, then forked; the seven frames are used up. */
  function ForkRun(): seq<Label> {
    [NewSpace(0, 0), Insert(0, 0x10000, 0x11000, ReadWrite)] + [Fault(0, 16, RW, Some(1), {2, 3})] +
    [Fork(0, 1, {4, 5, 6})]
  }

  function OnePage(): Space { Space(map[0x10000 := Node(0x11000, ReadWrite)], map[], {0}) }

  lemma ReapNothing(w: World)
    requires forall id :: id in w.shms ==> Held(w, id)
    ensures Reap(w) == w
  {
    assert UnheldFrames(w) == {};
    FreedNone(w.pool);
  }

  lemma StepPlain(w: World, files: Files, l: Label)
    requires Inv(w) && Enabled(w, l)
    requires
      var w' := Raw(w, files, l);
      forall id :: id in w'.shms ==> Held(w', id)
    ensures Step(w, files, l) == Raw(w, files, l) && Inv(Raw(w, files, l))
  {
    ReapNothing(Raw(w, files, l));
    StepInv(w, files, l);
  }

  lemma RunLast(files: Files, w: World, ls: seq<Label>, w1: World, l: Label)
    requires Runs(files, w, ls, w1) && Inv(w) && Inv0(w1) && Enabled(w1, l)
    ensures Runs(files, w, ls + [l], Step(w1, files, l))
    decreases |ls|
  {
    hide Inv0, Enabled, Held, Step;
    if ls == [] {
      assert Runs(files, Step(w1, files, l), [], Step(w1, files, l));
      assert (ls + [l])[1..] == [];
    } else {
      StepInv(w, files, ls[0]);
      RunLast(files, Step(w, files, ls[0]), ls[1..], w1, l);
      assert (ls + [l])[1..] == ls[1..] + [l];
    }
  }

  lemma WithArea(files: Files, fs: set<Frame>) returns (w: World)
    requires 0 in fs
    ensures Runs(files, Machine(fs), [NewSpace(0, 0), Insert(0, 0x10000, 0x11000, ReadWrite)], w) && Inv(w)
    ensures w.spaces == map[0 := OnePage()] && w.shms == map[] && w.pool == Alloc(Machine(fs).pool, 0)
  {
    hide Inv0, Held;
    var w0 := Machine(fs);
    MachineBoots(fs);
    BootInv(w0);
    var k, l := NewSpace(0, 0), Insert(0, 0x10000, 0x11000, ReadWrite);
    var w1 := Raw(w0, files, k);
    StepPlain(w0, files, k);
    w := Raw(w1, files, l);
    StepPlain(w1, files, l);
    assert Runs(files, w0, [], w0);
    RunLast(files, w0, [], w0, k);
    RunLast(files, w0, [] + [k], w1, l);
    assert [] + [k] + [l] == [k, l];
  }

  lemma Touched(files: Files, w: World) returns (w': World)
    requires Inv(w) && w.spaces == map[0 := OnePage()] && w.shms == map[] && {1, 2, 3} <= w.pool.free
    ensures
      var l := Fault(0, 16, RW, Some(1), {2, 3});
      Enabled(w, l) && w' == Step(w, files, l) && Inv(w')
    ensures w'.spaces == map[0 := Space(OnePage().areas, map[16 := Entry(1, FlagsFor(ReadWrite.perm))], {0, 2, 3})]
    ensures w'.shms == map[] && w'.pool.free == w.pool.free - {1, 2, 3} && Count(w'.pool, 1) == 1
  {
    hide Inv0, Held;
    var l := Fault(0, 16, RW, Some(1), {2, 3});
    assert Holds(OnePage().areas, 0x10000, 16 * PAGE_SIZE);
    assert PoolOk(w.pool) by {
      InvPool(w);
    }
    assert Enabled(w, l);
    StepPlain(w, files, l);
    w' := Raw(w, files, l);
    assert w'.spaces[0].tables == {0, 2, 3};
    assert w'.spaces[0].pt == map[16 := Entry(1, FlagsFor(ReadWrite.perm))];
    assert w'.spaces.Keys == {0};
  }

  /** The world after the fork. */
  lemma Forked(files: Files, w: World) returns (w': World)
    requires Inv(w) && w.shms == map[] && {4, 5, 6} <= w.pool.free && Count(w.pool, 1) == 1
    requires w.spaces == map[0 := Space(OnePage().areas, map[16 := Entry(1, FlagsFor(ReadWrite.perm))], {0, 2, 3})]
    ensures Enabled(w, Fork(0, 1, {4, 5, 6})) && w' == Step(w, files, Fork(0, 1, {4, 5, 6})) && Inv(w')
    ensures w'.pool.free == w.pool.free - {4, 5, 6}
    ensures 0 in w'.spaces && Wf(w'.spaces[0].areas) && SharedCow(w', 0, 16, RW)
  {
    hide Inv0, Held;
    var l := Fork(0, 1, {4, 5, 6});
    StepPlain(w, files, l);
    w' := Raw(w, files, l);
    var flat := w.spaces[0].pt;
    assert Users(flat, 1) == {16};
    assert w'.spaces[0].areas == OnePage().areas;
    assert Holds(OnePage().areas, 0x10000, 16 * PAGE_SIZE);
  }

  /**
   A machine with seven frames: a page is written, the space is forked, and the next write finds no
   frame. The count of the shared frame goes down, and it is wrong from then on.
   */
  lemma OutOfMemoryHappens(files: Files) returns (w: World)
    ensures Boot(Machine({0, 1, 2, 3, 4, 5, 6})) && Runs(files, Machine({0, 1, 2, 3, 4, 5, 6}), ForkRun(), w)
    ensures Inv(w) && w.pool.free == {} && 0 in w.spaces && Wf(w.spaces[0].areas)
    ensures
      var r := FaultStep(w.spaces[0], w.pool, files, 16, RW, None, {});
      r.2 == KernelOOM && !Exact(With(w, 0, r.0, r.1))
  {
    hide Inv0, Held, Enabled, Step, Runs, Exact;
    var fs := {0, 1, 2, 3, 4, 5, 6};
    MachineBoots(fs);
    BootInv(Machine(fs));
    var w2 := WithArea(files, fs);
    assert w2.pool.free == {1, 2, 3, 4, 5, 6};
    var w3 := Touched(files, w2);
    assert w3.pool.free == {4, 5, 6};
    w := Forked(files, w3);
    var ls := [NewSpace(0, 0), Insert(0, 0x10000, 0x11000, ReadWrite)];
    RunLast(files, Machine(fs), ls, w2, Fault(0, 16, RW, Some(1), {2, 3}));
    RunLast(files, Machine(fs), ls + [Fault(0, 16, RW, Some(1), {2, 3})], w3, Fork(0, 1, {4, 5, 6}));
    OutOfMemoryExact(w, files, 0, 16, RW);
  }

  lemma InvPool(w: World)
    requires Inv0(w)
    ensures PoolOk(w.pool)
  {
  }

  // ---- A segment allocation that fails ----

  /** One frame is free and two are asked for: the one is gone, and nothing refers to it. */
  method ShmAllocLoses(pm: PhysMem) returns (r: Option<Shm>)
    requires pm.State() == Machine({0}).pool
    modifies pm
    ensures r.None? && pm.free == {}
    ensures Exact(World(map[], map[], old(pm.State()))) && !Exact(World(map[], map[], pm.State()))
  {
    hide Exact, AllocAll;
    MachineBoots({0});
    BootInv(Machine({0}));
    Inv0Exact(Machine({0}));
    ghost var w := World(map[], map[], pm.State());
    assert w == Machine({0});
    r := AllocShm(pm, 2);
    ShmAllocFailExact(w);
    AllocEverything(w.pool);
  }

  lemma AllocEverything(p: Pool)
    ensures AllocAll(p, p.free).free == {}
  {
  }

  // ---- A smaller heap ----

  /** A heap of two pages of which the second is mapped; the break goes down by one page. */
  lemma ShrinkUncovers(f: Frame)
    ensures
      var heap := Node(HEAP_BEG + 2 * PAGE_SIZE, ReadWrite);
      var sp := Space(map[HEAP_BEG := heap], map[VpnDown(HEAP_BEG) + 1 := Entry(f, FlagsFor(ReadWrite.perm))], {});
      SpaceOk(sp) && !SpaceOk(sp.(areas := Shrunk(sp.areas, HEAP_BEG, HEAP_BEG + PAGE_SIZE)))
  {
    hide SpaceOk;
    var heap := Node(HEAP_BEG + 2 * PAGE_SIZE, ReadWrite);
    var v := VpnDown(HEAP_BEG) + 1;
    var sp := Space(map[HEAP_BEG := heap], map[v := Entry(f, FlagsFor(ReadWrite.perm))], {});
    HeapOk(sp, v);
    ShrinkCover(sp, HEAP_BEG, HEAP_BEG + PAGE_SIZE);
    assert v in sp.pt && PageIn(v, HEAP_BEG + PAGE_SIZE, sp.areas[HEAP_BEG].end);
  }

  lemma HeapOk(sp: Space, v: nat)
    requires sp.areas == map[HEAP_BEG := Node(HEAP_BEG + 2 * PAGE_SIZE, ReadWrite)] && v == VpnDown(HEAP_BEG) + 1
    requires sp.pt.Keys == {v} && sp.pt[v].flags == FlagsFor(ReadWrite.perm)
    ensures SpaceOk(sp)
  {
    assert Holds(sp.areas, HEAP_BEG, v * PAGE_SIZE);
    assert PteOk(sp, v);
  }

  // ---- An unmapping that ends inside a page ----

  lemma UnmapCutsPage()
    ensures
      var m := map[0x10000 := Node(0x12000, ReadWrite)];
      AreasOk(m) && NoShmCut(m, 0x10000, 0x10800) && !AreasOk(Removed(m, 0x10000, 0x10800))
  {
    var m := map[0x10000 := Node(0x12000, ReadWrite)];
    assert AreasOk(m);
    RemovedAreasOk(m, 0x10000, 0x10800);
    assert 0x10000 in m && 0x10000 < 0x10800 < m[0x10000].end;
  }

  // ---- A detach by the last holder ----

  function SegmentRun(): seq<Label> {
    [NewSpace(0, 0)] + [ShmCreate(0, [1], [ZeroPage()])] + [Attach(0, 0, SHARE_BEG, ReadWrite.perm, {2, 3})] +
    [ShmRelease(0)]
  }

  lemma Opened(files: Files) returns (w: World)
    ensures Runs(files, Machine({0, 1, 2, 3}), [NewSpace(0, 0)], w) && Inv(w)
    ensures w.spaces == map[0 := Space(map[], map[], {0})] && w.shms == map[]
    ensures w.pool == Alloc(Machine({0, 1, 2, 3}).pool, 0)
  {
    hide Inv0;
    var w0 := Machine({0, 1, 2, 3});
    MachineBoots({0, 1, 2, 3});
    BootInv(w0);
    var l := NewSpace(0, 0);
    w := Raw(w0, files, l);
    StepPlain(w0, files, l);
    assert Runs(files, w0, [], w0);
    RunLast(files, w0, [], w0, l);
    assert [] + [l] == [l];
  }

  lemma Created(files: Files, w: World) returns (w': World)
    requires Inv(w) && w.shms == map[] && {1} <= w.pool.free && Content(w.pool, 1) == ZeroPage()
    ensures
      var l := ShmCreate(0, [1], [ZeroPage()]);
      Enabled(w, l) && w' == Step(w, files, l) && Inv(w')
    ensures w'.spaces == w.spaces && w'.shms == map[0 := Segment([1], 1)] && w'.pool.free == w.pool.free - {1}
  {
    hide Inv0, ZeroPage;
    var l := ShmCreate(0, [1], [ZeroPage()]);
    assert Enabled(w, l);
    w' := Raw(w, files, l);
    StepPlain(w, files, l);
  }

  lemma AttachedTo(files: Files, w: World) returns (w': World)
    requires Inv(w) && w.shms == map[0 := Segment([1], 1)] && w.pool.free == {2, 3}
    requires w.spaces == map[0 := Space(map[], map[], {0})]
    ensures
      var l := Attach(0, 0, SHARE_BEG, ReadWrite.perm, {2, 3});
      Enabled(w, l) && w' == Step(w, files, l) && Inv(w')
    ensures w'.shms == w.shms && w'.spaces.Keys == {0}
    ensures w'.spaces[0].areas == map[SHARE_BEG := Node(SHARE_BEG + PAGE_SIZE, Area(Shm(0), ReadWrite.perm))]
  {
    hide Inv0;
    var l := Attach(0, 0, SHARE_BEG, ReadWrite.perm, {2, 3});
    w' := Raw(w, files, l);
    StepPlain(w, files, l);
  }

  lemma Released(files: Files, w: World) returns (w': World)
    requires Inv(w) && w.shms == map[0 := Segment([1], 1)] && w.spaces.Keys == {0}
    requires w.spaces[0].areas == map[SHARE_BEG := Node(SHARE_BEG + PAGE_SIZE, Area(Shm(0), ReadWrite.perm))]
    ensures Enabled(w, ShmRelease(0)) && w' == Step(w, files, ShmRelease(0)) && Inv(w')
    ensures IsShmArea(w', 0, SHARE_BEG, 0) && !HeldElsewhere(w', 0, 0, SHARE_BEG)
  {
    hide Inv0;
    w' := Raw(w, files, ShmRelease(0));
    assert IsShmArea(w', 0, SHARE_BEG, 0);
    StepPlain(w, files, ShmRelease(0));
  }

  /** A segment is created and attached and its handle given up: detaching it must panic. */
  lemma DetachPanics(files: Files) returns (w: World)
    ensures Boot(Machine({0, 1, 2, 3})) && Runs(files, Machine({0, 1, 2, 3}), SegmentRun(), w) && Inv(w)
    ensures IsShmArea(w, 0, SHARE_BEG, 0) && !DropReady(AreaGone(w, 0, SHARE_BEG))
  {
    hide Inv0, Runs, DropReady, Enabled, Step, Held, HeldElsewhere;
    var fs := {0, 1, 2, 3};
    var w0 := Machine(fs);
    MachineBoots(fs);
    BootInv(w0);
    var w1 := Opened(files);
    assert w1.pool.free == {1, 2, 3};
    var w2 := Created(files, w1);
    assert w2.pool.free == {2, 3};
    var w3 := AttachedTo(files, w2);
    w := Released(files, w3);
    var j, k, l := ShmCreate(0, [1], [ZeroPage()]), Attach(0, 0, SHARE_BEG, ReadWrite.perm, {2, 3}), ShmRelease(0);
    RunLast(files, w0, [NewSpace(0, 0)], w1, j);
    RunLast(files, w0, [NewSpace(0, 0)] + [j], w2, k);
    RunLast(files, w0, [NewSpace(0, 0)] + [j] + [k], w3, l);
    DetachExact(w, 0, SHARE_BEG, 0);
  }
}
