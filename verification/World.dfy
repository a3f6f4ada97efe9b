/**
 All address spaces, all shared-memory segments and the frame pool, and the steps by which they
 change. The model is of src/process/user_space (mod.rs, user_area.rs, shm_mgr.rs) over
 src/memory (frame.rs, frame_ref_cnt.rs, pagetable/pagetable.rs).
 */
module Worlds {
  import opened Collections
  import opened Options
  import opened Address
  import opened Pte
  import opened UserAreas
  import opened Frames
  import opened Spaces

  /** A live `Shm`; `handles` counts the `Arc<Shm>` outside of areas (key table, process tables). */
  datatype Segment = Segment(frames: seq<Frame>, handles: nat)

  datatype World = World(spaces: map<nat, Space>, shms: map<nat, Segment>, pool: Pool)

  // ---- References ----

  /** Everything that holds one reference to a frame. */
  datatype Owner = ByPte(s: nat, v: nat) | ByShm(id: nat, i: nat) | ByTable(t: nat)

  predicate Owns(w: World, o: Owner, f: Frame) {
    match o
    case ByPte(s, v) => s in w.spaces && v in w.spaces[s].pt && w.spaces[s].pt[v].frame == f
    case ByShm(id, i) => id in w.shms && i < |w.shms[id].frames| && w.shms[id].frames[i] == f
    case ByTable(s) => s in w.spaces && f in w.spaces[s].tables
  }

  ghost function Owners(w: World, f: Frame): set<Owner> {
    (set s, v | s in w.spaces && v in w.spaces[s].pt && w.spaces[s].pt[v].frame == f :: ByPte(s, v)) +
    (set id, i: nat | id in w.shms && i < |w.shms[id].frames| && w.shms[id].frames[i] == f :: ByShm(id, i)) +
    (set s | s in w.spaces && f in w.spaces[s].tables :: ByTable(s))
  }

  lemma OwnersAre(w: World, f: Frame)
    ensures forall o :: o in Owners(w, f) <==> Owns(w, o, f)
  {
  }

  /** How the references to one frame change. */
  lemma OwnersDelta(w: World, w': World, f: Frame, gone: set<Owner>, came: set<Owner>)
    requires forall o :: o in gone ==> Owns(w, o, f)
    requires forall o :: o in came ==> !Owns(w, o, f)
    requires forall o :: Owns(w', o, f) <==> (Owns(w, o, f) && o !in gone) || o in came
    ensures |Owners(w', f)| == |Owners(w, f)| - |gone| + |came|
  {
    OwnersAre(w, f);
    OwnersAre(w', f);
    var a, b := Owners(w, f), Owners(w', f);
    hide Owners, Owns;
    assert b == (a - gone) + came;
    assert |a - gone| == |a| - |gone|;
  }

  ghost function Image(s: nat, vs: set<nat>): set<Owner> { set v | v in vs :: ByPte(s, v) }

  lemma ImageCard(s: nat, vs: set<nat>)
    ensures |Image(s, vs)| == |vs|
  {
    if vs == {} {
      assert Image(s, vs) == {};
    } else {
      var v :| v in vs;
      ImageCard(s, vs - {v});
      assert Image(s, vs) == Image(s, vs - {v}) + {ByPte(s, v)};
    }
  }

  /** Pages of `a` that map `f` and do not do so in `b`. */
  ghost function Lost(a: map<nat, Entry>, b: map<nat, Entry>, f: Frame): set<nat> {
    set v | v in a && a[v].frame == f && !(v in b && b[v].frame == f)
  }

  function With(w: World, s: nat, sp: Space, p: Pool): World {
    w.(spaces := w.spaces[s := sp], pool := p)
  }

  /** References to one frame when one space changes and gains tables. */
  lemma SpaceDelta(w: World, s: nat, sp: Space, p: Pool, f: Frame)
    requires s in w.spaces && w.spaces[s].tables <= sp.tables
    ensures |Owners(With(w, s, sp, p), f)| ==
            |Owners(w, f)| - |Lost(w.spaces[s].pt, sp.pt, f)| + |Lost(sp.pt, w.spaces[s].pt, f)| +
            if f in sp.tables && f !in w.spaces[s].tables then 1 else 0
  {
    var gone := Image(s, Lost(w.spaces[s].pt, sp.pt, f));
    var came := Image(s, Lost(sp.pt, w.spaces[s].pt, f));
    var table := if f in sp.tables && f !in w.spaces[s].tables then {ByTable(s)} else {};
    ImageCard(s, Lost(w.spaces[s].pt, sp.pt, f));
    ImageCard(s, Lost(sp.pt, w.spaces[s].pt, f));
    assert came !! table;
    forall o
      ensures o in gone ==> Owns(w, o, f)
      ensures o in came + table ==> !Owns(w, o, f)
      ensures Owns(With(w, s, sp, p), o, f) <==> (Owns(w, o, f) && o !in gone) || o in came + table
    {
      SpaceOwner(w, s, sp, p, f, o);
    }
    hide Owns, Owners, Image, Lost;
    OwnersDelta(w, With(w, s, sp, p), f, gone, came + table);
  }

  lemma SpaceOwner(w: World, s: nat, sp: Space, p: Pool, f: Frame, o: Owner)
    requires s in w.spaces && w.spaces[s].tables <= sp.tables
    ensures
      var gone := Image(s, Lost(w.spaces[s].pt, sp.pt, f));
      var came := Image(s, Lost(sp.pt, w.spaces[s].pt, f));
      var table := if f in sp.tables && f !in w.spaces[s].tables then {ByTable(s)} else {};
      && (o in gone ==> Owns(w, o, f))
      && (o in came + table ==> !Owns(w, o, f))
      && (Owns(With(w, s, sp, p), o, f) <==> (Owns(w, o, f) && o !in gone) || o in came + table)
  {
  }

  // ---- Invariants ----

  ghost predicate CountRight(w: World, f: Frame) {
    f in w.pool.count ==> w.pool.count[f] == |Owners(w, f)|
  }

  predicate OwnedKnown(w: World, o: Owner, f: Frame) {
    Owns(w, o, f) ==> f in w.pool.count
  }

  /** Counts are exact, and a frame is free exactly when nothing refers to it. */
  ghost predicate Exact(w: World) {
    && PoolOk(w.pool)
    && (forall f: Frame :: CountRight(w, f))
    && (forall o: Owner, f: Frame :: OwnedKnown(w, o, f))
  }

  /** Shared memory lies in the share segment, everything else outside of it. */
  predicate RightSide(k: nat, n: Node) {
    if n.area.kind.Shm? then SHARE_BEG <= k && n.end <= SHARE_END && Aligned(n.end)
    else n.end <= SHARE_BEG || SHARE_END <= k
  }

  predicate AreasOk(m: Areas) {
    Wf(m) && forall k :: k in m ==> Aligned(k) && m[k].end <= USER_END && RightSide(k, m[k])
  }

  /** The range ends at a page boundary, or no area goes on beyond its end. */
  predicate CleanCut(m: Areas, end: nat) {
    Aligned(end) || forall k :: k in m ==> !(k < end < m[k].end)
  }

  function CowFlags(p: Perm): Flags { FlagsFor(p).(w := false, shared := true) }

  /** A mapped page is covered by an area and has that area's rights, or is marked for copy-on-write. */
  ghost predicate PteOk(sp: Space, v: nat)
    requires Wf(sp.areas)
  {
    v in sp.pt ==>
    && v < USER_VPNS
    && Lookup(sp.areas, v * PAGE_SIZE).Some?
    && var perm := Lookup(sp.areas, v * PAGE_SIZE).value.perm;
       sp.pt[v].flags == FlagsFor(perm) || (!InShare(v) && sp.pt[v].flags == CowFlags(perm))
  }

  ghost predicate SpaceOk(sp: Space) {
    AreasOk(sp.areas) && forall v: nat :: PteOk(sp, v)
  }

  /** Two references to one frame: two private pages, or a segment and the pages that map it. */
  predicate Fits(a: Owner, b: Owner) {
    || a == b
    || (a.ByPte? && b.ByPte? && InShare(a.v) == InShare(b.v))
    || (a.ByPte? && InShare(a.v) && b.ByShm?)
    || (b.ByPte? && InShare(b.v) && a.ByShm?)
  }

  predicate SeparateFor(w: World, a: Owner, b: Owner, f: Frame) {
    Owns(w, a, f) && Owns(w, b, f) ==> Fits(a, b)
  }

  ghost predicate Separate(w: World) {
    forall a: Owner, b: Owner, f: Frame :: SeparateFor(w, a, b, f)
  }

  predicate WritablePrivate(w: World, s: nat, v: nat) {
    s in w.spaces && v in w.spaces[s].pt && !InShare(v) && w.spaces[s].pt[v].flags.w
  }

  predicate ExclusiveFor(w: World, s: nat, v: nat, o: Owner) {
    WritablePrivate(w, s, v) && Owns(w, o, w.spaces[s].pt[v].frame) ==> o == ByPte(s, v)
  }

  /** A private page that can be written is the only reference to its frame. */
  ghost predicate Exclusive(w: World) {
    forall s: nat, v: nat, o: Owner :: ExclusiveFor(w, s, v, o)
  }

  /** The pages of an attached segment are all mapped, each to its frame. */
  predicate Attached(w: World, s: nat, k: nat, id: nat)
    requires s in w.spaces
  {
    && id in w.shms && k in w.spaces[s].areas
    && w.spaces[s].areas[k].end == k + |w.shms[id].frames| * PAGE_SIZE
    && forall i :: 0 <= i < |w.shms[id].frames| ==>
         Maps(w.spaces[s].pt, VpnDown(k) + i, w.shms[id].frames[i])
  }

  predicate Maps(pt: map<nat, Entry>, v: nat, f: Frame) { v in pt && pt[v].frame == f }

  predicate IsShmArea(w: World, s: nat, k: nat, id: nat) {
    s in w.spaces && k in w.spaces[s].areas && w.spaces[s].areas[k].area.kind == Shm(id)
  }

  predicate ShmAreaOk(w: World, s: nat, k: nat, id: nat) {
    IsShmArea(w, s, k, id) ==> Attached(w, s, k, id)
  }

  ghost predicate ShmOk(w: World) {
    && (forall s: nat, k: nat, id: nat :: ShmAreaOk(w, s, k, id))
    && (forall id :: id in w.shms ==> |w.shms[id].frames| > 0)
  }

  ghost predicate Inv0(w: World) {
    && Exact(w) && Separate(w) && Exclusive(w) && ShmOk(w)
    && forall s :: s in w.spaces ==> SpaceOk(w.spaces[s])
  }

  ghost predicate Held(w: World, id: nat) {
    id in w.shms && (w.shms[id].handles > 0 || exists s: nat, k: nat :: IsShmArea(w, s, k, id))
  }

  /** No segment outlives its last holder. */
  ghost predicate Inv(w: World) {
    Inv0(w) && forall id :: id in w.shms ==> Held(w, id)
  }

  // ---- Steps ----

  datatype Label =
    | NewSpace(s: nat, root: Frame)
    | Insert(s: nat, start: nat, end: nat, area: Area)
    | Grow(s: nat, start: nat, newEnd: nat)
    | Fault(s: nat, v: nat, acc: Access, got: Option<Frame>, tabs: set<Frame>)
    | Store(s: nat, v: nat, data: Page)
    | Fork(s: nat, c: nat, tabs: set<Frame>)
    | Unmap(s: nat, start: nat, end: nat)
    | ShmCreate(id: nat, frames: seq<Frame>, pages: seq<Page>)
    | ShmRetain(id: nat)
    | ShmRelease(id: nat)
    | Attach(s: nat, id: nat, start: nat, perm: Perm, tabs: set<Frame>)
    | Detach(s: nat, start: nat)
    | Drop(s: nat)

  /** The fault runs into the branch that gives up its old frame before it asks for a new one. */
  ghost predicate SharedCow(w: World, s: nat, v: nat, acc: Access)
    requires s in w.spaces && Wf(w.spaces[s].areas)
  {
    var sp := w.spaces[s];
    && Lookup(sp.areas, v * PAGE_SIZE).Some?
    && var perm := Lookup(sp.areas, v * PAGE_SIZE).value.perm;
       CanAccess(acc, perm) && CowFault(sp, v, perm) && Count(w.pool, sp.pt[v].frame) > 1
  }

  /** What the source demands of a call, or finds at that point. */
  ghost predicate Enabled(w: World, l: Label)
    requires Inv0(w)
  {
    match l
    case NewSpace(s, root) => s !in w.spaces && root in w.pool.free
    case Insert(s, start, end, area) =>
      && s in w.spaces && start < end <= USER_END && Aligned(start)
      && !area.kind.Shm? && RightSide(start, Node(end, area))
    case Grow(s, start, newEnd) =>
      && s in w.spaces && start in w.spaces[s].areas && w.spaces[s].areas[start].area.kind.Anonymous?
      && w.spaces[s].areas[start].end < newEnd <= USER_END
      && Free(w.spaces[s].areas, w.spaces[s].areas[start].end, newEnd)
      && RightSide(start, w.spaces[s].areas[start].(end := newEnd))
    case Fault(s, v, acc, got, tabs) =>
      && s in w.spaces && v < USER_VPNS
      && tabs <= w.pool.free && (got.Some? ==> got.value in w.pool.free && got.value !in tabs)
      && (SharedCow(w, s, v, acc) ==> got.Some?)
    case Store(s, v, data) =>
      s in w.spaces && v in w.spaces[s].pt && w.spaces[s].pt[v].flags.w
    case Fork(s, c, tabs) => s in w.spaces && c !in w.spaces && tabs <= w.pool.free
    case Unmap(s, start, end) =>
      && s in w.spaces && start < end && Aligned(start) && CleanCut(w.spaces[s].areas, end)
      && NoShmCut(w.spaces[s].areas, start, end)
    case ShmCreate(id, frames, pages) =>
      && id !in w.shms && |frames| > 0 && Distinct(frames) && |pages| == |frames|
      && forall i :: 0 <= i < |frames| ==>
           frames[i] in w.pool.free && pages[i] == Content(w.pool, frames[i])
    case ShmRetain(id) => id in w.shms
    case ShmRelease(id) => id in w.shms && w.shms[id].handles > 0
    case Attach(s, id, start, perm, tabs) =>
      && s in w.spaces && id in w.shms && Aligned(start) && tabs <= w.pool.free
      && SHARE_BEG <= start && start + |w.shms[id].frames| * PAGE_SIZE <= SHARE_END
    case Detach(s, start) =>
      && s in w.spaces && start in w.spaces[s].areas && w.spaces[s].areas[start].area.kind.Shm?
      && HeldElsewhere(w, w.spaces[s].areas[start].area.kind.id, s, start)
    case Drop(s) => s in w.spaces
  }

  /** `detach_shm` drops the area's handle before it unmaps: some other holder must keep the segment. */
  ghost predicate HeldElsewhere(w: World, id: nat, s: nat, k: nat) {
    && id in w.shms
    && (w.shms[id].handles > 0 || exists s': nat, k': nat :: IsShmArea(w, s', k', id) && (s', k') != (s, k))
  }

  /** The step up to the moment where a segment that has lost its last holder is dropped. */
  ghost function Raw(w: World, files: Files, l: Label): World
    requires Inv0(w) && Enabled(w, l)
  {
    match l
    case NewSpace(s, root) =>
      World(w.spaces[s := Space(map[], map[], {root})], w.shms, Alloc(w.pool, root))
    case Insert(s, start, end, area) =>
      var sp := w.spaces[s];
      if Overlaps(sp.areas, start, end) then w
      else With(w, s, sp.(areas := sp.areas[start := Node(end, area)]), w.pool)
    case Grow(s, start, newEnd) =>
      var sp := w.spaces[s];
      With(w, s, sp.(areas := sp.areas[start := sp.areas[start].(end := newEnd)]), w.pool)
    case Fault(s, v, acc, got, tabs) =>
      var r := FaultStep(w.spaces[s], w.pool, files, v, acc, got, tabs);
      With(w, s, r.0, r.1)
    case Store(s, v, data) =>
      w.(pool := Filled(w.pool, w.spaces[s].pt[v].frame, data))
    case Fork(s, c, tabs) =>
      var r := ForkStep(w.spaces[s], w.pool, tabs);
      World(w.spaces[s := r.0][c := r.1], w.shms, r.2)
    case Unmap(s, start, end) =>
      var r := UnmapStep(w.spaces[s], w.pool, start, end);
      With(w, s, r.0, r.1)
    case ShmCreate(id, frames, _) =>
      World(w.spaces, w.shms[id := Segment(frames, 1)], AllocAll(w.pool, set f | f in frames))
    case ShmRetain(id) =>
      w.(shms := w.shms[id := w.shms[id].(handles := w.shms[id].handles + 1)])
    case ShmRelease(id) =>
      w.(shms := w.shms[id := w.shms[id].(handles := w.shms[id].handles - 1)])
    case Attach(s, id, start, perm, tabs) =>
      var sp := w.spaces[s];
      if Overlaps(sp.areas, start, start + |w.shms[id].frames| * PAGE_SIZE) then w
      else
        var r := AttachStep(sp, w.pool, start, id, w.shms[id].frames, perm, tabs);
        With(w, s, r.0, r.1)
    case Detach(s, start) =>
      var r := DetachStep(w.spaces[s], w.pool, start);
      With(w, s, r.0, r.1)
    case Drop(s) =>
      World(w.spaces - {s}, w.shms, DropStep(w.spaces[s], w.pool))
  }

  ghost function UnheldFrames(w: World): set<Frame> {
    set id, i: nat | id in w.shms && i < |w.shms[id].frames| && !Held(w, id) :: w.shms[id].frames[i]
  }

  /** `Drop for Shm` on every segment without a holder: `decrease_and_must_dealloc` on its frames. */
  ghost function Reap(w: World): World {
    World(w.spaces, map id | id in w.shms && Held(w, id) :: w.shms[id], Freed(w.pool, UnheldFrames(w)))
  }

  ghost function Step(w: World, files: Files, l: Label): World
    requires Inv0(w) && Enabled(w, l)
  {
    Reap(Raw(w, files, l))
  }
}
