/**
 One address space and the frame pool as values, and what the operations of `UserSpace`
 (src/process/user_space/mod.rs) and `UserArea` (user_area.rs) make of them.
 */
module Spaces {
  import opened Collections
  import opened Options
  import opened Address
  import opened Pte
  import opened UserAreas
  import opened Frames
  import opened CowMarks

  /** The areas, the flat meaning of the page table, and the frames that hold its tables. */
  datatype Space = Space(areas: Areas, pt: map<nat, Entry>, tables: set<Frame>)

  /** What `get_page` returns for a file and a page-aligned offset. */
  type Files = (nat, nat) -> Page

  /** Contents of a private page that has not been touched yet. */
  function Demand(files: Files, o: Origin): Page {
    match o
    case Zero => ZeroPage()
    case FileAt(file, offset) => files(file, Floor(offset))
    case ShmAt(_, _) => ZeroPage()
  }

  // ---- Page fault ----

  datatype FaultResult = Done | NoSegment | PermUnmatch | KernelOOM

  /** `remap_page`, with the tables it creates. */
  function Installed(sp: Space, p: Pool, v: nat, e: Entry, tabs: set<Frame>): (Space, Pool, FaultResult) {
    (Space(sp.areas, sp.pt[v := e], sp.tables + tabs), AllocAll(p, tabs), Done)
  }

  /** The page is present and, by the source's assertions, write-protected for copy-on-write. */
  predicate CowFault(sp: Space, v: nat, perm: Perm) {
    v in sp.pt && !MatchPerm(sp.pt[v].flags, perm)
  }

  /**
   `page_fault`. `got` is what `alloc_frame` returns if it is called, `tabs` the frames of created
   tables. The old count goes down before the new frame is asked for.
   */
  ghost function FaultStep(sp: Space, p: Pool, files: Files, v: nat, acc: Access, got: Option<Frame>, tabs: set<Frame>)
      : (Space, Pool, FaultResult)
    requires Wf(sp.areas)
  {
    match Lookup(sp.areas, v * PAGE_SIZE)
    case None => (sp, p, NoSegment)
    case Some(cell) =>
      if !CanAccess(acc, cell.perm) then (sp, p, PermUnmatch)
      else if v !in sp.pt then FaultFresh(sp, p, v, cell.perm, Demand(files, cell.origin), got, tabs)
      else if !CowFault(sp, v, cell.perm) then (sp, p, Done)
      else FaultCow(sp, p, v, cell.perm, got, tabs)
  }

  /** Demand paging: a new frame with the given contents. */
  function FaultFresh(sp: Space, p: Pool, v: nat, perm: Perm, data: Page, got: Option<Frame>, tabs: set<Frame>)
      : (Space, Pool, FaultResult)
  {
    match got
    case None => (sp, p, KernelOOM)
    case Some(f) =>
      Installed(sp, Filled(Alloc(p, f), f, data), v, Entry(f, FlagsFor(perm)), tabs)
  }

  /** Copy-on-write: a shared frame is copied, an unshared one is made writable in place. */
  function FaultCow(sp: Space, p: Pool, v: nat, perm: Perm, got: Option<Frame>, tabs: set<Frame>)
      : (Space, Pool, FaultResult)
    requires v in sp.pt
  {
    if Count(p, sp.pt[v].frame) <= 1 then
      Installed(sp, p, v, Entry(sp.pt[v].frame, FlagsFor(perm)), tabs)
    else
      match got
      case None => (sp, Decrease(p, sp.pt[v].frame), KernelOOM)
      case Some(f) =>
        Installed(sp, Filled(Alloc(Decrease(p, sp.pt[v].frame), f), f, Content(p, sp.pt[v].frame)),
                  v, Entry(f, FlagsFor(perm)), tabs)
  }

  function Count(p: Pool, f: Frame): nat { if f in p.count then p.count[f] else 0 }
  function Content(p: Pool, f: Frame): Page { if f in p.mem then p.mem[f] else ZeroPage() }

  // ---- Dropping references ----

  /** The pages of `s` that map `f`. */
  ghost function RefsIn(pt: map<nat, Entry>, s: set<nat>, f: Frame): set<nat> {
    set v | v in s && v in pt && pt[v].frame == f
  }

  function Minus(a: nat, b: nat): nat { if b <= a then a - b else 0 }

  /** `decrease_and_try_dealloc` once for every page of `s` that is mapped. */
  ghost function DropRefs(p: Pool, pt: map<nat, Entry>, s: set<nat>): Pool {
    Pool(p.free + (set f | f in p.count && RefsIn(pt, s, f) != {} && p.count[f] == |RefsIn(pt, s, f)|),
         map f | f in p.count :: Minus(p.count[f], |RefsIn(pt, s, f)|),
         p.mem)
  }

  /** No frame is mapped more often than its count says. */
  ghost predicate Covers(p: Pool, pt: map<nat, Entry>) {
    forall v :: v in pt ==> pt[v].frame in p.count && |RefsIn(pt, pt.Keys, pt[v].frame)| <= p.count[pt[v].frame]
  }

  lemma DropNone(p: Pool, pt: map<nat, Entry>, s: set<nat>)
    requires s !! pt.Keys
    ensures DropRefs(p, pt, s) == p
  {
    assert forall f: Frame :: RefsIn(pt, s, f) == {};
  }

  lemma DropOne(p: Pool, pt: map<nat, Entry>, v: nat)
    requires v in pt && pt[v].frame in p.count && p.count[pt[v].frame] > 0
    ensures DropRefs(p, pt, {v}) == Release(p, pt[v].frame)
  {
    var f := pt[v].frame;
    assert forall g: Frame :: RefsIn(pt, {v}, g) == if g == f then {v} else {};
  }

  lemma RefsSplit(pt: map<nat, Entry>, a: set<nat>, b: set<nat>, f: Frame)
    requires a !! b
    ensures |RefsIn(pt, a + b, f)| == |RefsIn(pt, a, f)| + |RefsIn(pt - a, b, f)|
  {
    assert RefsIn(pt, a + b, f) == RefsIn(pt, a, f) + RefsIn(pt - a, b, f);
  }

  lemma RefsMono(pt: map<nat, Entry>, s: set<nat>, f: Frame)
    ensures |RefsIn(pt, s, f)| <= |RefsIn(pt, pt.Keys, f)|
  {
    CardMono(RefsIn(pt, s, f), RefsIn(pt, pt.Keys, f));
  }

  /** The order in which references are dropped does not matter. */
  lemma DropTwice(p: Pool, pt: map<nat, Entry>, a: set<nat>, b: set<nat>)
    requires a !! b && Covers(p, pt)
    ensures DropRefs(DropRefs(p, pt, a), pt - a, b) == DropRefs(p, pt, a + b)
  {
    hide Covers;
    var q, r := DropRefs(DropRefs(p, pt, a), pt - a, b), DropRefs(p, pt, a + b);
    forall f | f in p.count
      ensures q.count[f] == r.count[f] && (f in q.free <==> f in r.free)
    {
      DropTwiceFrame(p, pt, a, b, f);
    }
    hide RefsIn;
    assert q.count == r.count;
    forall f: Frame
      ensures f in q.free <==> f in r.free
    {
    }
  }

  /** Pages that are gone already do not matter the second time. */
  lemma DropAgain(p: Pool, pt: map<nat, Entry>, a: set<nat>, b: set<nat>)
    requires Covers(p, pt)
    ensures DropRefs(DropRefs(p, pt, a), pt - a, b) == DropRefs(p, pt, a + b)
  {
    hide Covers;
    assert forall f: Frame :: RefsIn(pt - a, b, f) == RefsIn(pt - a, b - a, f);
    assert a + (b - a) == a + b;
    DropTwice(p, pt, a, b - a);
  }

  /** Only mapped pages matter. */
  lemma DropSame(p: Pool, pt: map<nat, Entry>, a: set<nat>, b: set<nat>)
    requires forall v :: v in pt ==> (v in a <==> v in b)
    ensures DropRefs(p, pt, a) == DropRefs(p, pt, b) && pt - a == pt - b
  {
    assert forall f: Frame :: RefsIn(pt, a, f) == RefsIn(pt, b, f);
  }

  lemma DropTwiceFrame(p: Pool, pt: map<nat, Entry>, a: set<nat>, b: set<nat>, f: Frame)
    requires a !! b && Covers(p, pt) && f in p.count
    ensures
      var q, r := DropRefs(DropRefs(p, pt, a), pt - a, b), DropRefs(p, pt, a + b);
      q.count[f] == r.count[f] && (f in q.free <==> f in r.free)
  {
    RefsSplit(pt, a, b, f);
    RefsMono(pt, a + b, f);
    assert RefsIn(pt, a + b, f) != {} ==> exists v :: v in pt && pt[v].frame == f;
  }

  lemma DropCovers(p: Pool, pt: map<nat, Entry>, s: set<nat>)
    requires Covers(p, pt)
    ensures Covers(DropRefs(p, pt, s), pt - s)
  {
    var q, m := DropRefs(p, pt, s), pt - s;
    forall v | v in m
      ensures m[v].frame in q.count && |RefsIn(m, m.Keys, m[v].frame)| <= q.count[m[v].frame]
    {
      var f := m[v].frame;
      RefsSplit(pt, s, m.Keys, f);
      assert RefsIn(pt, s + m.Keys, f) == RefsIn(pt, pt.Keys, f);
    }
  }

  lemma DropOk(p: Pool, pt: map<nat, Entry>, s: set<nat>)
    requires PoolOk(p) && Covers(p, pt)
    ensures PoolOk(DropRefs(p, pt, s))
  {
    forall f | f in p.count
      ensures f in DropRefs(p, pt, s).free <==> Minus(p.count[f], |RefsIn(pt, s, f)|) == 0
    {
      RefsMono(pt, s, f);
      if RefsIn(pt, s, f) != {} {
        var v :| v in RefsIn(pt, s, f);
        assert v in pt && pt[v].frame == f;
      }
    }
  }

  // ---- Fork, unmap, shared memory, drop ----

  /** `clone_cow`: the parent and the child. */
  ghost function ForkStep(sp: Space, p: Pool, tabs: set<Frame>): (Space, Space, Pool) {
    (sp.(pt := Marked(sp.pt)), Space(sp.areas, Marked(sp.pt), tabs), Shared(p, tabs, sp.pt))
  }

  predicate PageIn(v: nat, start: nat, end: nat) { start <= v * PAGE_SIZE < end }

  /** The pages whose first address lies in the range. */
  ghost function PagesIn(start: nat, end: nat): set<nat> {
    set v: nat | v < end && PageIn(v, start, end)
  }

  ghost function UnmapStep(sp: Space, p: Pool, start: nat, end: nat): (Space, Pool)
    requires Wf(sp.areas) && start < end && NoShmCut(sp.areas, start, end)
  {
    (Space(Removed(sp.areas, start, end), sp.pt - PagesIn(start, end), sp.tables),
     DropRefs(p, sp.pt, PagesIn(start, end)))
  }

  /** One more reference for each frame of a segment. */
  ghost function Bumped(p: Pool, fs: set<Frame>): Pool {
    p.(count := map f | f in p.count :: if f in fs then p.count[f] + 1 else p.count[f])
  }

  ghost function SegmentEntries(lo: nat, frames: seq<Frame>, perm: Perm): map<nat, Entry> {
    map v: nat | lo <= v < lo + |frames| :: SegmentEntry(lo, frames, perm, v)
  }

  function SegmentEntry(lo: nat, frames: seq<Frame>, perm: Perm, v: nat): Entry
    requires lo <= v < lo + |frames|
  {
    Entry(frames[v - lo], FlagsFor(perm))
  }

  ghost function AttachStep(sp: Space, p: Pool, start: nat, id: nat, frames: seq<Frame>, perm: Perm, tabs: set<Frame>)
      : (Space, Pool)
  {
    (Space(sp.areas[start := Node(start + |frames| * PAGE_SIZE, Area(Shm(id), perm))],
           sp.pt + SegmentEntries(VpnDown(start), frames, perm),
           sp.tables + tabs),
     AllocAll(Bumped(p, set f | f in frames), tabs))
  }

  ghost function DetachStep(sp: Space, p: Pool, start: nat): (Space, Pool)
    requires start in sp.areas
  {
    var pages := PagesIn(start, sp.areas[start].end);
    (Space(sp.areas - {start}, sp.pt - pages, sp.tables), DropRefs(p, sp.pt, pages))
  }

  /** Dropping a space: `release_range` on every area, then the page table. */
  ghost function DropStep(sp: Space, p: Pool): Pool {
    Freed(DropRefs(p, sp.pt, AreaPages(sp.areas)), sp.tables)
  }

  ghost predicate Covered(m: Areas, v: nat) {
    exists k: nat :: Holds(m, k, v * PAGE_SIZE)
  }

  /** All user pages that some area covers. */
  ghost function AreaPages(m: Areas): set<nat> {
    set v: nat | v < USER_VPNS && Covered(m, v)
  }
}
