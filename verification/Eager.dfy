/**
 The system that the lazy one behaves like: every space has its own copy of each of its private
 pages, made when the page comes into being and at every fork. No frames, no counts, no page
 tables, no copy-on-write.
 */
module EagerSystem {
  import opened Address
  import opened UserAreas
  import opened Frames
  import opened Spaces
  import opened Worlds

  datatype EPage = EPage(perm: Perm, data: Page)

  /** Page `i` of segment `id`. */
  datatype ERef = ERef(id: nat, i: nat, perm: Perm)

  datatype ESpace = ESpace(priv: map<nat, EPage>, shared: map<nat, ERef>)

  datatype Eager = Eager(spaces: map<nat, ESpace>, shms: map<nat, seq<Page>>)

  /** Some page of the range is already there. */
  ghost predicate Taken(sp: ESpace, start: nat, end: nat) {
    exists v: nat :: PageIn(v, start, end) && (v in sp.priv || v in sp.shared)
  }

  /** A page of a new area: of the file, as far in as the page lies in the area, or all zeros. */
  function FirstContents(files: Files, start: nat, area: Area, v: nat): Page
    requires start <= v * PAGE_SIZE
  {
    match area.kind
    case Private(file, offset) => files(file, Floor(offset + (v * PAGE_SIZE - start)))
    case _ => seq(PAGE_SIZE, _ => 0)
  }

  ghost function NewPages(files: Files, start: nat, end: nat, area: Area): map<nat, EPage> {
    map v: nat | v < USER_VPNS && PageIn(v, start, end) :: EPage(area.perm, FirstContents(files, start, area, v))
  }

  ghost function NewRefs(start: nat, end: nat, id: nat, perm: Perm): map<nat, ERef> {
    map v: nat | v < USER_VPNS && PageIn(v, start, end) :: ERef(id, VpnDown(v * PAGE_SIZE - start), perm)
  }

  ghost function EWith(e: Eager, s: nat, sp: ESpace): Eager { e.(spaces := e.spaces[s := sp]) }

  /** The same labels, without the frames they mention. A page fault is not even noticed. */
  ghost function EStep(e: Eager, files: Files, l: Label): Eager {
    match l
    case NewSpace(s, _) => EWith(e, s, ESpace(map[], map[]))
    case Insert(s, start, end, area) =>
      if s !in e.spaces || Taken(e.spaces[s], start, end) then e
      else EWith(e, s, e.spaces[s].(priv := e.spaces[s].priv + NewPages(files, start, end, area)))
    case Grow(s, start, newEnd) =>
      if s !in e.spaces || VpnDown(start) !in e.spaces[s].priv then e
      else
        var sp := e.spaces[s];
        EWith(e, s, sp.(priv := NewPages(files, start, newEnd, Area(Anonymous, sp.priv[VpnDown(start)].perm)) + sp.priv))
    case Fault(_, _, _, _, _) => e
    case Store(s, v, data) =>
      if s !in e.spaces then e else EWrite(e, s, v, data)
    case Fork(s, c, _) => if s !in e.spaces then e else EWith(e, c, e.spaces[s])
    case Unmap(s, start, end) =>
      if s !in e.spaces then e
      else EWith(e, s, ESpace(e.spaces[s].priv - PagesIn(start, end), e.spaces[s].shared - PagesIn(start, end)))
    case ShmCreate(id, _, pages) => e.(shms := e.shms[id := pages])
    case ShmRetain(_) => e
    case ShmRelease(_) => e
    case Attach(s, id, start, perm, _) =>
      if s !in e.spaces || id !in e.shms || Taken(e.spaces[s], start, start + |e.shms[id]| * PAGE_SIZE) then e
      else
        var sp := e.spaces[s];
        EWith(e, s, sp.(shared := sp.shared + NewRefs(start, start + |e.shms[id]| * PAGE_SIZE, id, perm)))
    case Detach(s, start) =>
      if s !in e.spaces || VpnDown(start) !in e.spaces[s].shared then e
      else EWith(e, s, e.spaces[s].(shared := OtherRefs(e.spaces[s].shared, VpnDown(start))))
    case Drop(s) => e.(spaces := e.spaces - {s})
  }

  /**
   A store reaches the writer's own page, or the page of the segment that all its users see, if the
   writer has the right to write there.
   */
  ghost function EWrite(e: Eager, s: nat, v: nat, data: Page): Eager
    requires s in e.spaces
  {
    var sp := e.spaces[s];
    if v in sp.priv then
      if sp.priv[v].perm.write then EWith(e, s, sp.(priv := sp.priv[v := sp.priv[v].(data := data)])) else e
    else if v in sp.shared && sp.shared[v].perm.write && sp.shared[v].id in e.shms &&
            sp.shared[v].i < |e.shms[sp.shared[v].id]| then
      var r := sp.shared[v];
      e.(shms := e.shms[r.id := e.shms[r.id][r.i := data]])
    else e
  }

  /** All references but those of the attachment that begins at page `lo`. */
  ghost function OtherRefs(shared: map<nat, ERef>, lo: nat): map<nat, ERef>
    requires lo in shared
  {
    map v | v in shared && !(shared[v].id == shared[lo].id && v == lo + shared[v].i) :: shared[v]
  }

  // ---- What a space of the lazy system shows ----

  ghost predicate PrivAt(m: Areas, v: nat)
    requires Wf(m)
  {
    v < USER_VPNS && Lookup(m, v * PAGE_SIZE).Some? && !Lookup(m, v * PAGE_SIZE).value.origin.ShmAt?
  }

  ghost predicate ShareAt(m: Areas, v: nat)
    requires Wf(m)
  {
    v < USER_VPNS && Lookup(m, v * PAGE_SIZE).Some? && Lookup(m, v * PAGE_SIZE).value.origin.ShmAt?
  }

  /** The frame's contents, or what the first touch would bring in. */
  ghost function PageOf(files: Files, sp: Space, p: Pool, v: nat): EPage
    requires Wf(sp.areas) && PrivAt(sp.areas, v)
  {
    var cell := Lookup(sp.areas, v * PAGE_SIZE).value;
    EPage(cell.perm, if v in sp.pt then Content(p, sp.pt[v].frame) else Demand(files, cell.origin))
  }

  ghost function RefOf(m: Areas, v: nat): ERef
    requires Wf(m) && ShareAt(m, v)
  {
    var cell := Lookup(m, v * PAGE_SIZE).value;
    ERef(cell.origin.id, VpnDown(cell.origin.offset), cell.perm)
  }

  ghost function View(files: Files, sp: Space, p: Pool): ESpace
    requires Wf(sp.areas)
  {
    ESpace(map v: nat | v < USER_VPNS && PrivAt(sp.areas, v) :: PageOf(files, sp, p, v),
           map v: nat | v < USER_VPNS && ShareAt(sp.areas, v) :: RefOf(sp.areas, v))
  }

  ghost function Contents(p: Pool, frames: seq<Pte.Frame>): seq<Page> {
    seq(|frames|, i requires 0 <= i < |frames| => Content(p, frames[i]))
  }

  /** The lazy world shows exactly the eager state. */
  ghost predicate Sim(files: Files, w: World, e: Eager) {
    && e.spaces.Keys == w.spaces.Keys
    && (forall s: nat :: SimSpace(files, w, e, s))
    && (forall id: nat :: SimShm(w, e, id))
  }

  ghost predicate SimSpace(files: Files, w: World, e: Eager, s: nat) {
    s in w.spaces ==> s in e.spaces && Wf(w.spaces[s].areas) && e.spaces[s] == View(files, w.spaces[s], w.pool)
  }

  ghost predicate SimShm(w: World, e: Eager, id: nat) {
    id in w.shms ==> id in e.shms && e.shms[id] == Contents(w.pool, w.shms[id].frames)
  }
}
