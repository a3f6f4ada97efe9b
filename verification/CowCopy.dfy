/** `copy_table_and_mark_self_cow` (pagetable.rs) over the three levels of both tables. */
module CowCopy {
  import opened Collections
  import opened Options
  import opened Address
  import opened Pte
  import opened Frames
  import opened PageTables
  import opened PageTableCode
  import opened CowMarks

  /** One tree after one leaf write, stated for all pages at once. */
  lemma OneWrite(t: Tables, root: Frame, shape: map<Frame, Slot>, v: nat, e: Entry)
    requires WfTables(t, root, shape) && Attached(t, root, shape) && v < USER_VPNS
    requires LeafTable(t, root, shape, v).Some? && e.IsLeaf()
    ensures
      var f := LeafTable(t, root, shape, v).value;
      f in t && |t[f]| == ENTRY_COUNT &&
      var t' := t[f := t[f][I1(v) := e]];
      && WfTables(t', root, shape) && Attached(t', root, shape)
      && Flat(t', root, shape) == Flat(t, root, shape)[v := e]
      && forall u: nat :: u < USER_VPNS ==> LeafTable(t', root, shape, u) == LeafTable(t, root, shape, u)
  {
    hide WfTables, Attached, Flat, LeafTable, I1, I2, I3, VpnOf;
    LeafTableLength(t, root, shape, v);
    IndexRound(v);
    var f := LeafTable(t, root, shape, v).value;
    WriteLeafFlat(t, root, shape, v, e);
    WriteLeafAttached(t, root, shape, f, I1(v), e);
    forall u: nat | u < USER_VPNS
      ensures LeafTable(t[f := t[f][I1(v) := e]], root, shape, u) == LeafTable(t, root, shape, u)
    {
      WriteLeafWalk(t, root, shape, v, e, u);
    }
  }

  /** A leaf write in one tree does not touch a disjoint tree. */
  lemma OtherTree(t: Tables, root: Frame, shape: map<Frame, Slot>, f: Frame, table: seq<Entry>)
    requires WfTables(t, root, shape) && Attached(t, root, shape) && f !in shape
    ensures
      var t' := t[f := table];
      && WfTables(t', root, shape) && Attached(t', root, shape)
      && Flat(t', root, shape) == Flat(t, root, shape)
      && forall u: nat :: u < USER_VPNS ==> LeafTable(t', root, shape, u) == LeafTable(t, root, shape, u)
  {
    hide WfTables, Attached, Flat, LeafTable;
    TreeTables(t, root, shape);
    FlatFrame(t, t[f := table], root, shape);
    LeafTableFrame(t, t[f := table], root, shape);
  }

  /** The same entry written at page `v` of two disjoint trees. */
  lemma TwoWrites(t: Tables, oroot: Frame, os: map<Frame, Slot>, nroot: Frame, ns: map<Frame, Slot>, v: nat, e: Entry)
    requires WfTables(t, oroot, os) && Attached(t, oroot, os) && WfTables(t, nroot, ns) && Attached(t, nroot, ns)
    requires os.Keys !! ns.Keys && v < USER_VPNS && e.IsLeaf()
    requires LeafTable(t, oroot, os, v).Some? && LeafTable(t, nroot, ns, v).Some?
    ensures
      var f, g := LeafTable(t, oroot, os, v).value, LeafTable(t, nroot, ns, v).value;
      f in t && |t[f]| == ENTRY_COUNT && g in t && |t[g]| == ENTRY_COUNT &&
      var t' := t[f := t[f][I1(v) := e]][g := t[g][I1(v) := e]];
      && WfTables(t', oroot, os) && Attached(t', oroot, os) && Flat(t', oroot, os) == Flat(t, oroot, os)[v := e]
      && WfTables(t', nroot, ns) && Attached(t', nroot, ns) && Flat(t', nroot, ns) == Flat(t, nroot, ns)[v := e]
  {
    hide WfTables, Attached, Flat, LeafTable, I1, I2, I3, VpnOf;
    IndexRound(v);
    LeafTableLength(t, oroot, os, v);
    LeafTableLength(t, nroot, ns, v);
    var f, g := LeafTable(t, oroot, os, v).value, LeafTable(t, nroot, ns, v).value;
    OneWrite(t, oroot, os, v, e);
    OtherTree(t, nroot, ns, f, t[f][I1(v) := e]);
    var t1 := t[f := t[f][I1(v) := e]];
    OneWrite(t1, nroot, ns, v, e);
    OtherTree(t1, oroot, os, g, t1[g][I1(v) := e]);
  }

  /** Every entry is a leaf of the user half whose frame is in use. */
  ghost predicate Mapped(flat: map<nat, Entry>, p0: Pool) {
    forall v :: v in flat ==>
      v < USER_VPNS && flat[v].IsLeaf() && flat[v].frame in p0.count && flat[v].frame !in p0.free
  }

  lemma CopyingOk(flat: map<nat, Entry>, p0: Pool, news: set<Frame>, bound: nat,
                  parent: map<nat, Entry>, child: map<nat, Entry>, p: Pool)
    requires Copying(flat, p0, news, bound, parent, child, p) && PoolOk(p0) && news <= p0.free && Mapped(flat, p0)
    ensures PoolOk(p) && p.free == p0.free - news
  {
    forall f | f in p.free
      ensures UsersBelow(flat, bound, f) == {}
    {
    }
  }

  ghost function Slots(shape: map<Frame, Slot>): set<Slot> { set f | f in shape :: shape[f] }

  ghost predicate Together(o: PageTable, n: PageTable, pm: PhysMem)
    reads o, n, pm
  {
    && o != n && o.Valid(pm) && n.Valid(pm)
    && o.shape.Keys !! n.shape.Keys
    && Slots(n.shape) <= Slots(o.shape)
  }

  /** The copy has reached page `bound`; `flat` and `p0` are what the parent and the pool were at its start. */
  ghost predicate At(o: PageTable, n: PageTable, pm: PhysMem, flat: map<nat, Entry>, p0: Pool, bound: nat)
    reads o, n, pm
  {
    && Together(o, n, pm)
    && PoolOk(p0) && n.shape.Keys <= p0.free && Mapped(flat, p0)
    && Copying(flat, p0, n.shape.Keys, bound, o.Map(pm), n.Map(pm), pm.State())
  }

  /** The body of the innermost loop. */
  method CopyEntry(o: PageTable, n: PageTable, pm: PhysMem, v: nat, of: Frame, nf: Frame,
                   ghost flat: map<nat, Entry>, ghost p0: Pool)
    requires v < USER_VPNS && At(o, n, pm, flat, p0, v)
    requires LeafTable(pm.tab, o.root, o.shape, v) == Some(of)
    requires LeafTable(pm.tab, n.root, n.shape, v) == Some(nf)
    modifies pm
    ensures At(o, n, pm, flat, p0, v + 1)
    ensures OthersSame(old(pm.tab), pm.tab, {of, nf})
  {
    hide WfTables, Attached, Flat, KernelHalf, LeafTable, I1, I2, I3, VpnOf, Copying, Distinct, Slots, PoolOk, InShare,
      OthersSame;
    SameOthers(pm.tab, {of, nf});
    IndexRound(v);
    LeafTableLength(pm.tab, o.root, o.shape, v);
    LeafTableLength(pm.tab, n.root, n.shape, v);
    FlatAt(pm.tab, o.root, o.shape, v);
    var e := pm.tab[of][I1(v)];
    if !e.Valid() {
      CopyingAbsent(flat, p0, n.shape.Keys, v, o.Map(pm), n.Map(pm), pm.State());
      return;
    }
    CopyMapped(o, n, pm, v, of, nf, flat, p0);
  }

  /** The same for an entry that is valid. */
  method CopyMapped(o: PageTable, n: PageTable, pm: PhysMem, v: nat, of: Frame, nf: Frame,
                    ghost flat: map<nat, Entry>, ghost p0: Pool)
    requires v < USER_VPNS && At(o, n, pm, flat, p0, v) && v in o.Map(pm)
    requires LeafTable(pm.tab, o.root, o.shape, v) == Some(of)
    requires LeafTable(pm.tab, n.root, n.shape, v) == Some(nf)
    modifies pm
    ensures At(o, n, pm, flat, p0, v + 1)
    ensures OthersSame(old(pm.tab), pm.tab, {of, nf})
  {
    hide WfTables, Attached, Flat, KernelHalf, LeafTable, Copying, Distinct, Slots, PoolOk, OthersSame, Mapped, I1,
      I2, I3,
      VpnOf, CowMark, AfterMark;
    IndexRound(v);
    FlatAt(pm.tab, o.root, o.shape, v);
    MarkStep(flat, p0, n.shape.Keys, v, o.Map(pm), n.Map(pm), pm.State());
    var e := MarkEntry(pm, v, pm.tab[of][I1(v)]);
    WriteBoth(o, n, pm, v, of, nf, e);
  }

  ghost function AfterMark(p: Pool, e: Entry): Pool
    requires e.flags.u ==> e.frame in p.count
  {
    if e.flags.u then p.(count := p.count[e.frame := p.count[e.frame] + 1]) else p
  }

  lemma MarkStep(flat: map<nat, Entry>, p0: Pool, news: set<Frame>, v: nat, parent: map<nat, Entry>, child: map<nat,
                 Entry>, p: Pool)
    requires Copying(flat, p0, news, v, parent, child, p) && PoolOk(p0) && news <= p0.free && Mapped(flat, p0)
    requires v in parent
    ensures v in flat && parent[v] == flat[v] && flat[v].IsLeaf() && flat[v].frame in p.count
    ensures
      var e, p' := CowMark(v, flat[v]), AfterMark(p, flat[v]);
      && Copying(flat, p0, news, v + 1, parent[v := e], child[v := e], p')
      && PoolOk(p') && p'.free == p.free && p'.count.Keys == p.count.Keys
  {
    hide Copying, Mapped, PoolOk, CowMark;
    CopyingPresent(flat, p0, news, v, parent, child, p);
    MappedAt(flat, p0, v);
    CopyingPage(flat, p0, news, v, parent, child, p);
    var e := CowMark(v, flat[v]);
    CopyingOk(flat, p0, news, v + 1, parent[v := e], child[v := e], AfterMark(p, flat[v]));
  }

  /** A user page gets one more reference and, outside the share segment, the copy-on-write marks. */
  method MarkEntry(pm: PhysMem, v: nat, e: Entry) returns (r: Entry)
    requires e.flags.u ==> e.frame in pm.count
    modifies pm`count
    ensures r == CowMark(v, e) && (e.IsLeaf() ==> r.IsLeaf())
    ensures pm.State() == AfterMark(old(pm.State()), e)
  {
    r := e;
    if e.flags.u {
      pm.Increase(e.frame);
      if !InShare(v) {
        r := e.ClearWritable().SetShared();
      }
    }
  }

  /** The entry of `v` is stored in both leaf tables. */
  method WriteBoth(o: PageTable, n: PageTable, pm: PhysMem, v: nat, of: Frame, nf: Frame, e: Entry)
    requires v < USER_VPNS && Together(o, n, pm) && e.IsLeaf()
    requires LeafTable(pm.tab, o.root, o.shape, v) == Some(of)
    requires LeafTable(pm.tab, n.root, n.shape, v) == Some(nf)
    modifies pm`tab
    ensures Together(o, n, pm) && o.Map(pm) == old(o.Map(pm))[v := e] && n.Map(pm) == old(n.Map(pm))[v := e]
    ensures OthersSame(old(pm.tab), pm.tab, {of, nf})
  {
    hide WfTables, Attached, Flat, KernelHalf, LeafTable, I1, I2, I3, VpnOf, Distinct, Slots, PoolOk, OthersSame;
    IndexRound(v);
    LeafTableLength(pm.tab, o.root, o.shape, v);
    LeafTableLength(pm.tab, n.root, n.shape, v);
    TwoWrites(pm.tab, o.root, o.shape, n.root, n.shape, v, e);
    TwoKernels(pm.tab, o.root, o.shape, of, pm.tab[of][I1(v) := e], nf, pm.tab[nf][I1(v) := e], o.kernel);
    TwoKernels(pm.tab, n.root, n.shape, nf, pm.tab[nf][I1(v) := e], of, pm.tab[of][I1(v) := e], n.kernel);
    UpdateOrder(pm.tab, of, pm.tab[of][I1(v) := e], nf, pm.tab[nf][I1(v) := e]);
    TwoOthers(pm.tab, of, pm.tab[of][I1(v) := e], nf, pm.tab[nf][I1(v) := e]);
    pm.tab := pm.tab[of := pm.tab[of][I1(v) := e]];
    pm.tab := pm.tab[nf := pm.tab[nf][I1(v) := e]];
  }

  lemma TwoKernels(t: Tables, root: Frame, shape: map<Frame, Slot>, f: Frame, a: seq<Entry>, g: Frame, b: seq<Entry>,
                   kernel: seq<Entry>)
    requires WfTables(t, root, shape) && KernelHalf(t, root, kernel) && f in shape && shape[f].Leaf? && g !in shape
    ensures KernelHalf(t[f := a][g := b], root, kernel)
  {
  }

  lemma UpdateOrder(t: Tables, f: Frame, a: seq<Entry>, g: Frame, b: seq<Entry>)
    requires f != g
    ensures t[f := a][g := b] == t[g := b][f := a]
  {
  }

  lemma MappedAt(flat: map<nat, Entry>, p: Pool, v: nat)
    requires Mapped(flat, p) && v in flat
    ensures flat[v].IsLeaf() && flat[v].frame in p.count
  {
  }

  lemma TwoOthers(t: Tables, f: Frame, a: seq<Entry>, g: Frame, b: seq<Entry>)
    ensures OthersSame(t, t[f := a][g := b], {f, g})
  {
  }

  // ---- Frames for the child's tables ----

  lemma SlotsCount(t: Tables, root: Frame, shape: map<Frame, Slot>, keys: set<Frame>)
    requires WfTables(t, root, shape) && Attached(t, root, shape) && keys <= shape.Keys
    ensures |set f | f in keys :: shape[f]| == |keys|
  {
    if keys == {} {
      assert (set f | f in keys :: shape[f]) == {};
    } else {
      var g :| g in keys;
      SlotsCount(t, root, shape, keys - {g});
      var small := set f | f in keys - {g} :: shape[f];
      assert (set f | f in keys :: shape[f]) == small + {shape[g]};
      if shape[g] in small {
        var f :| f in keys - {g} && shape[f] == shape[g];
        SlotsDistinct(t, root, shape, f, g);
      }
    }
  }

  /** A place the parent uses and the child does not: the child still has fewer tables than the parent. */
  lemma FrameLeft(t: Tables, oroot: Frame, os: map<Frame, Slot>, nroot: Frame, ns: map<Frame, Slot>, at: Slot,
                  free: set<Frame>, p0: Pool)
    requires WfTables(t, oroot, os) && Attached(t, oroot, os) && WfTables(t, nroot, ns) && Attached(t, nroot, ns)
    requires Slots(ns) <= Slots(os) && at in Slots(os) && at !in Slots(ns)
    requires ns.Keys <= p0.free && free == p0.free - ns.Keys && |os.Keys| <= |p0.free|
    ensures free != {}
  {
    SlotsCount(t, oroot, os, os.Keys);
    SlotsCount(t, nroot, ns, ns.Keys);
    assert Slots(ns) == set f | f in ns.Keys :: ns[f];
    assert Slots(os) == set f | f in os.Keys :: os[f];
    Smaller(Slots(ns), Slots(os), at);
    assert |free| == |p0.free| - |ns.Keys|;
  }

  lemma Smaller(a: set<Slot>, b: set<Slot>, x: Slot)
    requires a <= b && x in b && x !in a
    ensures |a| < |b|
  {
    assert a <= b - {x};
    CardMono(a, b - {x});
  }

  lemma SlotsAdd(shape: map<Frame, Slot>, f: Frame, at: Slot)
    ensures Slots(shape[f := at]) <= Slots(shape) + {at}
  {
  }

  lemma GrownOthers(s0: map<Frame, Slot>, t0: Tables, p0: Pool, s1: map<Frame, Slot>, t1: Tables, p1: Pool,
                    news: set<Frame>)
    requires Grown(s0, t0, p0, s1, t1, p1, news)
    ensures OthersSame(t0, t1, s1.Keys) && s0.Keys <= s1.Keys
  {
  }

  lemma SlotUnused(t: Tables, root: Frame, shape: map<Frame, Slot>, i: nat, j: nat, m: Frame)
    requires WfTables(t, root, shape) && Attached(t, root, shape) && i < 256
    ensures !t[root][i].Valid() ==> Mid(i) !in Slots(shape)
    ensures j < ENTRY_COUNT && t[root][i].Valid() && t[root][i].frame == m && m in t &&
            |t[m]| == ENTRY_COUNT && !t[m][j].Valid() ==>
              Leaf(i, j) !in Slots(shape)
  {
    forall f | f in shape
      ensures InPlace(t, root, shape[f], f)
    {
    }
  }

  lemma SlotUsed(t: Tables, root: Frame, shape: map<Frame, Slot>, i: nat, j: nat)
    requires WfTables(t, root, shape) && i < 256 && j < ENTRY_COUNT
    ensures
      var e := t[root][i];
      e.Valid() ==>
        && e.frame in shape && e.frame in t && |t[e.frame]| == ENTRY_COUNT && shape[e.frame] == Mid(i)
        && Mid(i) in Slots(shape)
        && (t[e.frame][j].Valid() ==> t[e.frame][j].frame in shape && Leaf(i, j) in Slots(shape))
  {
    var e := t[root][i];
    if e.Valid() {
      assert DirectoryTo(e, shape, Mid(i));
      if t[e.frame][j].Valid() {
        assert DirectoryTo(t[e.frame][j], shape, Leaf(i, j));
      }
    }
  }

  // ---- The three loops ----

  /** The second-level table of row `i`. */
  ghost predicate Row(t: Tables, root: Frame, i: nat, m: Frame) {
    && root in t && i < |t[root]| && t[root][i].Valid() && t[root][i].frame == m
    && m in t && |t[m]| == ENTRY_COUNT
  }

  /** Creating child tables leaves the parent's tree and the progress of the copy as they are. */
  lemma AfterGrowth(o: PageTable, n: PageTable, pm: PhysMem, flat: map<nat, Entry>, p0: Pool, bound: nat,
                    t: Tables, ns: map<Frame, Slot>, nflat: map<nat, Entry>, p: Pool, news: set<Frame>)
    requires o != n && n.Valid(pm) && Distinct(o.tables) && (forall f :: f in o.tables <==> f in o.shape)
    requires WfTables(t, o.root, o.shape) && Attached(t, o.root, o.shape) && KernelHalf(t, o.root, o.kernel)
    requires PoolOk(p0) && ns.Keys <= p0.free && Mapped(flat, p0) && o.shape.Keys !! ns.Keys
    requires o.shape.Keys <= p.count.Keys && o.shape.Keys !! p.free
    requires Copying(flat, p0, ns.Keys, bound, Flat(t, o.root, o.shape), nflat, p)
    requires Grown(ns, t, p, n.shape, pm.tab, pm.State(), news) && n.Map(pm) == nflat
    requires Slots(n.shape) <= Slots(o.shape)
    ensures At(o, n, pm, flat, p0, bound)
    ensures forall f :: f in o.shape ==> f in pm.tab && pm.tab[f] == t[f]
  {
    hide Flat, KernelHalf, Copying, Attached, Slots, Distinct;
    assert p.free == p0.free - ns.Keys by { CopyingOk(flat, p0, ns.Keys, bound, Flat(t, o.root, o.shape), nflat, p); }
    assert forall f :: f in o.shape ==> f in pm.tab && pm.tab[f] == t[f] by {
      hide WfTables;
      TreeTables(t, o.root, o.shape);
    }
    hide WfTables, PoolOk;
    TreeRoot(t, o.root, o.shape);
    KernelSame(t, pm.tab, o.root, o.kernel);
    FlatFrame(t, pm.tab, o.root, o.shape);
    LeafTableFrame(t, pm.tab, o.root, o.shape);
    CopyingGrow(flat, p0, ns.Keys, news, bound, Flat(t, o.root, o.shape), nflat, p);
    CopyingOk(flat, p0, n.shape.Keys, bound, Flat(pm.tab, o.root, o.shape), nflat, pm.State());
  }

  /** `new.next_table_mut_or_create(np2)` */
  method CreateLeaf(o: PageTable, n: PageTable, pm: PhysMem, i: nat, j: nat, om: Frame, nm: Frame,
                    ghost flat: map<nat, Entry>, ghost p0: Pool, ghost bound: nat) returns (nf: Frame)
    requires i < 256 && j < ENTRY_COUNT && At(o, n, pm, flat, p0, bound) && |o.shape.Keys| <= |p0.free|
    requires Row(pm.tab, o.root, i, om) && Row(pm.tab, n.root, i, nm) && pm.tab[om][j].Valid()
    modifies n, pm
    ensures At(o, n, pm, flat, p0, bound) && n.root == old(n.root) && old(n.shape).Keys <= n.shape.Keys
    ensures Row(pm.tab, o.root, i, om) && pm.tab[om] == old(pm.tab)[om]
    ensures Row(pm.tab, n.root, i, nm) && pm.tab[nm][j].Valid() && pm.tab[nm][j].frame == nf
    ensures OthersSame(old(pm.tab), pm.tab, n.shape.Keys)
  {
    hide WfTables, Attached, Flat, KernelHalf, LeafTable, Copying, Distinct, Slots, PoolOk, Grown;
    SlotUsed(pm.tab, o.root, o.shape, i, j);
    SlotUsed(pm.tab, n.root, n.shape, i, j);
    SlotUnused(pm.tab, n.root, n.shape, i, j, nm);
    ghost var t, ns, nflat, p := pm.tab, n.shape, n.Map(pm), pm.State();
    CopyingOk(flat, p0, ns.Keys, bound, o.Map(pm), nflat, p);
    if !pm.tab[nm][j].Valid() {
      FrameLeft(t, o.root, o.shape, n.root, ns, Leaf(i, j), pm.free, p0);
    }
    TreeRoot(t, o.root, o.shape);
    TreeRoot(t, n.root, n.shape);
    ghost var news;
    nf, news := n.EnsureLeaf(pm, nm, j);
    SlotsAdd(ns, nf, Leaf(i, j));
    GrownOthers(ns, t, p, n.shape, pm.tab, pm.State(), news);
    TreeRoot(pm.tab, n.root, n.shape);
    AfterGrowth(o, n, pm, flat, p0, bound, t, ns, nflat, p, news);
  }

  /** `new.next_table_mut_or_create(np1)` */
  method CreateMid(o: PageTable, n: PageTable, pm: PhysMem, i: nat, om: Frame,
                   ghost flat: map<nat, Entry>, ghost p0: Pool, ghost bound: nat) returns (nm: Frame)
    requires i < 256 && At(o, n, pm, flat, p0, bound) && |o.shape.Keys| <= |p0.free|
    requires Row(pm.tab, o.root, i, om)
    modifies n, pm
    ensures At(o, n, pm, flat, p0, bound) && n.root == old(n.root) && old(n.shape).Keys <= n.shape.Keys
    ensures Row(pm.tab, o.root, i, om) && Row(pm.tab, n.root, i, nm)
    ensures OthersSame(old(pm.tab), pm.tab, n.shape.Keys)
  {
    hide WfTables, Attached, Flat, KernelHalf, LeafTable, Copying, Distinct, Slots, PoolOk, Grown;
    SlotUsed(pm.tab, o.root, o.shape, i, 0);
    TreeRoot(pm.tab, o.root, o.shape);
    TreeRoot(pm.tab, n.root, n.shape);
    SlotUnused(pm.tab, n.root, n.shape, i, 0, 0);
    ghost var t, ns, nflat, p := pm.tab, n.shape, n.Map(pm), pm.State();
    CopyingOk(flat, p0, ns.Keys, bound, o.Map(pm), nflat, p);
    if !pm.tab[n.root][i].Valid() {
      FrameLeft(t, o.root, o.shape, n.root, ns, Mid(i), pm.free, p0);
    }
    ghost var news;
    nm, news := n.EnsureMid(pm, i);
    SlotsAdd(ns, nm, Mid(i));
    AfterGrowth(o, n, pm, flat, p0, bound, t, ns, nflat, p, news);
    GrownOthers(ns, t, p, n.shape, pm.tab, pm.State(), news);
    CellFacts(pm.tab, n.root, n.shape, nm, 0);
    TreeRoot(pm.tab, n.root, n.shape);
  }

  /** The copy of one leaf table: pages (i, j, 0) to (i, j, 511). */
  method CopyLeaf(o: PageTable, n: PageTable, pm: PhysMem, i: nat, j: nat, om: Frame, nm: Frame,
                  ghost flat: map<nat, Entry>, ghost p0: Pool)
    requires i < 256 && j < ENTRY_COUNT && At(o, n, pm, flat, p0, VpnOf(i, j, 0)) && |o.shape.Keys| <= |p0.free|
    requires Row(pm.tab, o.root, i, om) && Row(pm.tab, n.root, i, nm)
    modifies n, pm
    ensures At(o, n, pm, flat, p0, VpnOf(i, j, ENTRY_COUNT)) && n.root == old(n.root)
    ensures old(n.shape).Keys <= n.shape.Keys
    ensures Row(pm.tab, o.root, i, om) && Row(pm.tab, n.root, i, nm)
    ensures OthersSame(old(pm.tab), pm.tab, o.shape.Keys + n.shape.Keys)
  {
    hide WfTables, Attached, Flat, KernelHalf, LeafTable, Copying, Distinct, Slots, PoolOk, Grown, VpnOf;
    var e := pm.tab[om][j];
    if !e.Valid() {
      LeafAbsent(pm.tab, o.root, o.shape, i, j, om);
      CopyingPresent(flat, p0, n.shape.Keys, VpnOf(i, j, 0), o.Map(pm), n.Map(pm), pm.State());
      VpnOrder(i, j, 0, ENTRY_COUNT);
      CopyingSkip(flat, p0, n.shape.Keys, VpnOf(i, j, 0), VpnOf(i, j, ENTRY_COUNT), o.Map(pm), n.Map(pm), pm.State());
      return;
    }
    ghost var t := pm.tab;
    var nf := CreateLeaf(o, n, pm, i, j, om, nm, flat, p0, VpnOf(i, j, 0));
    ghost var t1 := pm.tab;
    CopyEntries(o, n, pm, i, j, om, e.frame, nm, nf, flat, p0);
    OthersChain(t, t1, pm.tab, n.shape.Keys, o.shape.Keys + n.shape.Keys);
  }

  lemma OthersChain(a: Tables, b: Tables, c: Tables, own1: set<Frame>, own2: set<Frame>)
    requires OthersSame(a, b, own1) && OthersSame(b, c, own2) && own1 <= own2
    ensures OthersSame(a, c, own2)
  {
  }

  lemma VpnOrder(i: nat, j: nat, k: nat, k': nat)
    requires k <= k'
    ensures VpnOf(i, j, k) <= VpnOf(i, j, k')
  {
  }

  /** No leaf table, no page. */
  lemma LeafAbsent(t: Tables, root: Frame, shape: map<Frame, Slot>, i: nat, j: nat, m: Frame)
    requires WfTables(t, root, shape) && i < 256 && j < ENTRY_COUNT && Row(t, root, i, m) && !t[m][j].Valid()
    ensures forall v :: v in Flat(t, root, shape) ==> !(VpnOf(i, j, 0) <= v < VpnOf(i, j, ENTRY_COUNT))
  {
    hide WfTables, Flat, LeafTable;
    forall v: nat | VpnOf(i, j, 0) <= v < VpnOf(i, j, ENTRY_COUNT)
      ensures v !in Flat(t, root, shape)
    {
      var k := v - VpnOf(i, j, 0);
      assert v == VpnOf(i, j, k);
      IndexInverse(i, j, k);
      LeafTableNone(t, root, shape, v, m);
    }
  }

  /** The slots that lead to leaf table `f`. */
  ghost predicate Path(t: Tables, root: Frame, i: nat, j: nat, m: Frame, f: Frame) {
    Row(t, root, i, m) && j < ENTRY_COUNT && t[m][j].Valid() && t[m][j].frame == f
  }

  lemma PathKept(t: Tables, t': Tables, root: Frame, shape: map<Frame, Slot>, i: nat, j: nat, m: Frame, f: Frame,
                 g: Frame)
    requires WfTables(t, root, shape) && i < 256 && Path(t, root, i, j, m, f) && g !in shape
    requires OthersSame(t, t', {f, g})
    ensures Path(t', root, i, j, m, f)
  {
    Levels(t, root, shape, i, j, m, f);
  }

  /** The innermost loop. */
  method CopyEntries(o: PageTable, n: PageTable, pm: PhysMem, i: nat, j: nat, om: Frame, of: Frame, nm: Frame,
                     nf: Frame,
                     ghost flat: map<nat, Entry>, ghost p0: Pool)
    requires i < 256 && j < ENTRY_COUNT && At(o, n, pm, flat, p0, VpnOf(i, j, 0))
    requires Path(pm.tab, o.root, i, j, om, of) && Path(pm.tab, n.root, i, j, nm, nf)
    modifies pm
    ensures At(o, n, pm, flat, p0, VpnOf(i, j, ENTRY_COUNT))
    ensures Path(pm.tab, o.root, i, j, om, of) && Path(pm.tab, n.root, i, j, nm, nf)
    ensures OthersSame(old(pm.tab), pm.tab, o.shape.Keys + n.shape.Keys)
  {
    hide WfTables, Attached, Flat, KernelHalf, LeafTable, Copying, Distinct, Slots, PoolOk, VpnOf, OthersSame, Path;
    ghost var t0 := pm.tab;
    assert OthersSame(t0, t0, o.shape.Keys + n.shape.Keys) by { SameOthers(t0, o.shape.Keys + n.shape.Keys); }
    var k := 0;
    while k < ENTRY_COUNT
      invariant k <= ENTRY_COUNT && At(o, n, pm, flat, p0, VpnOf(i, j, k))
      invariant Path(pm.tab, o.root, i, j, om, of) && Path(pm.tab, n.root, i, j, nm, nf)
      invariant OthersSame(t0, pm.tab, o.shape.Keys + n.shape.Keys)
    {
      ghost var t := pm.tab;
      PathPage(t, o.root, o.shape, i, j, k, om, of);
      PathPage(t, n.root, n.shape, i, j, k, nm, nf);
      CopyEntry(o, n, pm, VpnOf(i, j, k), of, nf, flat, p0);
      PathKept(t, pm.tab, o.root, o.shape, i, j, om, of, nf);
      OthersSym(t, pm.tab, of, nf);
      PathKept(t, pm.tab, n.root, n.shape, i, j, nm, nf, of);
      OthersTwo(t0, t, pm.tab, o.shape.Keys + n.shape.Keys, of, nf);
      k := k + 1;
    }
  }

  lemma SameOthers(t: Tables, own: set<Frame>)
    ensures OthersSame(t, t, own)
  {
  }

  lemma OthersSym(t: Tables, t': Tables, f: Frame, g: Frame)
    requires OthersSame(t, t', {f, g})
    ensures OthersSame(t, t', {g, f})
  {
  }

  lemma OthersTwo(t0: Tables, t: Tables, t': Tables, own: set<Frame>, f: Frame, g: Frame)
    requires OthersSame(t0, t, own) && OthersSame(t, t', {f, g}) && f in own && g in own
    ensures OthersSame(t0, t', own)
  {
  }

  lemma PathPage(t: Tables, root: Frame, shape: map<Frame, Slot>, i: nat, j: nat, k: nat, m: Frame, f: Frame)
    requires WfTables(t, root, shape) && i < 256 && k < ENTRY_COUNT && Path(t, root, i, j, m, f)
    ensures f in shape && VpnOf(i, j, k) < USER_VPNS && VpnOf(i, j, k) + 1 == VpnOf(i, j, k + 1)
    ensures LeafTable(t, root, shape, VpnOf(i, j, k)) == Some(f)
  {
    IndexInverse(i, j, k);
    Levels(t, root, shape, i, j, m, f);
    LeafTableVia(t, root, shape, VpnOf(i, j, k), m, f);
  }

  lemma LeafTableNone(t: Tables, root: Frame, shape: map<Frame, Slot>, v: nat, m: Frame)
    requires WfTables(t, root, shape) && v < USER_VPNS && Row(t, root, I3(v), m) && !t[m][I2(v)].Valid()
    ensures v !in Flat(t, root, shape)
  {
    FlatAt(t, root, shape, v);
  }

  /** The tables on a path are three different ones of the tree. */
  lemma Levels(t: Tables, root: Frame, shape: map<Frame, Slot>, i: nat, j: nat, m: Frame, f: Frame)
    requires WfTables(t, root, shape) && i < 256 && j < ENTRY_COUNT && Row(t, root, i, m)
    requires t[m][j].Valid() && t[m][j].frame == f
    ensures {root, m, f} <= shape.Keys && root != m && m != f && f != root
  {
    assert DirectoryTo(t[root][i], shape, Mid(i));
    assert DirectoryTo(t[m][j], shape, Leaf(i, j));
  }

  /** No second-level table, no page. */
  lemma RowAbsent(t: Tables, root: Frame, shape: map<Frame, Slot>, i: nat)
    requires WfTables(t, root, shape) && i < 256 && !t[root][i].Valid()
    ensures forall v :: v in Flat(t, root, shape) ==> !(VpnOf(i, 0, 0) <= v < VpnOf(i + 1, 0, 0))
  {
    hide WfTables, Flat;
    forall v: nat | VpnOf(i, 0, 0) <= v < VpnOf(i + 1, 0, 0)
      ensures v !in Flat(t, root, shape)
    {
      assert I3(v) == i && v < USER_VPNS;
      FlatAt(t, root, shape, v);
      RowNone(t, root, shape, v);
    }
  }

  lemma RowNone(t: Tables, root: Frame, shape: map<Frame, Slot>, v: nat)
    requires WfTables(t, root, shape) && v < USER_VPNS && !t[root][I3(v)].Valid()
    ensures LeafTable(t, root, shape, v) == None
  {
  }

  /** The copy of one second-level table: all pages of row `i`. */
  method CopyRow(o: PageTable, n: PageTable, pm: PhysMem, i: nat, ghost flat: map<nat, Entry>, ghost p0: Pool)
    requires i < 256 && At(o, n, pm, flat, p0, VpnOf(i, 0, 0)) && |o.shape.Keys| <= |p0.free|
    modifies n, pm
    ensures At(o, n, pm, flat, p0, VpnOf(i + 1, 0, 0)) && n.root == old(n.root) && old(n.shape).Keys <= n.shape.Keys
    ensures OthersSame(old(pm.tab), pm.tab, o.shape.Keys + n.shape.Keys)
  {
    hide WfTables, Attached, Flat, KernelHalf, LeafTable, Copying, Distinct, Slots, PoolOk, VpnOf, OthersSame, Row;
    ghost var t0 := pm.tab;
    TreeRoot(pm.tab, o.root, o.shape);
    var e := pm.tab[o.root][i];
    if !e.Valid() {
      RowAbsent(pm.tab, o.root, o.shape, i);
      CopyingPresent(flat, p0, n.shape.Keys, VpnOf(i, 0, 0), o.Map(pm), n.Map(pm), pm.State());
      RowOrder(i);
      CopyingSkip(flat, p0, n.shape.Keys, VpnOf(i, 0, 0), VpnOf(i + 1, 0, 0), o.Map(pm), n.Map(pm), pm.State());
      SameOthers(t0, o.shape.Keys + n.shape.Keys);
      return;
    }
    var om := e.frame;
    RowOf(pm.tab, o.root, o.shape, i);
    var nm := CreateMid(o, n, pm, i, om, flat, p0, VpnOf(i, 0, 0));
    OthersMore(t0, pm.tab, n.shape.Keys, o.shape.Keys + n.shape.Keys);
    ghost var t, own := pm.tab, o.shape.Keys + n.shape.Keys;
    CopyLeaves(o, n, pm, i, om, nm, flat, p0);
    OthersChain(t0, t, pm.tab, own, o.shape.Keys + n.shape.Keys);
  }

  method CopyLeaves(o: PageTable, n: PageTable, pm: PhysMem, i: nat, om: Frame, nm: Frame,
                    ghost flat: map<nat, Entry>, ghost p0: Pool)
    requires i < 256 && o != n && At(o, n, pm, flat, p0, VpnOf(i, 0, 0)) && |o.shape.Keys| <= |p0.free|
    requires Row(pm.tab, o.root, i, om) && Row(pm.tab, n.root, i, nm)
    modifies n, pm
    ensures At(o, n, pm, flat, p0, VpnOf(i + 1, 0, 0)) && n.root == old(n.root) && old(n.shape).Keys <= n.shape.Keys
    ensures OthersSame(old(pm.tab), pm.tab, o.shape.Keys + n.shape.Keys)
  {
    hide At, Flat, VpnOf, OthersSame, Row, WfTables, Attached, KernelHalf, PoolOk, Distinct, Slots, Copying, Mapped;
    ghost var t0 := pm.tab;
    SameOthers(t0, o.shape.Keys + n.shape.Keys);
    RowOrder(i);
    var j := 0;
    while j < ENTRY_COUNT
      invariant j <= ENTRY_COUNT && At(o, n, pm, flat, p0, VpnOf(i, j, 0)) && n.root == old(n.root)
      invariant old(n.shape).Keys <= n.shape.Keys
      invariant Row(pm.tab, o.root, i, om) && Row(pm.tab, n.root, i, nm)
      invariant OthersSame(t0, pm.tab, o.shape.Keys + n.shape.Keys)
    {
      ghost var t, own := pm.tab, o.shape.Keys + n.shape.Keys;
      CopyLeaf(o, n, pm, i, j, om, nm, flat, p0);
      LeafOrder(i, j);
      OthersChain(t0, t, pm.tab, own, o.shape.Keys + n.shape.Keys);
      j := j + 1;
    }
  }

  lemma RowBounds()
    ensures VpnOf(0, 0, 0) == 0 && VpnOf(256, 0, 0) == USER_VPNS
  {
  }

  lemma RowOrder(i: nat)
    ensures VpnOf(i, 0, 0) <= VpnOf(i + 1, 0, 0) == VpnOf(i, ENTRY_COUNT, 0)
  {
  }

  lemma LeafOrder(i: nat, j: nat)
    ensures VpnOf(i, j, ENTRY_COUNT) == VpnOf(i, j + 1, 0)
  {
  }

  lemma RowOf(t: Tables, root: Frame, shape: map<Frame, Slot>, i: nat)
    requires WfTables(t, root, shape) && i < 256 && t[root][i].Valid()
    ensures Row(t, root, i, t[root][i].frame)
  {
  }

  lemma OthersMore(t: Tables, t': Tables, own1: set<Frame>, own2: set<Frame>)
    requires OthersSame(t, t', own1) && own1 <= own2
    ensures OthersSame(t, t', own2)
  {
  }

  /**
   `copy_table_and_mark_self_cow`: parent and child end with the same flat map and the same kernel half,
   every private user page write-protected and marked shared in both, every user reference counted once
   more, and nothing else changed. It needs no more frames than the parent has tables.
   */
  method CopyTableAndMarkSelfCow(o: PageTable, pm: PhysMem) returns (n: PageTable)
    requires o.Valid(pm) && Mapped(o.Map(pm), pm.State()) && |o.shape.Keys| <= |pm.free|
    modifies pm
    ensures fresh(n) && o.Valid(pm) && n.Valid(pm) && n.kernel == o.kernel
    ensures n.shape.Keys <= old(pm.free) && o.shape.Keys !! n.shape.Keys
    ensures o.Map(pm) == Marked(old(o.Map(pm))) && n.Map(pm) == Marked(old(o.Map(pm)))
    ensures pm.State() == Shared(old(pm.State()), n.shape.Keys, old(o.Map(pm)))
    ensures OthersSame(old(pm.tab), pm.tab, o.shape.Keys + n.shape.Keys)
  {
    hide WfTables, Attached, Flat, KernelHalf, LeafTable, Copying, Distinct, PoolOk, VpnOf, OthersSame, Slots;
    ghost var flat, p0, t0 := o.Map(pm), pm.State(), pm.tab;
    TreeRoot(pm.tab, o.root, o.shape);
    n := Begin(o, pm);
    RowBounds();
    var i := 0;
    while i < 256
      invariant i <= 256 && At(o, n, pm, flat, p0, VpnOf(i, 0, 0))
      invariant OthersSame(t0, pm.tab, o.shape.Keys + n.shape.Keys)
    {
      ghost var t, own := pm.tab, o.shape.Keys + n.shape.Keys;
      CopyRow(o, n, pm, i, flat, p0);
      OthersChain(t0, t, pm.tab, own, o.shape.Keys + n.shape.Keys);
      i := i + 1;
    }
    CopyKernelRows(o, n, pm);
    CopyingDone(flat, p0, n.shape.Keys, VpnOf(256, 0, 0), o.Map(pm), n.Map(pm), pm.State());
  }

  /**
   The loop goes on over the kernel half: huge pages are copied a second time, and the tables behind
   directories are those of the parent.
   */
  method CopyKernelRows(o: PageTable, n: PageTable, pm: PhysMem)
    requires KernelHalf(pm.tab, o.root, o.kernel) && KernelHalf(pm.tab, n.root, n.kernel) && o.kernel == n.kernel
    modifies pm`tab
    ensures pm.tab == old(pm.tab)
  {
    for i := 256 to ENTRY_COUNT
      invariant pm.tab == old(pm.tab)
    {
      var e := pm.tab[o.root][i];
      if e.IsLeaf() {
        assert pm.tab[n.root][i] == pm.tab[n.root][256..][i - 256] == pm.tab[o.root][256..][i - 256] == e;
        assert pm.tab[n.root][i := e] == pm.tab[n.root];
        pm.tab := pm.tab[n.root := pm.tab[n.root][i := e]];
      }
    }
  }

  /** The child's empty table, with the kernel half of the parent's root. */
  method Begin(o: PageTable, pm: PhysMem) returns (n: PageTable)
    requires o.Valid(pm) && Mapped(o.Map(pm), pm.State()) && |o.shape.Keys| <= |pm.free|
    modifies pm
    ensures fresh(n) && At(o, n, pm, old(o.Map(pm)), old(pm.State()), 0) && n.kernel == o.kernel
    ensures OthersSame(old(pm.tab), pm.tab, o.shape.Keys + n.shape.Keys)
  {
    hide WfTables, Attached, Flat, KernelHalf, LeafTable, Copying, Distinct, OthersSame, Slots, AllocAll, Mapped;
    ghost var t, p0, flat := pm.tab, pm.State(), o.Map(pm);
    TreeRoot(t, o.root, o.shape);
    n := new PageTable(pm, pm.tab[o.root]);
    TreeTables(t, o.root, o.shape);
    OthersKept(t, pm.tab, n.root, o.shape.Keys);
    KernelSame(t, pm.tab, o.root, o.kernel);
    KernelIs(t, o.root, o.kernel);
    AllocFree(p0, n.root, o.shape.Keys);
    FlatFrame(t, pm.tab, o.root, o.shape);
    LeafTableFrame(t, pm.tab, o.root, o.shape);
    assert n.shape.Keys == {n.root};
    CopyingStart(flat, p0, {n.root});
    RootSlots(n.root, o.root, o.shape);
  }

  lemma KernelIs(t: Tables, root: Frame, kernel: seq<Entry>)
    requires KernelHalf(t, root, kernel)
    ensures root in t && |t[root]| == ENTRY_COUNT && t[root][256..] == kernel
  {
  }

  lemma RootSlots(n: Frame, o: Frame, shape: map<Frame, Slot>)
    requires o in shape && shape[o] == Root
    ensures Slots(map[n := Root]) <= Slots(shape)
  {
    assert shape[o] in Slots(shape);
  }

  lemma AllocFree(p: Pool, f: Frame, own: set<Frame>)
    requires own !! p.free && own <= p.count.Keys && f in p.free
    ensures own !! Alloc(p, f).free && own <= Alloc(p, f).count.Keys && f !in own
  {
  }

  lemma OthersKept(t: Tables, t': Tables, n: Frame, own: set<Frame>)
    requires OthersSame(t, t', {n}) && n !in own && own <= t.Keys
    ensures (forall f :: f in own ==> f in t' && t'[f] == t[f]) && OthersSame(t, t', own + {n})
  {
  }
}
