/** The page table as the source runs it: table slots changed in place (pagetable.rs). */
module PageTableCode {
  import opened Collections
  import opened Options
  import opened Address
  import opened Pte
  import opened Frames
  import opened PageTables

  /** Outside `own` the tables are as before. */
  ghost predicate OthersSame(before: Tables, now: Tables, own: set<Frame>) {
    forall f :: f in before && f !in own ==> f in now && now[f] == before[f]
  }

  /**
   What every operation that may create tables promises about them: `news` are the created ones, all
   taken from the free frames; tables that are not of this space keep their contents.
   */
  ghost predicate Grown(s0: map<Frame, Slot>, t0: Tables, p0: Pool,
                        s1: map<Frame, Slot>, t1: Tables, p1: Pool, news: set<Frame>) {
    && news <= p0.free && news !! s0.Keys && s1.Keys == s0.Keys + news
    && p1 == AllocAll(p0, news)
    && OthersSame(t0, t1, s0.Keys + news)
  }

  lemma GrownTrans(s0: map<Frame, Slot>, t0: Tables, p0: Pool, s1: map<Frame, Slot>, t1: Tables, p1: Pool,
                   s2: map<Frame, Slot>, t2: Tables, p2: Pool, a: set<Frame>, b: set<Frame>)
    requires Grown(s0, t0, p0, s1, t1, p1, a) && Grown(s1, t1, p1, s2, t2, p2, b)
    ensures Grown(s0, t0, p0, s2, t2, p2, a + b)
  {
    AllocTwice(p0, a, b);
  }

  lemma GrownFree(s0: map<Frame, Slot>, t0: Tables, p0: Pool, s1: map<Frame, Slot>, t1: Tables, p1: Pool,
                  news: set<Frame>)
    requires Grown(s0, t0, p0, s1, t1, p1, news)
    ensures |p1.free| == |p0.free| - |news|
  {
    AllocAllFree(p0, news);
  }

  lemma GrownNone(s: map<Frame, Slot>, t: Tables, p: Pool)
    ensures Grown(s, t, p, s, t, p, {})
  {
    assert AllocAll(p, {}) == p;
  }

  lemma GrownOne(s: map<Frame, Slot>, t: Tables, p: Pool, f: Frame, at: Slot, g: Frame, table: seq<Entry>)
    requires f in p.free && f !in s && g in s
    ensures Grown(s, t, p, s[f := at], t[f := EMPTY_TABLE][g := table], Alloc(p, f), {f})
  {
  }

  lemma DistinctAdd(s: seq<Frame>, f: Frame)
    requires Distinct(s) && f !in s
    ensures Distinct(s + [f])
  {
  }

  lemma GrownWrite(s0: map<Frame, Slot>, t0: Tables, p0: Pool, s1: map<Frame, Slot>, t1: Tables, p1: Pool,
                   news: set<Frame>,
                   f: Frame, table: seq<Entry>)
    requires Grown(s0, t0, p0, s1, t1, p1, news) && f in s1
    ensures Grown(s0, t0, p0, s1, t1[f := table], p1, news)
  {
  }

  ghost function SetOf(s: seq<Frame>): set<Frame> { set f | f in s }

  lemma SetOfNone(s: seq<Frame>)
    ensures SetOf(s[..0]) == {}
  {
  }

  lemma SetOfMore(s: seq<Frame>, i: nat)
    requires i < |s| && Distinct(s)
    ensures SetOf(s[..i + 1]) == SetOf(s[..i]) + {s[i]} && s[i] !in SetOf(s[..i])
  {
    assert s[..i + 1] == s[..i] + [s[i]];
  }

  lemma SetOfAll(s: seq<Frame>, shape: map<Frame, Slot>)
    requires forall f :: f in s <==> f in shape
    ensures SetOf(s[..|s|]) == shape.Keys
  {
    assert s[..|s|] == s;
  }

  predicate UserLeaf(e: Entry) { e.IsLeaf() && e.flags.u }

  predicate CleanTable(t: Tables, f: Frame) {
    f in t && forall k :: 0 <= k < |t[f]| ==> !UserLeaf(t[f][k])
  }

  predicate Droppable(p: Pool, t: Tables, f: Frame) { f in p.count && p.count[f] == 1 && CleanTable(t, f) }

  lemma TableKnown(t: Tables, root: Frame, shape: map<Frame, Slot>, f: Frame)
    requires WfTables(t, root, shape) && f in shape
    ensures f in t
  {
  }

  lemma FreedKeeps(p: Pool, fs: set<Frame>, f: Frame)
    requires f !in fs && f in p.count
    ensures f in Freed(p, fs).count && Freed(p, fs).count[f] == p.count[f]
  {
  }

  /** The kernel half maps nothing for user programs. */
  predicate CleanKernel(kernel: seq<Entry>) { forall k :: 0 <= k < |kernel| ==> !UserLeaf(kernel[k]) }

  /** No table has an entry for a user page if and only if the flat map and the kernel half have none. */
  lemma CleanExact(t: Tables, root: Frame, shape: map<Frame, Slot>, kernel: seq<Entry>)
    requires WfTables(t, root, shape) && Attached(t, root, shape) && KernelHalf(t, root, kernel)
    ensures (forall f :: f in shape ==> CleanTable(t, f)) <==>
            CleanKernel(kernel) && forall v :: v in Flat(t, root, shape) ==> !Flat(t, root, shape)[v].flags.u
  {
    hide WfTables, Attached, Flat;
    TreeRoot(t, root, shape);
    if CleanKernel(kernel) && forall v :: v in Flat(t, root, shape) ==> !Flat(t, root, shape)[v].flags.u {
      forall f | f in shape
        ensures CleanTable(t, f)
      {
        TableClean(t, root, shape, kernel, f);
      }
    }
    if forall f :: f in shape ==> CleanTable(t, f) {
      forall k | 0 <= k < |kernel|
        ensures !UserLeaf(kernel[k])
      {
        assert kernel[k] == t[root][256 + k];
        assert CleanTable(t, root);
      }
      forall v | v in Flat(t, root, shape)
        ensures !Flat(t, root, shape)[v].flags.u
      {
        FlatLeaf(t, root, shape, v);
      }
    }
  }

  lemma FlatLeaf(t: Tables, root: Frame, shape: map<Frame, Slot>, v: nat)
    requires WfTables(t, root, shape) && v in Flat(t, root, shape)
    ensures exists f, k ::
              f in shape && f in t && 0 <= k < |t[f]| && t[f][k] == Flat(t, root, shape)[v] && t[f][k].IsLeaf()
  {
    IndexRound(v);
    MappedPath(t, root, shape, v);
    var f := LeafTable(t, root, shape, v).value;
    assert f in shape && t[f][I1(v)] == Flat(t, root, shape)[v];
  }

  lemma TableClean(t: Tables, root: Frame, shape: map<Frame, Slot>, kernel: seq<Entry>, f: Frame)
    requires WfTables(t, root, shape) && Attached(t, root, shape) && KernelHalf(t, root, kernel) && CleanKernel(kernel)
    requires f in shape && forall v :: v in Flat(t, root, shape) ==> !Flat(t, root, shape)[v].flags.u
    ensures CleanTable(t, f)
  {
    hide Flat, Attached;
    forall k | 0 <= k < ENTRY_COUNT
      ensures !UserLeaf(t[f][k])
    {
      match shape[f] {
        case Root =>
          RootIs(t, root, shape, f);
          if k >= 256 {
            assert t[root][k] == kernel[k - 256];
          }
        case Mid(i) =>
        case Leaf(i, j) =>
          LeafEntry(t, root, shape, f, k);
      }
    }
  }

  lemma RootIs(t: Tables, root: Frame, shape: map<Frame, Slot>, f: Frame)
    requires WfTables(t, root, shape) && Attached(t, root, shape) && f in shape && shape[f] == Root
    ensures f == root
  {
    assert InPlace(t, root, shape[f], f);
  }

  /** A valid entry of a leaf table is in the flat map. */
  lemma LeafEntry(t: Tables, root: Frame, shape: map<Frame, Slot>, f: Frame, k: nat)
    requires WfTables(t, root, shape) && Attached(t, root, shape) && f in shape && shape[f].Leaf? && k < ENTRY_COUNT
    ensures f in t && |t[f]| == ENTRY_COUNT
    ensures t[f][k].Valid() ==>
              exists v :: v in Flat(t, root, shape) && Flat(t, root, shape)[v] == t[f][k]
  {
    hide WfTables, Flat, LeafTable, I1, I2, I3;
    TreeRoot(t, root, shape);
    assert InPlace(t, root, shape[f], f);
    var i, j := shape[f].i, shape[f].j;
    var v := VpnOf(i, j, k);
    IndexInverse(i, j, k);
    assert v < USER_VPNS;
    hide VpnOf;
    LeafTableVia(t, root, shape, v, t[root][i].frame, f);
    FlatAt(t, root, shape, v);
  }

  /** A write to a leaf table does not touch the root. */
  lemma KernelWrite(t: Tables, root: Frame, shape: map<Frame, Slot>, f: Frame, table: seq<Entry>, kernel: seq<Entry>)
    requires WfTables(t, root, shape) && KernelHalf(t, root, kernel) && f in shape && shape[f].Leaf?
    ensures KernelHalf(t[f := table], root, kernel)
  {
  }

  /** The three entries on the way to a mapped page. */
  lemma MappedPath(t: Tables, root: Frame, shape: map<Frame, Slot>, v: nat)
    requires WfTables(t, root, shape) && v < USER_VPNS && v in Flat(t, root, shape)
    ensures I3(v) < ENTRY_COUNT && I2(v) < ENTRY_COUNT && I1(v) < ENTRY_COUNT
    ensures root in t && |t[root]| == ENTRY_COUNT && t[root][I3(v)].frame in t
    ensures
      var m := t[root][I3(v)].frame;
      && |t[m]| == ENTRY_COUNT && t[m][I2(v)].frame in t && |t[t[m][I2(v)].frame]| == ENTRY_COUNT
      && LeafTable(t, root, shape, v) == Some(t[m][I2(v)].frame)
      && Flat(t, root, shape)[v] == t[t[m][I2(v)].frame][I1(v)]
  {
    IndexRound(v);
  }

  class PageTable {
    var root: Frame
    var tables: seq<Frame>  // `intrm_tables`
    ghost var shape: map<Frame, Slot>
    ghost const kernel: seq<Entry>

    /**
     `PageTable::new` with the kernel half of `from` copied in, as `new_with_kernel_seg` and the
     start of `copy_table_and_mark_self_cow` do it; the user half is empty.
     */
    constructor (pm: PhysMem, from: seq<Entry>)
      requires PoolOk(pm.State()) && pm.free != {} && |from| == ENTRY_COUNT
      modifies pm
      ensures Valid(pm) && Map(pm) == map[] && tables == [root] && shape == map[root := Root]
      ensures kernel == from[256..]
      ensures root in old(pm.free) && pm.State() == Alloc(old(pm.State()), root)
      ensures OthersSame(old(pm.tab), pm.tab, {root})
    {
      var r := pm.AllocFrame();
      root := r.value;
      tables := [r.value];
      shape := map[r.value := Root];
      kernel := from[256..];
      pm.tab := pm.tab[r.value := EMPTY_TABLE[..256] + from[256..]];
      new;
      assert forall i :: 0 <= i < 256 ==> pm.tab[root][i] == EMPTY;
    }

    ghost predicate Valid(pm: PhysMem)
      reads this, pm
    {
      && PoolOk(pm.State())
      && WfTables(pm.tab, root, shape) && Attached(pm.tab, root, shape) && KernelHalf(pm.tab, root, kernel)
      && Distinct(tables)
      && (forall f :: f in tables <==> f in shape)
      && shape.Keys <= pm.count.Keys && shape.Keys !! pm.free
    }

    ghost function Map(pm: PhysMem): map<nat, Entry>
      requires Valid(pm)
      reads this, pm
    {
      Flat(pm.tab, root, shape)
    }

    twostate predicate Grew(pm: PhysMem, news: set<Frame>)
      reads this, pm
    {
      root == old(root) && Grown(old(shape), old(pm.tab), old(pm.State()), shape, pm.tab, pm.State(), news)
    }

    method AllocTable(pm: PhysMem) returns (f: Frame)
      requires Valid(pm) && pm.free != {}
      modifies pm
      ensures PoolOk(pm.State()) && f in old(pm.free) && f !in shape
      ensures pm.State() == Alloc(old(pm.State()), f)
      ensures pm.tab == old(pm.tab)[f := EMPTY_TABLE] && f in pm.count && f !in pm.free
    {
      var r := pm.AllocFrame();
      f := r.value;
      pm.tab := pm.tab[f := EMPTY_TABLE];
    }

    /** `next_table_mut_or_create` on the root. */
    method EnsureMid(pm: PhysMem, i: nat) returns (m: Frame, ghost news: set<Frame>)
      requires Valid(pm) && i < 256
      requires !pm.tab[root][i].Valid() ==> pm.free != {}
      modifies this, pm
      ensures Valid(pm) && Grew(pm, news) && Map(pm) == old(Map(pm))
      ensures |news| == if old(pm.tab[root][i]).Valid() then 0 else 1
      ensures pm.tab[root][i].Valid() && pm.tab[root][i].frame == m && m in shape && shape[m] == Mid(i)
      ensures news != {} ==> pm.tab[m] == EMPTY_TABLE
      ensures news == {} ==> pm.tab == old(pm.tab)
      ensures shape == if news == {} then old(shape) else old(shape)[m := Mid(i)]
    {
      hide Attached, Flat, WfTables, KernelHalf, Grown, Distinct, PoolOk;
      ghost var p, t, s := pm.State(), pm.tab, shape;
      TreeRoot(t, root, s);
      RowFacts(t, root, s, i);
      var e := pm.tab[root][i];
      if e.Valid() {
        m, news := e.frame, {};
        GrownNone(s, t, p);
        return;
      }
      m := AllocTable(pm);
      AddMid(t, root, s, i, m);
      AddMidAttached(t, root, s, i, m);
      GrownOne(s, t, p, m, Mid(i), root, t[root][i := Directory(m)]);
      DistinctAdd(tables, m);
      news := {m};
      tables := tables + [m];
      shape := shape[m := Mid(i)];
      KernelSame(t, pm.tab, root, kernel);
      KernelRow(pm.tab, root, i, Directory(m), kernel);
      pm.tab := pm.tab[root := pm.tab[root][i := Directory(m)]];
    }

    /** `next_table_mut_or_create` on a second-level table. */
    method EnsureLeaf(pm: PhysMem, m: Frame, j: nat) returns (f: Frame, ghost news: set<Frame>)
      requires Valid(pm) && m in shape && shape[m].Mid? && j < ENTRY_COUNT
      requires !pm.tab[m][j].Valid() ==> pm.free != {}
      modifies this, pm
      ensures Valid(pm) && Grew(pm, news) && Map(pm) == old(Map(pm))
      ensures |news| == if old(pm.tab[m][j]).Valid() then 0 else 1
      ensures m in pm.tab && |pm.tab[m]| == ENTRY_COUNT
      ensures pm.tab[m][j].Valid() && pm.tab[m][j].frame == f && f in shape && shape[f] == Leaf(old(shape)[m].i, j)
      ensures shape == if news == {} then old(shape) else old(shape)[f := Leaf(old(shape)[m].i, j)]
      ensures pm.tab[root] == old(pm.tab)[root]
    {
      hide Attached, Flat, WfTables, KernelHalf, Grown, Distinct, PoolOk;
      ghost var p, t, s := pm.State(), pm.tab, shape;
      TreeRoot(t, root, s);
      CellFacts(t, root, s, m, j);
      var e := pm.tab[m][j];
      if e.Valid() {
        f, news := e.frame, {};
        GrownNone(s, t, p);
        return;
      }
      f := NewLeaf(pm, m, j);
      news := {f};
    }

    method NewLeaf(pm: PhysMem, m: Frame, j: nat) returns (f: Frame)
      requires Valid(pm) && m in shape && shape[m].Mid? && j < ENTRY_COUNT && !pm.tab[m][j].Valid() && pm.free != {}
      modifies this, pm
      ensures Valid(pm) && Grew(pm, {f}) && Map(pm) == old(Map(pm))
      ensures m in pm.tab && m in old(pm.tab) && pm.tab[m] == old(pm.tab)[m][j := Directory(f)]
      ensures |pm.tab[m]| == ENTRY_COUNT && root in pm.tab && root in old(pm.tab) && pm.tab[root] == old(pm.tab)[root]
      ensures f !in old(shape) && shape == old(shape)[f := Leaf(old(shape)[m].i, j)]
    {
      hide Attached, Flat, WfTables, KernelHalf, Grown, Distinct, PoolOk;
      ghost var p, t, s := pm.State(), pm.tab, shape;
      TreeRoot(t, root, s);
      CellFacts(t, root, s, m, j);
      f := AllocTable(pm);
      AddLeaf(t, root, s, m, j, f);
      AddLeafAttached(t, root, s, m, j, f);
      GrownOne(s, t, p, f, Leaf(s[m].i, j), m, t[m][j := Directory(f)]);
      DistinctAdd(tables, f);
      tables := tables + [f];
      shape := shape[f := Leaf(shape[m].i, j)];
      pm.tab := pm.tab[m := pm.tab[m][j := Directory(f)]];
      KernelSame(t, pm.tab, root, kernel);
    }

    /** `get_entry_mut_or_create`: the leaf table that holds the entry of `v`. */
    method GetEntryOrCreate(pm: PhysMem, v: nat) returns (f: Frame, ghost news: set<Frame>)
      requires Valid(pm) && v < USER_VPNS && Missing(pm.tab, root, shape, v) <= |pm.free|
      modifies this, pm
      ensures Valid(pm) && Grew(pm, news) && Map(pm) == old(Map(pm)) && |news| <= 2
      ensures LeafTable(pm.tab, root, shape, v) == Some(f)
    {
      hide Flat, WfTables, Attached, KernelHalf, LeafTable, Missing, Grown, PoolOk, Distinct, I1, I2, I3, VpnOf;
      IndexRound(v);
      ghost var p0, t0, s0 := pm.State(), pm.tab, shape;
      MissingFacts(t0, root, s0, v);
      var m, n1 := EnsureMid(pm, I3(v));
      ghost var p1, t1, s1 := pm.State(), pm.tab, shape;
      GrownFree(s0, t0, p0, s1, t1, p1, n1);
      ghost var n2;
      f, n2 := EnsureLeaf(pm, m, I2(v));
      news := n1 + n2;
      GrownTrans(s0, t0, p0, s1, t1, p1, shape, pm.tab, pm.State(), n1, n2);
      LeafTableVia(pm.tab, root, shape, v, m, f);
    }

    /** `remap_page`; `map_page` is the case where the page was not mapped. */
    method RemapPage(pm: PhysMem, v: nat, frame: Frame, flags: Flags) returns (ghost news: set<Frame>)
      requires Valid(pm) && v < USER_VPNS && Missing(pm.tab, root, shape, v) <= |pm.free|
      requires Entry(frame, flags.(v := true)).IsLeaf()
      modifies this, pm
      ensures Valid(pm) && Grew(pm, news) && |news| <= 2
      ensures Map(pm) == old(Map(pm))[v := Entry(frame, flags.(v := true))]
    {
      hide Attached, Flat, WfTables, KernelHalf, Grown, PoolOk, Distinct, I1, I2, I3, VpnOf, Missing;
      IndexRound(v);
      ghost var p0, t0, s0 := pm.State(), pm.tab, shape;
      var f;
      f, news := GetEntryOrCreate(pm, v);
      var e := Entry(frame, flags.(v := true));
      LeafTableLength(pm.tab, root, shape, v);
      GrownWrite(s0, t0, p0, shape, pm.tab, pm.State(), news, f, pm.tab[f][I1(v) := e]);
      WriteLeafFlat(pm.tab, root, shape, v, e);
      WriteLeafAttached(pm.tab, root, shape, f, I1(v), e);
      KernelWrite(pm.tab, root, shape, f, pm.tab[f][I1(v) := e], kernel);
      pm.tab := pm.tab[f := pm.tab[f][I1(v) := e]];
    }

    method GetPte(pm: PhysMem, v: nat) returns (r: Option<Entry>)
      requires Valid(pm) && v < USER_VPNS
      ensures r == if v in Map(pm) then Some(Map(pm)[v]) else None
    {
      IndexRound(v);
      var e3 := pm.tab[root][I3(v)];
      if !e3.Valid() { return None; }
      var e2 := pm.tab[e3.frame][I2(v)];
      if !e2.Valid() { return None; }
      var e1 := pm.tab[e2.frame][I1(v)];
      r := if e1.Valid() then Some(e1) else None;
    }

    /** How many tables the next `get_entry_mut_or_create` at `v` will have to allocate. */
    method TablesNeeded(pm: PhysMem, v: nat) returns (n: nat)
      requires Valid(pm) && v < USER_VPNS
      ensures n == Missing(pm.tab, root, shape, v)
    {
      IndexRound(v);
      var e3 := pm.tab[root][I3(v)];
      if !e3.Valid() { return 2; }
      n := if pm.tab[e3.frame][I2(v)].Valid() then 0 else 1;
    }

    /**
     `Drop for PageTable`: all tables go back to the allocator. The debug checks panic if and only if
     some table has another reference or still has an entry for a user page.
     */
    method DropTables(pm: PhysMem) returns (panics: bool)
      requires Valid(pm)
      modifies pm
      ensures panics <==> exists f :: f in shape && !Droppable(old(pm.State()), old(pm.tab), f)
      ensures pm.tab == old(pm.tab)
      ensures !panics ==> PoolOk(pm.State()) && pm.State() == Freed(old(pm.State()), shape.Keys)
    {
      hide WfTables, Attached, KernelHalf, Freed, SetOf, CleanTable;
      ghost var p, t := pm.State(), pm.tab;
      FreedNone(p);
      SetOfNone(tables);
      panics := false;
      for i := 0 to |tables|
        invariant PoolOk(pm.State()) && pm.tab == t
        invariant pm.State() == Freed(p, SetOf(tables[..i]))
        invariant forall j :: 0 <= j < i ==> Droppable(p, t, tables[j])
      {
        var f := tables[i];
        TableKnown(t, root, shape, f);
        SetOfMore(tables, i);
        FreedKeeps(p, SetOf(tables[..i]), f);
        var clean := IsClean(pm, f);
        if pm.count[f] != 1 || !clean {
          assert f in shape && !Droppable(p, t, f);
          panics := true;
          return;
        }
        FreedMore(p, SetOf(tables[..i]), f);
        pm.DecreaseCount(f);
        pm.DeallocFrame(f);
      }
      forall f | f in shape
        ensures Droppable(p, t, f)
      {
        var j :| 0 <= j < |tables| && tables[j] == f;
      }
      SetOfAll(tables, shape);
    }

    /** The debug check on one table. */
    method IsClean(pm: PhysMem, f: Frame) returns (clean: bool)
      requires f in pm.tab
      ensures clean <==> CleanTable(pm.tab, f)
    {
      for i := 0 to |pm.tab[f]|
        invariant forall k :: 0 <= k < i ==> !UserLeaf(pm.tab[f][k])
      {
        if UserLeaf(pm.tab[f][i]) {
          return false;
        }
      }
      return true;
    }

    method UnmapPage(pm: PhysMem, v: nat) returns (frame: Frame)
      requires Valid(pm) && v < USER_VPNS && v in Map(pm)
      modifies pm`tab
      ensures Valid(pm) && Map(pm) == old(Map(pm)) - {v} && frame == old(Map(pm))[v].frame
      ensures OthersSame(old(pm.tab), pm.tab, shape.Keys)
    {
      hide Attached, Flat, WfTables, KernelHalf, LeafTable, Distinct, PoolOk, I1, I2, I3, VpnOf;
      IndexRound(v);
      MappedPath(pm.tab, root, shape, v);
      var e3 := pm.tab[root][I3(v)];
      var e2 := pm.tab[e3.frame][I2(v)];
      var f := e2.frame;
      LeafTableLength(pm.tab, root, shape, v);
      frame := pm.tab[f][I1(v)].frame;
      WriteLeafFlat(pm.tab, root, shape, v, EMPTY);
      WriteLeafAttached(pm.tab, root, shape, f, I1(v), EMPTY);
      KernelWrite(pm.tab, root, shape, f, pm.tab[f][I1(v) := EMPTY], kernel);
      pm.tab := pm.tab[f := pm.tab[f][I1(v) := EMPTY]];
    }
  }
}
