/**
 The three-level Sv39 table as values (src/memory/pagetable/pagetable.rs): the walk, and why a
 write through it touches one page only.
 */
module PageTables {
  import opened Options
  import opened Address
  import opened Pte

  const ENTRY_COUNT: nat := 512

  type Tables = map<Frame, seq<Entry>>

  // p3_index, p2_index and p1_index of the address of page `v`
  function I3(v: nat): nat { v / 0x4_0000 % ENTRY_COUNT }
  function I2(v: nat): nat { v / 0x200 % ENTRY_COUNT }
  function I1(v: nat): nat { v % ENTRY_COUNT }

  function VpnOf(i: nat, j: nat, k: nat): nat { i * 0x4_0000 + j * 0x200 + k }

  lemma IndexInverse(i: nat, j: nat, k: nat)
    requires i < 512 && j < 512 && k < 512
    ensures I3(VpnOf(i, j, k)) == i && I2(VpnOf(i, j, k)) == j && I1(VpnOf(i, j, k)) == k
  {
  }

  lemma IndexRound(v: nat)
    requires v < USER_VPNS
    ensures I3(v) < 256 && I2(v) < ENTRY_COUNT && I1(v) < ENTRY_COUNT && VpnOf(I3(v), I2(v), I1(v)) == v
  {
  }

  /** The place of a table in the tree. */
  datatype Slot = Root | Mid(i: nat) | Leaf(i: nat, j: nat)

  const EMPTY_TABLE: seq<Entry> := seq(ENTRY_COUNT, _ => EMPTY)

  function Directory(f: Frame): Entry { Entry(f, NO_FLAGS.(v := true)) }

  /**
   The tables of one address space. `shape` gives every table its one place in the tree, so no two
   directory entries of the user half lead to the same table.
   */
  predicate WfTables(t: Tables, root: Frame, shape: map<Frame, Slot>) {
    && root in shape && shape[root] == Root
    && (forall f :: f in shape ==> f in t && |t[f]| == ENTRY_COUNT)
    && (forall i :: 0 <= i < 256 && t[root][i].Valid() ==> DirectoryTo(t[root][i], shape, Mid(i)))
    && (forall f, j :: f in shape && shape[f].Mid? && 0 <= j < ENTRY_COUNT && t[f][j].Valid() ==>
          DirectoryTo(t[f][j], shape, Leaf(shape[f].i, j)))
    && (forall f, k :: f in shape && shape[f].Leaf? && 0 <= k < ENTRY_COUNT && t[f][k].Valid() ==>
          t[f][k].IsLeaf())
  }

  /** Every table is found at its place: none is ever cut off from the tree. */
  predicate Attached(t: Tables, root: Frame, shape: map<Frame, Slot>)
    requires root in t && |t[root]| == ENTRY_COUNT
  {
    forall f :: f in shape ==> InPlace(t, root, shape[f], f)
  }

  predicate InPlace(t: Tables, root: Frame, at: Slot, f: Frame)
    requires root in t && |t[root]| == ENTRY_COUNT
  {
    match at
    case Root => f == root
    case Mid(i) => i < 256 && t[root][i].Valid() && t[root][i].frame == f
    case Leaf(i, j) =>
      && i < 256 && j < ENTRY_COUNT && t[root][i].Valid()
      && var m := t[root][i].frame;
         m in t && |t[m]| == ENTRY_COUNT && t[m][j].Valid() && t[m][j].frame == f
  }

  predicate DirectoryTo(e: Entry, shape: map<Frame, Slot>, at: Slot) {
    e.IsDirectory() && e.frame in shape && shape[e.frame] == at
  }

  /** The upper half of the root, which all address spaces share. */
  predicate KernelHalf(t: Tables, root: Frame, kernel: seq<Entry>) {
    root in t && |t[root]| == ENTRY_COUNT && t[root][256..] == kernel
  }

  lemma KernelSame(t: Tables, t': Tables, root: Frame, kernel: seq<Entry>)
    requires KernelHalf(t, root, kernel) && root in t' && t'[root] == t[root]
    ensures KernelHalf(t', root, kernel)
  {
  }

  lemma KernelRow(t: Tables, root: Frame, i: nat, e: Entry, kernel: seq<Entry>)
    requires KernelHalf(t, root, kernel) && i < 256
    ensures KernelHalf(t[root := t[root][i := e]], root, kernel)
  {
    assert t[root][i := e][256..] == t[root][256..];
  }

  // What the tree gives for one table, for use where its definition is hidden.

  lemma TreeTables(t: Tables, root: Frame, shape: map<Frame, Slot>)
    requires WfTables(t, root, shape)
    ensures shape.Keys <= t.Keys
  {
  }

  lemma TreeRoot(t: Tables, root: Frame, shape: map<Frame, Slot>)
    requires WfTables(t, root, shape)
    ensures root in shape && root in t && |t[root]| == ENTRY_COUNT && shape[root] == Root
  {
  }

  lemma RowFacts(t: Tables, root: Frame, shape: map<Frame, Slot>, i: nat)
    requires WfTables(t, root, shape) && i < 256
    ensures root in t && |t[root]| == ENTRY_COUNT
    ensures t[root][i].Valid() ==> t[root][i].frame in shape && shape[t[root][i].frame] == Mid(i)
  {
  }

  lemma CellFacts(t: Tables, root: Frame, shape: map<Frame, Slot>, m: Frame, j: nat)
    requires WfTables(t, root, shape) && m in shape && shape[m].Mid? && j < ENTRY_COUNT
    ensures m in t && |t[m]| == ENTRY_COUNT
    ensures t[m][j].Valid() ==> t[m][j].frame in shape && shape[t[m][j].frame] == Leaf(shape[m].i, j)
  {
  }

  /** The leaf table that `get_entry_mut_opt` reaches. */
  function LeafTable(t: Tables, root: Frame, shape: map<Frame, Slot>, v: nat): (r: Option<Frame>)
    requires WfTables(t, root, shape) && v < USER_VPNS
    ensures r.Some? ==> r.value in shape && shape[r.value] == Leaf(I3(v), I2(v))
  {
    var e3 := t[root][I3(v)];
    if !e3.Valid() then None else
    var e2 := t[e3.frame][I2(v)];
    if !e2.Valid() then None else
    Some(e2.frame)
  }

  function Walk(t: Tables, root: Frame, shape: map<Frame, Slot>, v: nat): (r: Option<Entry>)
    requires WfTables(t, root, shape) && v < USER_VPNS
    ensures r.Some? ==> r.value.IsLeaf()
  {
    match LeafTable(t, root, shape, v)
    case None => None
    case Some(f) => if t[f][I1(v)].Valid() then Some(t[f][I1(v)]) else None
  }

  /** How many tables `get_entry_mut_or_create` has to allocate. */
  function Missing(t: Tables, root: Frame, shape: map<Frame, Slot>, v: nat): nat
    requires WfTables(t, root, shape) && v < USER_VPNS
  {
    var e3 := t[root][I3(v)];
    if !e3.Valid() then 2 else if !t[e3.frame][I2(v)].Valid() then 1 else 0
  }

  lemma LeafTableVia(t: Tables, root: Frame, shape: map<Frame, Slot>, v: nat, m: Frame, f: Frame)
    requires WfTables(t, root, shape) && v < USER_VPNS && m in t && |t[m]| == ENTRY_COUNT
    requires t[root][I3(v)].Valid() && t[root][I3(v)].frame == m && t[m][I2(v)].Valid() && t[m][I2(v)].frame == f
    ensures LeafTable(t, root, shape, v) == Some(f)
  {
  }

  lemma LeafTableLength(t: Tables, root: Frame, shape: map<Frame, Slot>, v: nat)
    requires WfTables(t, root, shape) && v < USER_VPNS
    ensures
      var f := LeafTable(t, root, shape, v);
      f.Some? ==> f.value in shape && f.value in t && |t[f.value]| == ENTRY_COUNT && shape[f.value].Leaf?
  {
  }

  lemma MissingFacts(t: Tables, root: Frame, shape: map<Frame, Slot>, v: nat)
    requires WfTables(t, root, shape) && v < USER_VPNS
    ensures !t[root][I3(v)].Valid() ==> Missing(t, root, shape, v) == 2
    ensures
      var e := t[root][I3(v)];
      e.Valid() ==> e.frame in t && |t[e.frame]| == ENTRY_COUNT &&
                    (!t[e.frame][I2(v)].Valid() ==> Missing(t, root, shape, v) == 1)
  {
  }

  /** The flat map from page number to entry that the tree stands for. */
  ghost function Flat(t: Tables, root: Frame, shape: map<Frame, Slot>): map<nat, Entry>
    requires WfTables(t, root, shape)
  {
    map v: nat | v < USER_VPNS && Walk(t, root, shape, v).Some? :: Walk(t, root, shape, v).value
  }

  lemma FlatAt(t: Tables, root: Frame, shape: map<Frame, Slot>, v: nat)
    requires WfTables(t, root, shape) && v < USER_VPNS
    ensures LeafTable(t, root, shape, v).None? ==> v !in Flat(t, root, shape)
    ensures LeafTable(t, root, shape, v).Some? ==>
              var f := LeafTable(t, root, shape, v).value;
              f in t && |t[f]| == ENTRY_COUNT &&
              (v in Flat(t, root, shape) <==> t[f][I1(v)].Valid()) &&
              (v in Flat(t, root, shape) ==> Flat(t, root, shape)[v] == t[f][I1(v)])
  {
  }

  /** A write to a slot of a leaf table keeps the tree. */
  lemma WriteLeafWf(t: Tables, root: Frame, shape: map<Frame, Slot>, f: Frame, k: nat, e: Entry)
    requires WfTables(t, root, shape) && f in shape && shape[f].Leaf? && k < ENTRY_COUNT
    requires e.Valid() ==> e.IsLeaf()
    ensures WfTables(t[f := t[f][k := e]], root, shape)
  {
  }

  /** A write to the leaf slot of `v` changes the walk at `v` and nowhere else. */
  lemma WriteLeafWalk(t: Tables, root: Frame, shape: map<Frame, Slot>, v: nat, e: Entry, u: nat)
    requires WfTables(t, root, shape) && v < USER_VPNS && u < USER_VPNS
    requires LeafTable(t, root, shape, v).Some?
    requires e.Valid() ==> e.IsLeaf()
    ensures
      var f := LeafTable(t, root, shape, v).value;
      var t' := t[f := t[f][I1(v) := e]];
      && WfTables(t', root, shape)
      && LeafTable(t', root, shape, u) == LeafTable(t, root, shape, u)
      && Walk(t', root, shape, u) ==
         if u == v then (if e.Valid() then Some(e) else None) else Walk(t, root, shape, u)
  {
    var f := LeafTable(t, root, shape, v).value;
    WriteLeafWf(t, root, shape, f, I1(v), e);
    IndexRound(u);
    IndexRound(v);
  }

  lemma WriteLeafFlat(t: Tables, root: Frame, shape: map<Frame, Slot>, v: nat, e: Entry)
    requires WfTables(t, root, shape) && v < USER_VPNS && LeafTable(t, root, shape, v).Some?
    requires e.Valid() ==> e.IsLeaf()
    ensures
      var f := LeafTable(t, root, shape, v).value;
      var t' := t[f := t[f][I1(v) := e]];
      && WfTables(t', root, shape)
      && Flat(t', root, shape) ==
         if e.Valid() then Flat(t, root, shape)[v := e] else Flat(t, root, shape) - {v}
  {
    hide I1, I2, I3, VpnOf, WfTables, Walk, LeafTable;
    IndexRound(v);
    LeafTableLength(t, root, shape, v);
    var f := LeafTable(t, root, shape, v).value;
    var t' := t[f := t[f][I1(v) := e]];
    WriteLeafWf(t, root, shape, f, I1(v), e);
    forall u: nat | u < USER_VPNS
      ensures Walk(t', root, shape, u) == if u == v then (if e.Valid() then Some(e) else None) else Walk(t, root, shape, u)
    {
      WriteLeafWalk(t, root, shape, v, e, u);
    }
  }

  lemma SameFlat(t: Tables, shape: map<Frame, Slot>, t': Tables, shape': map<Frame, Slot>, root: Frame)
    requires WfTables(t, root, shape) && WfTables(t', root, shape')
    requires forall u: nat :: u < USER_VPNS ==> Walk(t', root, shape', u) == Walk(t, root, shape, u)
    ensures Flat(t', root, shape') == Flat(t, root, shape)
  {
    hide WfTables, Walk;
  }

  /** A fresh empty second-level table changes no walk. */
  lemma AddMid(t: Tables, root: Frame, shape: map<Frame, Slot>, i: nat, f: Frame)
    requires WfTables(t, root, shape) && i < 256 && f !in shape && !t[root][i].Valid()
    ensures
      var t' := t[f := EMPTY_TABLE][root := t[root][i := Directory(f)]];
      var shape' := shape[f := Mid(i)];
      && WfTables(t', root, shape')
      && (forall u: nat :: u < USER_VPNS ==> Walk(t', root, shape', u) == Walk(t, root, shape, u))
      && Flat(t', root, shape') == Flat(t, root, shape)
  {
  }

  lemma AddLeafWf(t: Tables, root: Frame, shape: map<Frame, Slot>, m: Frame, j: nat, f: Frame)
    requires WfTables(t, root, shape) && m in shape && shape[m].Mid? && j < ENTRY_COUNT
    requires f !in shape && !t[m][j].Valid()
    ensures WfTables(t[f := EMPTY_TABLE][m := t[m][j := Directory(f)]], root, shape[f := Leaf(shape[m].i, j)])
  {
  }

  lemma AddLeafWalk(t: Tables, root: Frame, shape: map<Frame, Slot>, m: Frame, j: nat, f: Frame, u: nat)
    requires WfTables(t, root, shape) && m in shape && shape[m].Mid? && j < ENTRY_COUNT
    requires f !in shape && !t[m][j].Valid() && u < USER_VPNS
    requires WfTables(t[f := EMPTY_TABLE][m := t[m][j := Directory(f)]], root, shape[f := Leaf(shape[m].i, j)])
    ensures Walk(t[f := EMPTY_TABLE][m := t[m][j := Directory(f)]], root, shape[f := Leaf(shape[m].i, j)], u) ==
            Walk(t, root, shape, u)
  {
  }

  /** A fresh empty leaf table changes no walk. */
  lemma AddLeaf(t: Tables, root: Frame, shape: map<Frame, Slot>, m: Frame, j: nat, f: Frame)
    requires WfTables(t, root, shape) && m in shape && shape[m].Mid? && j < ENTRY_COUNT
    requires f !in shape && !t[m][j].Valid()
    ensures
      var t' := t[f := EMPTY_TABLE][m := t[m][j := Directory(f)]];
      var shape' := shape[f := Leaf(shape[m].i, j)];
      && WfTables(t', root, shape')
      && (forall u: nat :: u < USER_VPNS ==> Walk(t', root, shape', u) == Walk(t, root, shape, u))
      && Flat(t', root, shape') == Flat(t, root, shape)
  {
    hide WfTables, Walk, Flat;
    CellFacts(t, root, shape, m, j);
    AddLeafWf(t, root, shape, m, j, f);
    var t' := t[f := EMPTY_TABLE][m := t[m][j := Directory(f)]];
    var shape' := shape[f := Leaf(shape[m].i, j)];
    forall u: nat | u < USER_VPNS
      ensures Walk(t', root, shape', u) == Walk(t, root, shape, u)
    {
      AddLeafWalk(t, root, shape, m, j, f, u);
    }
    SameFlat(t, shape, t', shape', root);
  }

  lemma WriteLeafAttached(t: Tables, root: Frame, shape: map<Frame, Slot>, f: Frame, k: nat, e: Entry)
    requires WfTables(t, root, shape) && Attached(t, root, shape) && f in shape && shape[f].Leaf? && k < ENTRY_COUNT
    ensures Attached(t[f := t[f][k := e]], root, shape)
  {
  }

  lemma AddMidAttached(t: Tables, root: Frame, shape: map<Frame, Slot>, i: nat, f: Frame)
    requires WfTables(t, root, shape) && Attached(t, root, shape) && i < 256 && f !in shape && !t[root][i].Valid()
    ensures Attached(t[f := EMPTY_TABLE][root := t[root][i := Directory(f)]], root, shape[f := Mid(i)])
  {
    hide Walk, Flat;
    var t' := t[f := EMPTY_TABLE][root := t[root][i := Directory(f)]];
    forall g | g in shape
      ensures InPlace(t', root, shape[g], g)
    {
      assert InPlace(t, root, shape[g], g);
    }
  }

  lemma AddLeafAttached(t: Tables, root: Frame, shape: map<Frame, Slot>, m: Frame, j: nat, f: Frame)
    requires WfTables(t, root, shape) && Attached(t, root, shape) && m in shape && shape[m].Mid? && j < ENTRY_COUNT
    requires f !in shape && !t[m][j].Valid()
    ensures Attached(t[f := EMPTY_TABLE][m := t[m][j := Directory(f)]], root, shape[f := Leaf(shape[m].i, j)])
  {
    var t' := t[f := EMPTY_TABLE][m := t[m][j := Directory(f)]];
    forall g | g in shape
      ensures InPlace(t', root, shape[g], g)
    {
      assert InPlace(t, root, shape[g], g);
    }
    assert InPlace(t, root, shape[m], m);
  }

  /** So no two tables have the same place. */
  lemma SlotsDistinct(t: Tables, root: Frame, shape: map<Frame, Slot>, f: Frame, g: Frame)
    requires WfTables(t, root, shape) && Attached(t, root, shape) && f in shape && g in shape && shape[f] == shape[g]
    ensures f == g
  {
    assert InPlace(t, root, shape[f], f) && InPlace(t, root, shape[g], g);
  }

  /** Tables of other spaces, and frames that are no tables, do not matter. */
  lemma FlatFrame(t: Tables, t': Tables, root: Frame, shape: map<Frame, Slot>)
    requires WfTables(t, root, shape)
    requires forall f :: f in shape ==> f in t' && t'[f] == t[f]
    ensures WfTables(t', root, shape) && Flat(t', root, shape) == Flat(t, root, shape)
  {
    forall u: nat | u < USER_VPNS
      ensures Walk(t', root, shape, u) == Walk(t, root, shape, u)
    {
      RowFacts(t, root, shape, I3(u));
    }
    hide WfTables, Walk;
  }

  lemma LeafTableFrame(t: Tables, t': Tables, root: Frame, shape: map<Frame, Slot>)
    requires WfTables(t, root, shape) && Attached(t, root, shape)
    requires forall f :: f in shape ==> f in t' && t'[f] == t[f]
    ensures WfTables(t', root, shape) && Attached(t', root, shape)
    ensures forall u: nat :: u < USER_VPNS ==> LeafTable(t', root, shape, u) == LeafTable(t, root, shape, u)
  {
    forall f | f in shape
      ensures InPlace(t', root, shape[f], f)
    {
      assert InPlace(t, root, shape[f], f);
    }
  }

  // ---- What the hardware makes of it ----

  /** VPN[2], VPN[1] and VPN[0] of an Sv39 virtual address: bits 38 to 30, 29 to 21 and 20 to 12. */
  function VpnField(va: nat, level: nat): nat
    requires level < 3
  {
    match level
    case 2 => va / 0x4000_0000 % 512
    case 1 => va / 0x20_0000 % 512
    case _ => va / 0x1000 % 512
  }

  /** Sv39 translation: the leaf entry and the level at which it is found, or a page fault. */
  function HardwareWalk(t: Tables, a: Frame, va: nat, level: nat): Option<(Entry, nat)>
    requires level < 3
    decreases level
  {
    if a !in t || |t[a]| != 512 then None
    else
      var e := t[a][VpnField(va, level)];
      if !e.flags.v || (!e.flags.r && e.flags.w) then None
      else if e.flags.r || e.flags.x then Some((e, level))
      else if level == 0 then None
      else HardwareWalk(t, e.frame, va, level - 1)
  }

  lemma FieldsAreIndices(va: nat)
    ensures VpnField(va, 2) == I3(VpnDown(va)) && VpnField(va, 1) == I2(VpnDown(va))
    ensures VpnField(va, 0) == I1(VpnDown(va))
  {
    assert va / 0x4000_0000 == va / 0x1000 / 0x4_0000;
    assert va / 0x20_0000 == va / 0x1000 / 0x200;
  }

  /**
   The hardware translates a user address with the entry that the flat map has for its page, and
   faults if there is none or if it allows neither reading nor executing.
   */
  lemma HardwareReadsFlat(t: Tables, root: Frame, shape: map<Frame, Slot>, va: nat)
    requires WfTables(t, root, shape) && va < USER_END
    ensures
      var v, flat := VpnDown(va), Flat(t, root, shape);
      HardwareWalk(t, root, va, 2) ==
      if v in flat && (flat[v].flags.r || (flat[v].flags.x && !flat[v].flags.w)) then Some((flat[v], 0)) else None
  {
    var v := VpnDown(va);
    FieldsAreIndices(va);
    IndexRound(v);
    FlatAt(t, root, shape, v);
    hide I1, I2, I3, VpnField, Flat;
    TreeRoot(t, root, shape);
    RowFacts(t, root, shape, I3(v));
    var e3 := t[root][I3(v)];
    if e3.Valid() {
      assert e3.IsDirectory();
      CellFacts(t, root, shape, e3.frame, I2(v));
      var e2 := t[e3.frame][I2(v)];
      if e2.Valid() {
        assert e2.IsDirectory();
      }
    }
  }
}
