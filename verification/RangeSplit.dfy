/**
 Splitting and merging ranges (src/process/user_space/range_map.rs): the map shows the same at every
 address afterwards, for merging exactly when the second range continues the first.
 */
module RangeSplits {
  import opened Options
  import opened UserAreas
  import opened RangeMaps

  ghost predicate SameView(m: Areas, m': Areas)
    requires Wf(m) && Wf(m')
  {
    forall a: nat :: Lookup(m', a) == Lookup(m, a)
  }

  function SplitAt(m: Areas, k: nat, p: nat): Areas
    requires k in m && k < p && !m[k].area.kind.Shm?
  {
    m[k := Node(p, m[k].area)][p := Node(m[k].end, SplitMakeRight(m[k].area, p, k))]
  }

  lemma SplitWf(m: Areas, k: nat, p: nat)
    requires Wf(m) && k in m && k < p < m[k].end && !m[k].area.kind.Shm?
    ensures Wf(SplitAt(m, k, p)) && p !in m
  {
  }

  lemma SplitView(m: Areas, k: nat, p: nat, a: nat)
    requires Wf(m) && k in m && k < p < m[k].end && !m[k].area.kind.Shm? && Wf(SplitAt(m, k, p)) && p !in m
    ensures Lookup(SplitAt(m, k, p), a) == Lookup(m, a)
  {
    hide Wf, SplitMakeRight, CellOf;
    var m' := SplitAt(m, k, p);
    if k <= a < m[k].end {
      assert Holds(m, k, a);
      if a < p {
        assert Holds(m', k, a);
      } else {
        assert Holds(m', p, a);
        SplitCells(m[k].area, p, k, a - p);
      }
    } else {
      assert forall j: nat :: Holds(m, j, a) <==> Holds(m', j, a);
    }
  }

  lemma SplitKeeps(m: Areas, k: nat, p: nat)
    requires Wf(m) && k in m && k < p < m[k].end && !m[k].area.kind.Shm?
    ensures Wf(SplitAt(m, k, p)) && SameView(m, SplitAt(m, k, p))
  {
    hide Wf, Lookup, SplitAt;
    SplitWf(m, k, p);
    var m' := SplitAt(m, k, p);
    forall a: nat
      ensures Lookup(m', a) == Lookup(m, a)
    {
      SplitView(m, k, p, a);
    }
  }

  /** The range at `k` takes over the one that begins where it ends. */
  function MergeNext(m: Areas, k: nat): Areas
    requires k in m && m[k].end in m && k != m[k].end
  {
    (m - {m[k].end})[k := Node(m[m[k].end].end, m[k].area)]
  }

  /** `y` shows what `x` would show from `d` on. */
  predicate Continues(x: Area, y: Area, d: nat) {
    x.perm == y.perm &&
    match (x.kind, y.kind)
    case (Anonymous, Anonymous) => true
    case (Private(f, o), Private(g, q)) => f == g && o + d == q
    case (Shm(i), Shm(j)) => i == j && d == 0
    case _ => false
  }

  lemma MergeWf(m: Areas, k: nat)
    requires Wf(m) && k in m && m[k].end in m
    ensures k < m[k].end < m[m[k].end].end && Wf(MergeNext(m, k))
  {
  }

  lemma ContinuesCell(x: Area, y: Area, d: nat, e: nat)
    requires d > 0
    ensures Continues(x, y, d) ==> CellOf(x, d + e) == CellOf(y, e)
    ensures CellOf(x, d) == CellOf(y, 0) ==> Continues(x, y, d)
  {
  }

  lemma MergeExact(m: Areas, k: nat)
    requires Wf(m) && k in m && m[k].end in m
    ensures k < m[k].end && Wf(MergeNext(m, k))
    ensures SameView(m, MergeNext(m, k)) <==> Continues(m[k].area, m[m[k].end].area, m[k].end - k)
  {
    hide Lookup, Wf, Continues, CellOf, MergeNext;
    MergeWf(m, k);
    var mid := m[k].end;
    var m' := MergeNext(m, k);
    if Continues(m[k].area, m[mid].area, mid - k) {
      forall a: nat
        ensures Lookup(m', a) == Lookup(m, a)
      {
        MergedView(m, k, a);
        if mid <= a {
          ContinuesCell(m[k].area, m[mid].area, mid - k, a - mid);
        }
      }
    } else {
      MergedView(m, k, mid);
      ContinuesCell(m[k].area, m[mid].area, mid - k, 0);
      assert Lookup(m', mid) != Lookup(m, mid);
    }
  }

  lemma MergedView(m: Areas, k: nat, a: nat)
    requires Wf(m) && k in m && m[k].end in m && k < m[k].end && Wf(MergeNext(m, k))
    ensures
      var mid := m[k].end;
      if mid <= a < m[mid].end then
        && Lookup(m, a) == Some(CellOf(m[mid].area, a - mid))
        && Lookup(MergeNext(m, k), a) == Some(CellOf(m[k].area, a - k))
      else Lookup(MergeNext(m, k), a) == Lookup(m, a)
  {
    var mid, m' := m[k].end, MergeNext(m, k);
    if k <= a < m[mid].end {
      assert Holds(m', k, a);
      assert if a < mid then Holds(m, k, a) else Holds(m, mid, a);
    } else {
      assert forall j: nat :: Holds(m, j, a) <==> Holds(m', j, a);
    }
  }

  /** `split_at_maybe`; the closure panics on shared memory. */
  method SplitAtMaybe(areas: RangeMap, p: nat)
    requires Wf(areas.nodes)
    requires forall k :: k in areas.nodes && k < p < areas.nodes[k].end ==> !areas.nodes[k].area.kind.Shm?
    modifies areas
    ensures Wf(areas.nodes) && SameView(old(areas.nodes), areas.nodes)
    ensures forall k :: k in areas.nodes ==> p <= k || areas.nodes[k].end <= p
  {
    hide GreatestBelow, SameView;
    SameAlways(areas.nodes);
    var last := GreatestBelow(areas.nodes.Keys, p);
    if last.None? {
      return;
    }
    var k := last.value;
    var end := areas.nodes[k].end;
    if end <= p {
      return;
    }
    SplitKeeps(areas.nodes, k, p);
    var area := areas.nodes[k].area;
    areas.nodes := areas.nodes[k := Node(p, area)];
    areas.nodes := areas.nodes[p := Node(end, SplitMakeRight(area, p, k))];
  }

  lemma SameAlways(m: Areas)
    requires Wf(m)
    ensures SameView(m, m)
  {
  }

  lemma SameTwice(a: Areas, b: Areas, c: Areas)
    requires Wf(a) && Wf(b) && Wf(c) && SameView(a, b) && SameView(b, c)
    ensures SameView(a, c)
  {
  }

  /** The second half of `merge`: with the range that ends where the one at `start` begins. */
  function MergedPrev(m: Areas, start: nat, f: (Area, Area) -> bool): Areas
    requires Wf(m) && start in m
  {
    match GreatestBelow(m.Keys, start)
    case Some(p) => if m[p].end == start && f(m[p].area, m[start].area) then MergeNext(m, p) else m
    case None => m
  }

  /** The first half: with the range that begins where the one at `start` ends. */
  function MergedNext(m: Areas, start: nat, f: (Area, Area) -> bool): Areas
    requires Wf(m) && start in m
  {
    var end := m[start].end;
    if end in m && f(m[start].area, m[end].area) then MergeNext(m, start) else m
  }

  /** Whatever `f` lets be merged belongs together. */
  predicate MergesRight(m: Areas, start: nat, f: (Area, Area) -> bool)
    requires Wf(m) && start in m
  {
    var end, area := m[start].end, m[start].area;
    && (end in m && f(area, m[end].area) ==> Continues(area, m[end].area, end - start))
    && forall p :: p in m && m[p].end == start && f(m[p].area, area) ==> Continues(m[p].area, area, start - p)
  }

  lemma MergedNextFacts(m: Areas, start: nat, f: (Area, Area) -> bool)
    requires Wf(m) && start in m
    ensures
      var m1 := MergedNext(m, start, f);
      && Wf(m1) && start in m1 && m1[start].area == m[start].area
      && forall p: nat :: p < start ==> (p in m1 <==> p in m) && (p in m1 ==> m1[p] == m[p])
  {
    if m[start].end in m {
      MergeWf(m, start);
    }
  }

  lemma MergedPrevWf(m: Areas, start: nat, f: (Area, Area) -> bool)
    requires Wf(m) && start in m
    ensures Wf(MergedPrev(m, start, f))
  {
    hide GreatestBelow;
    var prev := GreatestBelow(m.Keys, start);
    if prev.Some? && m[prev.value].end == start {
      MergeWf(m, prev.value);
    }
  }

  /** Merging changes nothing that is shown if and only if `f` joins only what belongs together. */
  lemma MergeBothExact(m: Areas, start: nat, f: (Area, Area) -> bool)
    requires Wf(m) && start in m
    ensures Wf(MergedNext(m, start, f)) && start in MergedNext(m, start, f)
    ensures Wf(MergedPrev(MergedNext(m, start, f), start, f))
    ensures SameView(m, MergedPrev(MergedNext(m, start, f), start, f)) <==> MergesRight(m, start, f)
  {
    hide Lookup, Wf, Continues, CellOf, MergeNext, SameView, GreatestBelow;
    MergedNextFacts(m, start, f);
    var m1 := MergedNext(m, start, f);
    MergedPrevWf(m1, start, f);
    var m2 := MergedPrev(m1, start, f);
    var end := m[start].end;
    var prev := GreatestBelow(m1.Keys, start);
    PrevOnly(m, m1, start);
    if end in m && f(m[start].area, m[end].area) {
      MergeExact(m, start);
    } else {
      SameAlways(m);
    }
    if prev.Some? && m1[prev.value].end == start && f(m1[prev.value].area, m1[start].area) {
      MergeExact(m1, prev.value);
      if SameView(m, m1) && SameView(m1, m2) {
        SameTwice(m, m1, m2);
      } else if SameView(m, m2) {
        BothOrNone(m, m1, m2, start, prev.value);
      }
    }
  }

  /** Only the nearest range before `start` can end there. */
  lemma PrevOnly(m: Areas, m1: Areas, start: nat)
    requires Wf(m) && start in m
    requires forall p: nat :: p < start ==> (p in m1 <==> p in m) && (p in m1 ==> m1[p] == m[p])
    ensures forall p :: p in m && m[p].end == start ==> GreatestBelow(m1.Keys, start) == Some(p)
  {
    hide GreatestBelow;
    forall p | p in m && m[p].end == start
      ensures GreatestBelow(m1.Keys, start) == Some(p)
    {
      assert p in m1.Keys;
    }
  }

  /** Two merges that together change nothing change nothing one by one. */
  lemma BothOrNone(m: Areas, m1: Areas, m2: Areas, start: nat, p: nat)
    requires Wf(m) && start in m && p in m && m[p].end == start && p < start
    requires m1 == m || (m[start].end in m && m1 == MergeNext(m, start))
    requires Wf(m1) && p in m1 && m1[p] == m[p] && start in m1 && m2 == MergeNext(m1, p) && Wf(m2)
    requires SameView(m, m2)
    ensures SameView(m, m1) && SameView(m1, m2)
  {
    hide Wf, MergeNext;
    var end := m[start].end;
    MergedView(m1, p, start);
    if m1 == m {
      SameAlways(m);
    } else {
      MergeWf(m, start);
      MergeExact(m, start);
      MergedView(m, start, start);
      MergedView(m, start, end);
      MergedArea(m, start);
      MergedView(m1, p, end);
      ContinuesCell(m[p].area, m[start].area, start - p, 0);
      ContinuesCell(m[p].area, m[start].area, start - p, end - start);
      ContinuesCell(m[start].area, m[end].area, end - start, 0);
      assert Lookup(m2, start) == Lookup(m, start) && Lookup(m2, end) == Lookup(m, end);
    }
    SameView1(m, m1, m2);
  }

  lemma MergedArea(m: Areas, k: nat)
    requires Wf(m) && k in m && m[k].end in m && k < m[k].end
    ensures
      var m1 := MergeNext(m, k);
      k in m1 && m1[k] == Node(m[m[k].end].end, m[k].area) && m[k].end < m1[k].end
  {
  }

  lemma SameView1(a: Areas, b: Areas, c: Areas)
    requires Wf(a) && Wf(b) && Wf(c) && SameView(a, b) && SameView(a, c)
    ensures SameView(b, c)
  {
  }

  /** `merge` with the neighbours of the range that begins at `start`, as the caller's `f` allows. */
  method Merge(areas: RangeMap, start: nat, f: (Area, Area) -> bool)
    requires Wf(areas.nodes) && start in areas.nodes
    modifies areas
    ensures Wf(areas.nodes) && (SameView(old(areas.nodes), areas.nodes) <==> MergesRight(old(areas.nodes), start, f))
    ensures start in MergedNext(old(areas.nodes), start, f) && Wf(MergedNext(old(areas.nodes), start, f))
    ensures areas.nodes == MergedPrev(MergedNext(old(areas.nodes), start, f), start, f)
  {
    hide GreatestBelow, SameView, Wf, MergesRight;
    ghost var m0 := areas.nodes;
    MergeBothExact(m0, start, f);
    var end := areas.nodes[start].end;
    if end in areas.nodes && f(areas.nodes[start].area, areas.nodes[end].area) {
      areas.nodes := (areas.nodes - {end})[start := Node(areas.nodes[end].end, areas.nodes[start].area)];
    }
    ghost var m1 := areas.nodes;
    assert m1 == MergedNext(m0, start, f);
    var prev := GreatestBelow(areas.nodes.Keys, start);
    if prev.Some? && areas.nodes[prev.value].end == start && f(areas.nodes[prev.value].area, areas.nodes[start].area) {
      var s := prev.value;
      var to := areas.nodes[start].end;
      areas.nodes := areas.nodes[s := Node(to, areas.nodes[s].area)];
      areas.nodes := areas.nodes - {start};
      assert areas.nodes == MergeNext(m1, s);
    }
  }
}
