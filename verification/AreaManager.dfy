/** Where `UserAreaManager` puts stacks, mappings and the heap (src/process/user_space/user_area.rs). */
module AreaManagers {
  import opened Options
  import opened Address
  import opened UserAreas
  import opened RangeMaps

  // Segment bounds, src/consts/address_space.rs.
  const HEAP_BEG: nat := 0x4000_0000
  const STACK_BEG: nat := 0x1_0000_0000
  const STACK_END: nat := 0x2_0000_0000
  const MMAP_BEG: nat := 0x2_0000_0000
  const MMAP_END: nat := 0x4_0000_0000

  function StackEnd(a: nat, n: nat): nat { RoundUp(a + n) }

  /** `(end - 1) & !0xf` */
  function StackTop(end: nat): nat
    requires end > 0
  {
    end - 1 - (end - 1) % 16
  }

  /** The stack ends at the next page boundary after its bytes, with the pointer 16 bytes below. */
  predicate StackAt(start: nat, end: nat, sp: nat, size: nat) {
    && STACK_BEG <= start < end <= STACK_END && end % 4096 == 0 && start + size < end <= start + size + 4096
    && sp % 16 == 0 && sp == end - 16
    && (start <= sp - size <==> (start + size) % PAGE_SIZE <= PAGE_SIZE - 16)
  }

  lemma TopOfPage(n: nat)
    requires n > 0
    ensures Aligned(PAGE_SIZE * n) && StackTop(PAGE_SIZE * n) == PAGE_SIZE * n - 16
    ensures (PAGE_SIZE * n - 16) % 16 == 0
  {
    var k := 256 * n - 1;
    assert PAGE_SIZE * n - 1 == 16 * k + 15;
    assert (16 * k + 15) % 16 == 15;
  }

  lemma StackFits(start: nat, size: nat)
    requires STACK_BEG <= start && StackEnd(start, size) <= STACK_END
    ensures StackEnd(start, size) > 0 && StackAt(start, StackEnd(start, size), StackTop(StackEnd(start, size)), size)
  {
    var a := start + size;
    var q, r := a / PAGE_SIZE, a % PAGE_SIZE;
    assert a == PAGE_SIZE * q + r;
    TopOfPage(q + 1);
  }

  lemma StackRoom(start: nat, size: nat)
    ensures StackEnd(start, size) <= STACK_END <==> start + size < STACK_END
  {
    assert STACK_END == PAGE_SIZE * 0x20_0000;
  }

  lemma StackEnds()
    ensures forall a: nat, n: nat :: a <= StackEnd(a, n)
    ensures forall a: nat, b: nat, n: nat :: a <= b ==> StackEnd(a, n) <= StackEnd(b, n)
  {
  }

  function MmapEnd(a: nat, n: nat): nat { Ceil(a + n) }

  /** There is room for a mapping behind all others. */
  ghost predicate MmapRoom(m: Areas, size: nat) {
    forall b: nat :: IsBehind(m, MMAP_BEG, MMAP_END, b) ==> b + size <= MMAP_END
  }

  /** A mapping of `size` bytes: it ends at the first page boundary from which nothing is left to map. */
  predicate MmapAt(start: nat, end: nat, size: nat) {
    MMAP_BEG <= start < end <= MMAP_END && end % 4096 == 0 && 0 <= end - (start + size) < 4096
  }

  /** The mappings, and whatever else reaches into their window, end at page boundaries. */
  predicate MmapsAligned(m: Areas) {
    forall k :: k in m && k < MMAP_END && MMAP_BEG < m[k].end ==> m[k].end % 4096 == 0
  }

  lemma MmapFits(start: nat, size: nat)
    requires MMAP_BEG <= start && size > 0
    ensures MmapEnd(start, size) <= MMAP_END <==> start + size <= MMAP_END
    ensures MmapEnd(start, size) <= MMAP_END ==> MmapAt(start, MmapEnd(start, size), size)
  {
    assert MMAP_END == PAGE_SIZE * 0x40_0000;
  }

  /** Whoever comes behind page boundaries begins at one. */
  lemma BehindAligned(m: Areas, b: nat)
    requires MmapsAligned(m) && IsBehind(m, MMAP_BEG, MMAP_END, b)
    ensures b % 4096 == 0
  {
    assert MMAP_BEG == PAGE_SIZE * 0x20_0000;
    if b != MMAP_BEG {
      var k :| k in m && k < MMAP_END && m[k].end == b;
    }
  }

  lemma FreeFits(m: Areas, start: nat, end: nat)
    requires Wf(m) && start < end && Free(m, start, end)
    ensures !Overlaps(m, start, end)
  {
  }

  class UserAreaManager {
    const rangeMap: RangeMap

    constructor (m: RangeMap)
      ensures rangeMap == m
    {
      rangeMap := m;
    }

    /**
     A new stack behind all others, or `None` where the source gives up with "too many stack!". The
     insertion cannot fail. The stack pointer is 16-byte aligned, but the `size` bytes below it lie in
     the area exactly when the unrounded end leaves 16 bytes in its page.
     */
    method AllocStack(size: nat) returns (sp: Option<nat>, ghost start: nat)
      requires Wf(rangeMap.nodes) && PrecedingFits(rangeMap.nodes, STACK_BEG, STACK_END, size, StackEnd)
      modifies rangeMap
      ensures Wf(rangeMap.nodes)
      ensures IsBehind(old(rangeMap.nodes), STACK_BEG, STACK_END, start)
      ensures sp.Some? <==> start + size < STACK_END
      ensures sp.None? ==> rangeMap.nodes == old(rangeMap.nodes)
      ensures sp.Some? ==>
                exists end: nat ::
                  && StackAt(start, end, sp.value, size) && !Overlaps(old(rangeMap.nodes), start, end)
                  && rangeMap.nodes == old(rangeMap.nodes)[start := Node(end, Area(Anonymous, Perm(true, true, false)))]
    {
      hide StackTop, StackEnd;
      StackEnds();
      var r;
      r, start := rangeMap.FindFreeRange(STACK_BEG, STACK_END, size, StackEnd);
      StackRoom(start, size);
      if r.None? {
        return None, start;
      }
      var (begin, end) := r.value;
      var spInit := StackTop(end);
      StackFits(begin, size);
      FreeFits(rangeMap.nodes, begin, end);
      var ok := rangeMap.TryInsert(begin, end, Area(Anonymous, Perm(true, true, false)));
      assert ok;
      sp := Some(spInit);
    }

    /**
     `insert_mmap_anonymous`, `insert_mmap_private`: behind all other mappings; fails exactly when
     there is no room there. Among mappings that end at page boundaries it begins at one.
     */
    method InsertMmap(size: nat, area: Area) returns (r: Option<nat>)
      requires Wf(rangeMap.nodes) && size > 0 && PrecedingFits(rangeMap.nodes, MMAP_BEG, MMAP_END, size, MmapEnd)
      modifies rangeMap
      ensures Wf(rangeMap.nodes)
      ensures r.None? ==> rangeMap.nodes == old(rangeMap.nodes) && !MmapRoom(rangeMap.nodes, size)
      ensures r.Some? ==>
                && IsBehind(old(rangeMap.nodes), MMAP_BEG, MMAP_END, r.value) && MmapRoom(old(rangeMap.nodes), size)
                && (MmapsAligned(old(rangeMap.nodes)) ==> r.value % 4096 == 0 && MmapsAligned(rangeMap.nodes))
                && exists end: nat ::
                     && MmapAt(r.value, end, size) && !Overlaps(old(rangeMap.nodes), r.value, end)
                     && rangeMap.nodes == old(rangeMap.nodes)[r.value := Node(end, area)]
    {
      var found, behind := rangeMap.FindFreeRange(MMAP_BEG, MMAP_END, size, MmapEnd);
      MmapFits(behind, size);
      if MmapsAligned(rangeMap.nodes) {
        BehindAligned(rangeMap.nodes, behind);
      }
      if found.None? {
        return None;
      }
      var (start, end) := found.value;
      FreeFits(rangeMap.nodes, start, end);
      var ok := rangeMap.TryInsert(start, start + (end - start), area);
      assert ok;
      r := Some(start);
    }

    /** `reset_heap_break` on the heap that begins at `HEAP_BEG`. */
    method ResetHeapBreak(newBreak: nat) returns (ok: bool)
      requires Wf(rangeMap.nodes) && HEAP_BEG in rangeMap.nodes
      modifies rangeMap
      ensures Wf(rangeMap.nodes)
      ensures
        var m, end := old(rangeMap.nodes), old(rangeMap.nodes)[HEAP_BEG].end;
        && (ok <==> HEAP_BEG <= newBreak && (end < newBreak ==> Free(m, end, newBreak)))
        && rangeMap.nodes == if !ok then m else if newBreak == HEAP_BEG then m - {HEAP_BEG}
                         else m[HEAP_BEG := m[HEAP_BEG].(end := newBreak)]
    {
      var k := rangeMap.Find(HEAP_BEG);
      assert Holds(rangeMap.nodes, HEAP_BEG, HEAP_BEG);
      var start := k.value;
      var end := rangeMap.nodes[start].end;
      if end < newBreak {
        ok := rangeMap.ExtendBack(start, newBreak);
      } else if newBreak < end {
        var r := rangeMap.ReduceBack(start, newBreak);
        ok := r.Some?;
      } else {
        ok := true;
        assert rangeMap.nodes[HEAP_BEG].(end := newBreak) == rangeMap.nodes[HEAP_BEG];
      }
    }
  }

  /** 4088 bytes at the bottom of the stack segment: the last 8 of them lie below the area. */
  method StackTooShort() returns (sp: Option<nat>)
    ensures sp.Some? && sp.value - 4088 < STACK_BEG
  {
    var areas := new RangeMap();
    var manager := new UserAreaManager(areas);
    ghost var start;
    sp, start := manager.AllocStack(4088);
  }

  /** With one mapping at the end of the window, the free space before it is not found. */
  method GapMissed(area: Area) returns (r: Option<nat>)
    ensures r.None? && Free(map[MMAP_END - PAGE_SIZE := Node(MMAP_END, area)], MMAP_BEG, MMAP_END - PAGE_SIZE)
  {
    var areas := new RangeMap();
    var ok := areas.TryInsert(MMAP_END - PAGE_SIZE, MMAP_END, area);
    assert areas.nodes == map[MMAP_END - PAGE_SIZE := Node(MMAP_END, area)];
    assert IsBehind(areas.nodes, MMAP_BEG, MMAP_END, MMAP_END) by {
      assert MMAP_END - PAGE_SIZE in areas.nodes;
    }
    var manager := new UserAreaManager(areas);
    r := manager.InsertMmap(PAGE_SIZE, area);
  }
}
