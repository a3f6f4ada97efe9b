/**
 The frame allocator and the per-frame reference counts
 (src/memory/frame.rs, src/memory/frame_ref_cnt.rs).
 */
module Frames {
  import opened Options
  import opened Pte
  import opened Address
  import opened Bytes

  type Page = seq<Byte>

  function ZeroPage(): Page { seq(PAGE_SIZE, _ => 0) }

  /** The free set of the bitmap allocator, the count of every frame and what every frame holds. */
  datatype Pool = Pool(free: set<Frame>, count: map<Frame, nat>, mem: map<Frame, Page>)

  predicate PoolOk(p: Pool) {
    && p.count.Keys == p.mem.Keys && p.free <= p.count.Keys
    && forall f :: f in p.count ==> (f in p.free <==> p.count[f] == 0)
  }

  /** `alloc_frame` on each frame of a set. */
  function AllocAll(p: Pool, fs: set<Frame>): Pool {
    Pool(p.free - fs,
         map f | f in p.count :: if f in fs then p.count[f] + 1 else p.count[f],
         p.mem)
  }

  function Alloc(p: Pool, f: Frame): Pool { AllocAll(p, {f}) }

  /** `atomic_xsub` by one on a 32-bit count. */
  function Less(c: nat): nat { if c == 0 then 0xffff_ffff else c - 1 }

  /** `decrease_and_try_dealloc` */
  function Release(p: Pool, f: Frame): Pool {
    if f !in p.count then p
    else Pool(if p.count[f] == 1 then p.free + {f} else p.free, p.count[f := Less(p.count[f])], p.mem)
  }

  /** `decrease` */
  function Decrease(p: Pool, f: Frame): Pool {
    if f !in p.count then p else p.(count := p.count[f := Less(p.count[f])])
  }

  function Filled(p: Pool, f: Frame, data: Page): Pool { p.(mem := p.mem[f := data]) }

  /** The frames of a dropped page table or of a dropped segment go back to the allocator. */
  function Freed(p: Pool, fs: set<Frame>): Pool {
    Pool(p.free + fs, map f | f in p.count :: if f in fs then Less(p.count[f]) else p.count[f], p.mem)
  }

  lemma FreedNone(p: Pool)
    ensures Freed(p, {}) == p
  {
  }

  lemma FreedMore(p: Pool, fs: set<Frame>, f: Frame)
    requires f !in fs && f in p.count && p.count[f] == 1
    ensures
      var q := Freed(p, fs);
      f in q.count && q.count[f] == 1 && Freed(p, fs + {f}) == Pool(q.free + {f}, q.count[f := 0], q.mem)
  {
    var q, r := Freed(p, fs), Freed(p, fs + {f});
    assert r.free == q.free + {f};
    assert r.count == q.count[f := 0];
  }

  lemma AllocAllOk(p: Pool, fs: set<Frame>)
    requires PoolOk(p) && fs <= p.free
    ensures PoolOk(AllocAll(p, fs))
  {
  }

  lemma AllocAllFree(p: Pool, fs: set<Frame>)
    requires fs <= p.free
    ensures AllocAll(p, fs).free == p.free - fs
    ensures |AllocAll(p, fs).free| == |p.free| - |fs|
  {
  }

  lemma AllocTwice(p: Pool, a: set<Frame>, b: set<Frame>)
    requires a !! b
    ensures AllocAll(AllocAll(p, a), b) == AllocAll(p, a + b)
  {
    var x, y := AllocAll(AllocAll(p, a), b), AllocAll(p, a + b);
    assert x.free == y.free;
    assert x.count == y.count;
  }

  /**
   Physical memory. A frame holds a page of bytes (`mem`) or, when it serves as a page table,
   512 entries (`tab`); no frame is ever used both ways.
   */
  class PhysMem {
    var free: set<Frame>
    var count: map<Frame, nat>
    var mem: map<Frame, Page>
    var tab: map<Frame, seq<Entry>>

    ghost function State(): Pool
      reads this
    {
      Pool(free, count, mem)
    }

    method AllocFrame() returns (r: Option<Frame>)
      requires PoolOk(State())
      modifies this
      ensures PoolOk(State()) && tab == old(tab)
      ensures r.None? <==> old(free) == {}
      ensures r.None? ==> State() == old(State())
      ensures r.Some? ==> r.value in old(free) && State() == Alloc(old(State()), r.value)
    {
      if free == {} {
        return None;
      }
      var f :| f in free;
      ghost var was := State();
      free := free - {f};
      assert count[f] == 0;
      Increase(f);
      assert State().count == Alloc(was, f).count;
      return Some(f);
    }

    method Increase(f: Frame)
      requires f in count
      modifies this`count
      ensures count == old(count)[f := old(count)[f] + 1]
    {
      count := count[f := count[f] + 1];
    }

    /** The source asserts that the count is not zero. */
    method DecreaseCount(f: Frame)
      requires f in count && count[f] != 0
      modifies this`count
      ensures State() == Decrease(old(State()), f)
    {
      count := count[f := Less(count[f])];
    }

    method DeallocFrame(f: Frame)
      requires f in count && count[f] == 0 && f !in free
      modifies this`free
      ensures free == old(free) + {f}
    {
      free := free + {f};
    }

    method DecreaseAndTryDealloc(f: Frame)
      requires PoolOk(State()) && f in count && f !in free
      modifies this
      ensures PoolOk(State()) && tab == old(tab)
      ensures State() == Release(old(State()), f)
    {
      var prev := count[f];
      count := count[f := Less(prev)];
      if prev == 1 {
        DeallocFrame(f);
      }
    }

    /** The source panics unless the count was one. */
    method DecreaseAndMustDealloc(f: Frame)
      requires PoolOk(State()) && f in count && count[f] == 1
      modifies this
      ensures PoolOk(State()) && tab == old(tab)
      ensures State() == Release(old(State()), f)
    {
      count := count[f := Less(count[f])];
      DeallocFrame(f);
    }

    method FillPage(f: Frame, data: Page)
      requires f in mem
      modifies this`mem
      ensures State() == Filled(old(State()), f, data)
    {
      mem := mem[f := data];
    }
  }
}
