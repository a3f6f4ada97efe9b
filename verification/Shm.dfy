/** Shared-memory segments as the source allocates and drops them (src/process/user_space/shm_mgr.rs). */
module SharedMemory {
  import opened Collections
  import opened Options
  import opened Pte
  import opened Frames
  import opened PageTableCode

  class Shm {
    const frames: seq<Frame>
    var attachCount: nat

    constructor (frames: seq<Frame>)
      ensures this.frames == frames && attachCount == 0
    {
      this.frames := frames;
      attachCount := 0;
    }

    /** `attach`: counts the call; its result is the frames in order. */
    method Attach() returns (fs: seq<Frame>)
      modifies this
      ensures fs == frames && attachCount == old(attachCount) + 1
    {
      attachCount := attachCount + 1;
      fs := frames;
    }

    /** `Drop for Shm`: by then nothing else refers to the frames, and all of them are freed. */
    method DropShm(pm: PhysMem)
      requires PoolOk(pm.State()) && Distinct(frames)
      requires forall f :: f in frames ==> f in pm.count && pm.count[f] == 1
      modifies pm
      ensures PoolOk(pm.State()) && pm.State() == Freed(old(pm.State()), SetOf(frames)) && pm.tab == old(pm.tab)
    {
      hide Freed, SetOf, Distinct;
      ghost var p := pm.State();
      FreedNone(p);
      SetOfNone(frames);
      for i := 0 to |frames|
        invariant PoolOk(pm.State()) && pm.tab == old(pm.tab)
        invariant pm.State() == Freed(p, SetOf(frames[..i]))
      {
        SetOfMore(frames, i);
        FreedMore(p, SetOf(frames[..i]), frames[i]);
        pm.DecreaseAndMustDealloc(frames[i]);
      }
      assert frames[..|frames|] == frames;
    }
  }

  /**
   `Shm::alloc` of `n` pages. When the allocator runs dry it gives up and keeps every frame it has
   taken so far.
   */
  method AllocShm(pm: PhysMem, n: nat) returns (r: Option<Shm>)
    requires PoolOk(pm.State())
    modifies pm
    ensures PoolOk(pm.State()) && pm.tab == old(pm.tab)
    ensures r.None? <==> |old(pm.free)| < n
    ensures r.None? ==> pm.State() == AllocAll(old(pm.State()), old(pm.free))
    ensures r.Some? ==>
              && fresh(r.value) && |r.value.frames| == n && Distinct(r.value.frames)
              && SetOf(r.value.frames) <= old(pm.free)
              && pm.State() == AllocAll(old(pm.State()), SetOf(r.value.frames))
  {
    hide AllocAll, PoolOk;
    var frames: seq<Frame> := [];
    ghost var p := pm.State();
    AllocNothing(p);
    for i := 0 to n
      invariant PoolOk(pm.State()) && pm.tab == old(pm.tab) && |frames| == i && Distinct(frames)
      invariant SetOf(frames) <= p.free && pm.free == p.free - SetOf(frames) && |pm.free| == |p.free| - i
      invariant pm.State() == AllocAll(p, SetOf(frames))
    {
      var f := pm.AllocFrame();
      if f.None? {
        assert SetOf(frames) == p.free;
        return None;
      }
      AllocMore(p, frames, f.value);
      frames := frames + [f.value];
    }
    var shm := new Shm(frames);
    r := Some(shm);
  }

  lemma AllocNothing(p: Pool)
    ensures SetOf([]) == {} && AllocAll(p, {}) == p
  {
  }

  lemma AllocMore(p: Pool, frames: seq<Frame>, f: Frame)
    requires Distinct(frames) && SetOf(frames) <= p.free && f in p.free && f !in SetOf(frames)
    ensures Distinct(frames + [f]) && SetOf(frames + [f]) == SetOf(frames) + {f}
    ensures
      var q := Alloc(AllocAll(p, SetOf(frames)), f);
      && q == AllocAll(p, SetOf(frames + [f])) && q.free == p.free - SetOf(frames + [f])
      && |p.free - SetOf(frames + [f])| == |p.free - SetOf(frames)| - 1
  {
    AllocTwice(p, SetOf(frames), {f});
    assert SetOf(frames + [f]) == SetOf(frames) + {f};
    assert p.free - SetOf(frames) == (p.free - SetOf(frames + [f])) + {f};
  }
}
