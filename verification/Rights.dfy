/**
 Which rights a mapped page has, and what a page fault answers and achieves
 (src/process/user_space/user_area.rs), in terms of the areas alone.
 */
module Rights {
  import opened Options
  import opened Address
  import opened Pte
  import opened UserAreas
  import opened Frames
  import opened Spaces
  import opened Worlds
  import opened WorldInvariant

  /** The area at `k` holds page `v`. */
  predicate HoldsPage(m: Areas, k: nat, v: nat) { k in m && k <= v * 4096 < m[k].end }

  /**
   The flags give a user program what the area allows and no more. Only the right to write may be
   withheld for a time, and not in shared memory.
   */
  predicate Allowed(perm: Perm, flags: Flags, shared: bool) {
    && flags.v && flags.u
    && (flags.r <==> perm.read) && (flags.x <==> perm.execute)
    && (flags.w ==> perm.write) && (shared && perm.write ==> flags.w)
  }

  lemma LookupArea(m: Areas, v: nat)
    requires Wf(m)
    ensures Lookup(m, v * PAGE_SIZE).None? <==> forall k: nat :: !HoldsPage(m, k, v)
    ensures forall k: nat :: HoldsPage(m, k, v) ==> Lookup(m, v * PAGE_SIZE) == Some(CellOf(m[k].area, v * PAGE_SIZE - k))
  {
    forall k: nat | HoldsPage(m, k, v)
      ensures Get(m, v * PAGE_SIZE) == Some(k)
    {
      assert Holds(m, k, v * PAGE_SIZE);
    }
    if Get(m, v * PAGE_SIZE).Some? {
      assert HoldsPage(m, Get(m, v * PAGE_SIZE).value, v);
    }
  }

  /** Every mapped page lies in an area and has exactly the rights that this area allows. */
  lemma MappedRights(w: World, s: nat, v: nat)
    requires Inv0(w) && s in w.spaces && v in w.spaces[s].pt
    ensures
      var m := w.spaces[s].areas;
      exists k: nat :: HoldsPage(m, k, v) && Allowed(m[k].area.perm, w.spaces[s].pt[v].flags, InShare(v))
  {
    var sp := w.spaces[s];
    MappedOk(w, s, v);
    assert SpaceOk(sp);
    var k := Get(sp.areas, v * PAGE_SIZE).value;
    assert HoldsPage(sp.areas, k, v);
  }

  /** The access needs a right that the area does not give. */
  predicate Refused(acc: Access, perm: Perm) { (acc == RW && !perm.write) || (acc == RX && !perm.execute) }

  ghost predicate RefusedAt(m: Areas, k: nat, v: nat, acc: Access) {
    HoldsPage(m, k, v) && Refused(acc, m[k].area.perm)
  }

  /** The entry lacks a right of the area. */
  predicate Lacks(flags: Flags, perm: Perm) {
    (perm.read && !flags.r) || (perm.write && !flags.w) || (perm.execute && !flags.x)
  }

  /** A new frame is needed: for a page not mapped yet, or to copy a shared one. */
  predicate NeedsFrame(sp: Space, p: Pool, v: nat, perm: Perm) {
    v !in sp.pt || (Lacks(sp.pt[v].flags, perm) && Count(p, sp.pt[v].frame) > 1)
  }

  ghost predicate NeedsFrameAt(sp: Space, p: Pool, k: nat, v: nat, acc: Access) {
    && HoldsPage(sp.areas, k, v) && !Refused(acc, sp.areas[k].area.perm)
    && NeedsFrame(sp, p, v, sp.areas[k].area.perm)
  }

  /** What a fault answers: a question about the areas, then about memory. */
  lemma FaultAnswers(sp: Space, p: Pool, files: Files, v: nat, acc: Access, got: Option<Frame>, tabs: set<Frame>)
    requires Wf(sp.areas)
    ensures
      var r := FaultStep(sp, p, files, v, acc, got, tabs);
      && (r.2 == NoSegment <==> forall k: nat :: !HoldsPage(sp.areas, k, v))
      && (r.2 == PermUnmatch <==> exists k: nat :: RefusedAt(sp.areas, k, v, acc))
      && (r.2 == KernelOOM <==> got == None && exists k: nat :: NeedsFrameAt(sp, p, k, v, acc))
      && (r.2 == NoSegment || r.2 == PermUnmatch ==> r.0 == sp && r.1 == p)
  {
    hide Wf, FaultStep, Lookup;
    LookupArea(sp.areas, v);
    AnswersByCell(sp, p, files, v, acc, got, tabs);
    if k: nat :| HoldsPage(sp.areas, k, v) {
      OnlyArea(sp.areas, v, k);
      assert RefusedAt(sp.areas, k, v, acc) <==> Refused(acc, sp.areas[k].area.perm);
      assert NeedsFrameAt(sp, p, k, v, acc) <==>
             !Refused(acc, sp.areas[k].area.perm) && NeedsFrame(sp, p, v, sp.areas[k].area.perm);
    }
  }

  lemma OnlyArea(m: Areas, v: nat, k: nat)
    requires Wf(m) && HoldsPage(m, k, v)
    ensures forall j: nat :: HoldsPage(m, j, v) ==> j == k
  {
  }

  lemma AnswersByCell(sp: Space, p: Pool, files: Files, v: nat, acc: Access, got: Option<Frame>, tabs: set<Frame>)
    requires Wf(sp.areas)
    ensures
      var r, cell := FaultStep(sp, p, files, v, acc, got, tabs), Lookup(sp.areas, v * PAGE_SIZE);
      && (r.2 == NoSegment <==> cell.None?)
      && (r.2 == PermUnmatch <==> cell.Some? && Refused(acc, cell.value.perm))
      && (r.2 == KernelOOM <==> cell.Some? && !Refused(acc, cell.value.perm) && got == None &&
                                NeedsFrame(sp, p, v, cell.value.perm))
      && (r.2 == NoSegment || r.2 == PermUnmatch ==> r.0 == sp && r.1 == p)
  {
    hide Wf, Lookup, AllocAll, Filled, Decrease, Demand;
  }

  /** A fault that succeeds has mapped the page with the right that was asked for, and changed no other page. */
  lemma FaultProgress(w: World, files: Files, s: nat, v: nat, acc: Access, got: Option<Frame>, tabs: set<Frame>)
    requires Inv0(w) && s in w.spaces && v < USER_VPNS && Wf(w.spaces[s].areas)
    requires FaultStep(w.spaces[s], w.pool, files, v, acc, got, tabs).2 == Done
    ensures
      var sp, sp' := w.spaces[s], FaultStep(w.spaces[s], w.pool, files, v, acc, got, tabs).0;
      && v in sp'.pt && sp'.pt[v].flags.v && sp'.pt[v].flags.u
      && (acc == RW ==> sp'.pt[v].flags.w)
      && (acc == RX ==> sp'.pt[v].flags.x)
      && sp'.areas == sp.areas
      && (forall u: nat :: u != v ==> (u in sp'.pt <==> u in sp.pt) && (u in sp.pt ==> sp'.pt[u] == sp.pt[u]))
  {
    hide Exact, Separate, Exclusive, ShmOk, Lookup, AllocAll, Filled, Decrease;
    var sp := w.spaces[s];
    if v in sp.pt {
      MappedOk(w, s, v);
    }
  }

  /** After a fault that succeeded, the same access faults no more: the next one would change nothing. */
  lemma FaultOnce(w: World, files: Files, s: nat, v: nat, acc: Access, got: Option<Frame>, tabs: set<Frame>,
                  got': Option<Frame>, tabs': set<Frame>)
    requires Inv0(w) && s in w.spaces && v < USER_VPNS && Wf(w.spaces[s].areas)
    requires FaultStep(w.spaces[s], w.pool, files, v, acc, got, tabs).2 == Done
    ensures
      var r := FaultStep(w.spaces[s], w.pool, files, v, acc, got, tabs);
      Wf(r.0.areas) && FaultStep(r.0, r.1, files, v, acc, got', tabs') == r
  {
    hide Exact, Separate, Exclusive, ShmOk, Lookup, AllocAll, Filled, Decrease;
    if v in w.spaces[s].pt {
      MappedOk(w, s, v);
    }
  }
}
