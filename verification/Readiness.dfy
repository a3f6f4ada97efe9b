/**
 What the methods of `UserSpace` ask of their caller holds in every world that satisfies the
 invariant: the source's assertions and `unwrap`s on these paths cannot fail.
 */
module Readiness {
  import opened Address
  import opened UserAreas
  import opened Frames
  import opened PageTables
  import opened CowCopy
  import opened Spaces
  import opened Worlds
  import opened WorldInvariant
  import opened UserSpaceCode

  /** What fork, unmap and drop rely on. */
  lemma SpaceReady(w: World, s: nat)
    requires Inv0(w) && s in w.spaces
    ensures
      var sp := w.spaces[s];
      && Covers(w.pool, sp.pt) && Apart(sp.pt, sp.tables) && Tidy(sp.areas, sp.pt) && Mapped(sp.pt, w.pool)
      && forall f :: f in sp.tables ==> Count(w.pool, f) == 1
  {
    hide Exact, Separate, Exclusive, ShmOk, Owns, Owners, SpaceOk, Covers;
    ExactCovers(w, s);
    var sp := w.spaces[s];
    forall v: nat | v in sp.pt
      ensures Covered(sp.areas, v) && v < USER_VPNS && sp.pt[v].IsLeaf()
      ensures sp.pt[v].frame in w.pool.count && sp.pt[v].frame !in w.pool.free && sp.pt[v].frame !in sp.tables
    {
      PageReady(w, s, v);
    }
    forall f | f in sp.tables
      ensures Count(w.pool, f) == 1
    {
      TableAlone(w, s, f);
    }
    SpaceAreas(w, s);
  }

  lemma PageReady(w: World, s: nat, v: nat)
    requires Inv0(w) && s in w.spaces && v in w.spaces[s].pt
    ensures
      var sp := w.spaces[s];
      && Covered(sp.areas, v) && v < USER_VPNS && sp.pt[v].IsLeaf()
      && sp.pt[v].frame in w.pool.count && sp.pt[v].frame !in w.pool.free && sp.pt[v].frame !in sp.tables
  {
    hide Exact, Separate, Exclusive, ShmOk, Owners;
    var sp := w.spaces[s];
    var f := sp.pt[v].frame;
    MappedOk(w, s, v);
    SpaceAreas(w, s);
    assert Holds(sp.areas, Get(sp.areas, v * PAGE_SIZE).value, v * PAGE_SIZE);
    OwnsPte(w, s, v);
    OwnedInPool(w, ByPte(s, v), f);
    if f in w.pool.free {
      FreeUnowned(w, ByPte(s, v), f);
    }
    if f in sp.tables {
      assert Owns(w, ByTable(s), f);
      SeparateAt(w, ByPte(s, v), ByTable(s), f);
    }
  }

  /** The assertions in `page_fault`. */
  lemma FaultAsserts(w: World, s: nat, v: nat)
    requires Inv0(w) && s in w.spaces && Lookup(w.spaces[s].areas, v * PAGE_SIZE).Some?
    ensures
      var sp := w.spaces[s];
      var cell := Lookup(sp.areas, v * PAGE_SIZE).value;
      && (CowFault(sp, v, cell.perm) ==> sp.pt[v].flags.shared && !sp.pt[v].flags.w && cell.perm.write)
      && (v !in sp.pt ==> !cell.origin.ShmAt?)
  {
    hide Exact, Separate, Exclusive, ShmOk, Owners, Owns;
    if v in w.spaces[s].pt {
      MappedOk(w, s, v);
    } else {
      SpaceAreas(w, s);
      ShareSide(w.spaces[s].areas, v);
      if InShare(v) {
        SharePageMapped(w, s, v);
      }
    }
  }

  /** With three free frames, one for the page and two for tables, no fault panics. */
  lemma FaultNeverPanics(u: UserSpace, pm: PhysMem, w: World, s: nat, v: nat, acc: Access)
    requires u.Valid(pm) && v < USER_VPNS && |pm.free| >= 3
    requires Inv0(w) && s in w.spaces && w.spaces[s] == u.State(pm) && w.pool == pm.State()
    ensures u.FaultReady(pm, v, acc)
  {
    hide Inv0, WfTables, Flat, Lookup, Missing;
    MissingFew(pm.tab, u.table.root, u.table.shape, v);
    if Lookup(w.spaces[s].areas, v * PAGE_SIZE).Some? {
      FaultAsserts(w, s, v);
    }
  }
}
