/** The flat meaning of `copy_table_and_mark_self_cow` (pagetable.rs), page by page. */
module CowMarks {
  import opened Address
  import opened Pte
  import opened Frames

  /** What becomes of the entry of page `v`, in the old table and in the new one. */
  function CowMark(v: nat, e: Entry): Entry {
    if e.flags.u && !InShare(v) then e.ClearWritable().SetShared() else e
  }

  /** The pages before `bound` that hold a user reference to `f`. */
  ghost function UsersBelow(flat: map<nat, Entry>, bound: nat, f: Frame): set<nat> {
    set v | v in flat && v < bound && flat[v].flags.u && flat[v].frame == f
  }

  ghost function Users(flat: map<nat, Entry>, f: Frame): set<nat> {
    set v | v in flat && flat[v].flags.u && flat[v].frame == f
  }

  ghost function MarkedBelow(flat: map<nat, Entry>, bound: nat): map<nat, Entry> {
    map v | v in flat :: if v < bound then CowMark(v, flat[v]) else flat[v]
  }

  ghost function CopiedBelow(flat: map<nat, Entry>, bound: nat): map<nat, Entry> {
    map v | v in flat && v < bound :: CowMark(v, flat[v])
  }

  /** The pool once the pages before `bound` are shared and the frames `news` serve as tables. */
  ghost function SharedBelow(p: Pool, news: set<Frame>, flat: map<nat, Entry>, bound: nat): Pool {
    Pool(p.free - news,
         map f | f in p.count ::
           p.count[f] + (if f in news then 1 else 0) + |UsersBelow(flat, bound, f)|,
         p.mem)
  }

  ghost function Marked(flat: map<nat, Entry>): map<nat, Entry> {
    map v | v in flat :: CowMark(v, flat[v])
  }

  ghost function Shared(p: Pool, news: set<Frame>, flat: map<nat, Entry>): Pool {
    Pool(p.free - news,
         map f | f in p.count :: p.count[f] + (if f in news then 1 else 0) + |Users(flat, f)|,
         p.mem)
  }

  /** The copy has reached page `bound`. */
  ghost predicate Copying(flat: map<nat, Entry>, p0: Pool, news: set<Frame>, bound: nat,
                          parent: map<nat, Entry>, child: map<nat, Entry>, p: Pool) {
    && parent == MarkedBelow(flat, bound)
    && child == CopiedBelow(flat, bound)
    && p == SharedBelow(p0, news, flat, bound)
  }

  lemma CopyingStart(flat: map<nat, Entry>, p0: Pool, news: set<Frame>)
    ensures Copying(flat, p0, news, 0, flat, map[], AllocAll(p0, news))
  {
    assert forall f :: UsersBelow(flat, 0, f) == {};
  }

  /** One page: its entry is marked in both tables and its frame gains one reference. */
  lemma CopyingPage(flat: map<nat, Entry>, p0: Pool, news: set<Frame>, v: nat,
                    parent: map<nat, Entry>, child: map<nat, Entry>, p: Pool)
    requires Copying(flat, p0, news, v, parent, child, p) && v in flat && flat[v].frame in p0.count
    ensures v in parent && parent[v] == flat[v] && flat[v].frame in p.count
    ensures
      var e := CowMark(v, flat[v]);
      var f := flat[v].frame;
      Copying(flat, p0, news, v + 1, parent[v := e], child[v := e],
              if flat[v].flags.u then p.(count := p.count[f := p.count[f] + 1]) else p)
  {
    hide CowMark, MarkedBelow, CopiedBelow, SharedBelow;
    MarkPage(flat, v);
    SharedPage(flat, p0, news, v);
  }

  lemma MarkPage(flat: map<nat, Entry>, v: nat)
    requires v in flat
    ensures v in MarkedBelow(flat, v) && MarkedBelow(flat, v)[v] == flat[v]
    ensures MarkedBelow(flat, v)[v := CowMark(v, flat[v])] == MarkedBelow(flat, v + 1)
    ensures CopiedBelow(flat, v)[v := CowMark(v, flat[v])] == CopiedBelow(flat, v + 1)
  {
    hide CowMark;
  }

  lemma SharedPage(flat: map<nat, Entry>, p0: Pool, news: set<Frame>, v: nat)
    requires v in flat && flat[v].frame in p0.count
    ensures
      var p, f := SharedBelow(p0, news, flat, v), flat[v].frame;
      f in p.count && SharedBelow(p0, news, flat, v + 1) ==
        if flat[v].flags.u then p.(count := p.count[f := p.count[f] + 1]) else p
  {
    hide UsersBelow;
    var p, q, f := SharedBelow(p0, news, flat, v), SharedBelow(p0, news, flat, v + 1), flat[v].frame;
    forall g | g in p0.count
      ensures q.count[g] == if g == f && flat[v].flags.u then p.count[g] + 1 else p.count[g]
    {
      UsersPage(flat, v, g);
    }
  }

  lemma UsersPage(flat: map<nat, Entry>, v: nat, g: Frame)
    requires v in flat
    ensures |UsersBelow(flat, v + 1, g)| ==
            |UsersBelow(flat, v, g)| + if g == flat[v].frame && flat[v].flags.u then 1 else 0
  {
    var a, b := UsersBelow(flat, v, g), UsersBelow(flat, v + 1, g);
    if g == flat[v].frame && flat[v].flags.u {
      assert b == a + {v};
    } else {
      assert b == a;
    }
  }

  /** Pages that are not mapped need nothing. */
  lemma CopyingSkip(flat: map<nat, Entry>, p0: Pool, news: set<Frame>, lo: nat, hi: nat,
                    parent: map<nat, Entry>, child: map<nat, Entry>, p: Pool)
    requires Copying(flat, p0, news, lo, parent, child, p) && lo <= hi
    requires forall v :: v in flat ==> !(lo <= v < hi)
    ensures Copying(flat, p0, news, hi, parent, child, p)
  {
    assert forall g: Frame :: UsersBelow(flat, hi, g) == UsersBelow(flat, lo, g);
  }

  lemma CopyingAbsent(flat: map<nat, Entry>, p0: Pool, news: set<Frame>, v: nat,
                      parent: map<nat, Entry>, child: map<nat, Entry>, p: Pool)
    requires Copying(flat, p0, news, v, parent, child, p) && v !in parent
    ensures v !in flat && Copying(flat, p0, news, v + 1, parent, child, p)
  {
    CopyingSkip(flat, p0, news, v, v + 1, parent, child, p);
  }

  lemma CopyingPresent(flat: map<nat, Entry>, p0: Pool, news: set<Frame>, v: nat,
                       parent: map<nat, Entry>, child: map<nat, Entry>, p: Pool)
    requires Copying(flat, p0, news, v, parent, child, p)
    ensures parent.Keys == flat.Keys && (v in parent ==> parent[v] == flat[v])
    ensures p.count.Keys == p0.count.Keys
  {
  }

  lemma CopyingGrow(flat: map<nat, Entry>, p0: Pool, news: set<Frame>, more: set<Frame>, bound: nat,
                    parent: map<nat, Entry>, child: map<nat, Entry>, p: Pool)
    requires Copying(flat, p0, news, bound, parent, child, p) && news !! more
    ensures Copying(flat, p0, news + more, bound, parent, child, AllocAll(p, more))
  {
    assert AllocAll(p, more).free == SharedBelow(p0, news + more, flat, bound).free;
    assert AllocAll(p, more).count == SharedBelow(p0, news + more, flat, bound).count;
  }

  lemma CopyingDone(flat: map<nat, Entry>, p0: Pool, news: set<Frame>, bound: nat,
                    parent: map<nat, Entry>, child: map<nat, Entry>, p: Pool)
    requires Copying(flat, p0, news, bound, parent, child, p)
    requires forall v :: v in flat ==> v < bound
    ensures parent == Marked(flat) && child == Marked(flat) && p == Shared(p0, news, flat)
  {
    assert forall f: Frame :: UsersBelow(flat, bound, f) == Users(flat, f);
  }
}
