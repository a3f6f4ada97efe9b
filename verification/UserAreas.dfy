/**
 User areas (src/process/user_space/user_area.rs) and the interval map that keeps them
 (src/process/user_space/range_map.rs), as values.
 */
module UserAreas {
  import opened Collections
  import opened Options
  import Pte

  datatype Perm = Perm(read: bool, write: bool, execute: bool)

  /** What backs the pages of an area. */
  datatype Kind = Anonymous | Private(file: nat, offset: nat) | Shm(id: nat)

  datatype Area = Area(kind: Kind, perm: Perm)

  datatype Node = Node(end: nat, area: Area)

  /** start -> node, as the source's `BTreeMap`. */
  type Areas = map<nat, Node>

  // ---- Permissions ----

  /** Flags of a freshly mapped page. */
  function FlagsFor(p: Perm): Pte.Flags {
    Pte.Flags(true, p.read, p.write, p.execute, true, false, p.read, p.write, false, false)
  }

  predicate MatchPerm(f: Pte.Flags, p: Perm) {
    (p.read ==> f.r) && (p.write ==> f.w) && (p.execute ==> f.x)
  }

  datatype Access = RO | RW | RX

  predicate CanAccess(t: Access, p: Perm) {
    (t.RW? ==> p.write) && (t.RX? ==> p.execute)
  }

  // ---- What one address of an area means ----

  datatype Origin = Zero | FileAt(file: nat, offset: nat) | ShmAt(id: nat, offset: nat)

  datatype Cell = Cell(perm: Perm, origin: Origin)

  /** The cell `delta` bytes after the start of an area. */
  function CellOf(a: Area, delta: nat): Cell {
    Cell(a.perm, match a.kind
                 case Anonymous => Zero
                 case Private(file, offset) => FileAt(file, offset + delta)
                 case Shm(id) => ShmAt(id, delta))
  }

  /** `split_and_make_left`: the left part, and what `self` (now the right part) becomes. */
  function SplitMakeLeft(self: Area, at: nat, start: nat): (r: (Area, Area))
    requires !self.kind.Shm? && start <= at
  {
    match self.kind
    case Private(file, offset) =>
      (Area(Private(file, offset), self.perm), Area(Private(file, offset + (at - start)), self.perm))
    case _ => (Area(Anonymous, self.perm), self)
  }

  /** `split_and_make_right`: the right part; `self` stays as the left part. */
  function SplitMakeRight(self: Area, at: nat, start: nat): (r: Area)
    requires !self.kind.Shm? && start <= at
    ensures !r.kind.Shm?
  {
    match self.kind
    case Private(file, offset) => Area(Private(file, offset + (at - start)), self.perm)
    case _ => Area(Anonymous, self.perm)
  }

  /** Splitting loses nothing: each part shows at `d` what the whole showed at the same address. */
  lemma SplitCells(self: Area, at: nat, start: nat, d: nat)
    requires !self.kind.Shm? && start <= at
    ensures CellOf(SplitMakeLeft(self, at, start).0, d) == CellOf(self, d)
    ensures CellOf(SplitMakeLeft(self, at, start).1, d) == CellOf(self, d + (at - start))
    ensures CellOf(SplitMakeRight(self, at, start), d) == CellOf(self, d + (at - start))
  {
  }

  // ---- Ordered-map queries ----

  /** `range(..p).next_back()` */
  function GreatestBelow(keys: set<nat>, p: nat): (r: Option<nat>)
    ensures r.Some? ==> r.value in keys && r.value < p && forall k :: k in keys && k < p ==> k <= r.value
    ensures r.None? ==> forall k :: k in keys ==> p <= k
  {
    var s := set k | k in keys && k < p;
    if s == {} then assert forall k :: k in keys && k < p ==> k in s; None
    else
      assert exists m :: m in s && forall k :: k in s ==> k <= m by { var m := MaxExists(s); }
      var m :| m in s && forall k :: k in s ==> k <= m;
      assert forall k :: k in keys && k < p ==> k in s;
      Some(m)
  }

  /** `range(lo..hi).next()` */
  function LeastIn(keys: set<nat>, lo: nat, hi: nat): (r: Option<nat>)
    ensures r.Some? ==> r.value in keys && lo <= r.value < hi && forall k :: k in keys && lo <= k < hi ==> r.value <= k
    ensures r.None? ==> forall k :: k in keys ==> !(lo <= k < hi)
  {
    var s := set k | k in keys && lo <= k < hi;
    if s == {} then assert forall k :: k in keys && lo <= k < hi ==> k in s; None
    else
      assert exists m :: m in s && forall k :: k in s ==> m <= k by { var m := MinExists(s); }
      var m :| m in s && forall k :: k in s ==> m <= k;
      assert forall k :: k in keys && lo <= k < hi ==> k in s;
      Some(m)
  }

  // ---- The interval map ----

  /** Ranges are non-empty and pairwise disjoint. */
  predicate Wf(m: Areas) {
    && (forall k :: k in m ==> k < m[k].end)
    && (forall j, k :: j in m && k in m && j < k ==> m[j].end <= k)
  }

  predicate Holds(m: Areas, k: nat, a: nat) {
    k in m && k <= a < m[k].end
  }

  /** The start of the range that holds `a`. */
  ghost function Get(m: Areas, a: nat): (r: Option<nat>)
    requires Wf(m)
    ensures r.Some? ==> Holds(m, r.value, a)
    ensures forall k: nat :: Holds(m, k, a) ==> r == Some(k)
  {
    if exists k: nat :: Holds(m, k, a) then
      var k: nat :| Holds(m, k, a);
      Some(k)
    else
      None
  }

  ghost function Lookup(m: Areas, a: nat): Option<Cell>
    requires Wf(m)
  {
    match Get(m, a)
    case None => None
    case Some(k) => Some(CellOf(m[k].area, a - k))
  }

  ghost predicate Overlaps(m: Areas, start: nat, end: nat) {
    exists k :: k in m && k < end && start < m[k].end
  }

  predicate Free(m: Areas, start: nat, end: nat) {
    forall k :: k in m ==> m[k].end <= start || end <= k
  }

  /** `try_insert`: None is the source's `Err`. */
  ghost function Inserted(m: Areas, start: nat, end: nat, area: Area): (r: Option<Areas>)
    requires Wf(m) && start < end
    ensures r.None? <==> Overlaps(m, start, end)
    ensures r.Some? ==> Wf(r.value) && start !in m
  {
    if Overlaps(m, start, end) then None else Some(m[start := Node(end, area)])
  }

  lemma InsertedLookup(m: Areas, start: nat, end: nat, area: Area, a: nat)
    requires Wf(m) && start < end && Inserted(m, start, end, area).Some?
    ensures Lookup(Inserted(m, start, end, area).value, a) ==
            if start <= a < end then Some(CellOf(area, a - start)) else Lookup(m, a)
  {
    var m' := Inserted(m, start, end, area).value;
    if start <= a < end {
      assert Holds(m', start, a);
    } else {
      assert forall k: nat :: Holds(m, k, a) <==> Holds(m', k, a);
    }
  }

  /** The source panics when it would split a shared-memory area. */
  predicate NoShmCut(m: Areas, start: nat, end: nat) {
    forall k :: k in m && m[k].area.kind.Shm? ==>
      !(k < start < m[k].end) && !(k < end < m[k].end)
  }

  /** What is left of node `k` on the left of `start`. */
  function LeftPart(m: Areas, k: nat, start: nat): Node
    requires k in m
  {
    Node(Min(m[k].end, start), m[k].area)
  }

  /** What is left of node `k` from `end` on. */
  function RightPart(m: Areas, k: nat, end: nat): Node
    requires k in m && (m[k].area.kind.Shm? ==> end <= k)
  {
    if end <= k then m[k] else Node(m[k].end, SplitMakeRight(m[k].area, end, k))
  }

  /** The nodes that begin outside the range, cut at `start`. */
  ghost function Outside(m: Areas, start: nat, end: nat): Areas {
    map k | k in m && (k < start || end <= k) :: if k < start then LeftPart(m, k, start) else m[k]
  }

  /** The map after `remove(start..end)`. */
  ghost function Removed(m: Areas, start: nat, end: nat): (r: Areas)
    requires Wf(m) && start < end && NoShmCut(m, start, end)
  {
    match Get(m, end)
    case Some(k) => Outside(m, start, end)[end := RightPart(m, k, end)]
    case None => Outside(m, start, end)
  }

  lemma RemovedWf(m: Areas, start: nat, end: nat)
    requires Wf(m) && start < end && NoShmCut(m, start, end)
    ensures Wf(Removed(m, start, end))
  {
    hide Removed;
    var r := Removed(m, start, end);
    forall k | k in r
      ensures k < r[k].end
    {
      RemovedKey(m, start, end, k);
    }
    forall j, k | j in r && k in r && j < k
      ensures r[j].end <= k
    {
      RemovedKey(m, start, end, j);
      RemovedKey(m, start, end, k);
      RemovedOrder(m, start, end, j, k);
    }
  }

  lemma RemovedOrder(m: Areas, start: nat, end: nat, j: nat, k: nat)
    requires Wf(m) && start < end && NoShmCut(m, start, end) && j < k
    requires
      var r := Removed(m, start, end);
      && j in r && k in r
      && RemovedAt(m, start, end, RightOf(m, start, end), r, j)
      && RemovedAt(m, start, end, RightOf(m, start, end), r, k)
    ensures Removed(m, start, end)[j].end <= k
  {
    hide Removed;
    if j == end {
      var g := Get(m, end).value;
      assert Holds(m, g, end);
    }
  }

  lemma RemovedInside(m: Areas, start: nat, end: nat, a: nat)
    requires Wf(m) && start < end && NoShmCut(m, start, end) && start <= a < end
    ensures Wf(Removed(m, start, end)) && Get(Removed(m, start, end), a) == None
  {
    RemovedWf(m, start, end);
  }

  lemma RemovedLeft(m: Areas, start: nat, end: nat, a: nat)
    requires Wf(m) && start < end && NoShmCut(m, start, end) && a < start
    ensures Wf(Removed(m, start, end)) && Get(Removed(m, start, end), a) == Get(m, a)
  {
    RemovedWf(m, start, end);
    var r := Removed(m, start, end);
    assert forall k: nat :: Holds(r, k, a) <==> Holds(m, k, a);
  }

  lemma RemovedRight(m: Areas, start: nat, end: nat, a: nat)
    requires Wf(m) && start < end && NoShmCut(m, start, end) && end <= a
    ensures Wf(Removed(m, start, end))
    ensures Get(m, a).None? ==> Get(Removed(m, start, end), a) == None
    ensures Get(m, a).Some? ==> Get(Removed(m, start, end), a) ==
                                Some(if Get(m, a).value < end then end else Get(m, a).value)
  {
    RemovedWf(m, start, end);
    var r := Removed(m, start, end);
    match Get(m, a) {
      case Some(k) =>
        if k < end {
          assert Holds(m, k, end);
          assert Holds(r, end, a);
        } else {
          assert Holds(r, k, a);
        }
      case None =>
        if Get(r, a).Some? {
          RemovedBack(m, start, end, a, Get(r, a).value);
        }
    }
  }

  lemma RemovedBack(m: Areas, start: nat, end: nat, a: nat, j: nat)
    requires Wf(m) && start < end && NoShmCut(m, start, end) && end <= a && Holds(Removed(m, start, end), j, a)
    ensures Get(m, a).Some?
  {
    hide Removed;
    RemovedKey(m, start, end, j);
    if j == end {
      assert Holds(m, Get(m, end).value, a);
    } else {
      assert Holds(m, j, a);
    }
  }

  lemma RemovedRightNode(m: Areas, start: nat, end: nat, a: nat)
    requires Wf(m) && start < end && NoShmCut(m, start, end) && end <= a && Get(m, a).Some?
    ensures
      var k := Get(m, a).value;
      var j := if k < end then end else k;
      var r := Removed(m, start, end);
      j in r && j <= a && CellOf(r[j].area, a - j) == CellOf(m[k].area, a - k)
  {
    var k := Get(m, a).value;
    if k < end {
      assert Get(m, end) == Some(k) by { assert Holds(m, k, end); }
      SplitCells(m[k].area, end, k, a - end);
    }
  }

  /**
   `remove` is pointwise deletion: inside the range nothing is mapped, outside it every address
   keeps its permission, its file and its translated file offset.
   */
  lemma RemovedLookup(m: Areas, start: nat, end: nat, a: nat)
    requires Wf(m) && start < end && NoShmCut(m, start, end)
    ensures Wf(Removed(m, start, end))
    ensures Lookup(Removed(m, start, end), a) == if start <= a < end then None else Lookup(m, a)
  {
    if a < start {
      RemovedLeft(m, start, end, a);
    } else if a < end {
      RemovedInside(m, start, end, a);
    } else {
      RemovedRight(m, start, end, a);
      if Get(m, a).Some? {
        RemovedRightNode(m, start, end, a);
      }
    }
  }

  /** Removing a part of the range first makes no difference. */
  lemma RemovedTwice(m: Areas, s: nat, e: nat, start: nat, end: nat)
    requires Wf(m) && start <= s < e <= end
    requires NoShmCut(m, s, e) && NoShmCut(m, start, end)
    ensures Wf(Removed(m, s, e)) && NoShmCut(Removed(m, s, e), start, end)
    ensures Removed(Removed(m, s, e), start, end) == Removed(m, start, end)
  {
    RemovedWf(m, s, e);
    var n := Removed(m, s, e);
    RemovedNoShmCut(m, s, e, start, end);
    RemovedTwiceEnd(m, s, e, start, end);
    var p, q := Removed(n, start, end), Removed(m, start, end);
    forall k: nat
      ensures k in p <==> k in q
      ensures k in p ==> p[k] == q[k]
    {
      RemovedTwiceKey(m, s, e, start, end, k);
    }
    assert p.Keys == q.Keys;
  }

  lemma RemovedNoShmCut(m: Areas, s: nat, e: nat, start: nat, end: nat)
    requires Wf(m) && start <= s < e <= end
    requires NoShmCut(m, s, e) && NoShmCut(m, start, end)
    ensures NoShmCut(Removed(m, s, e), start, end)
  {
    var n := Removed(m, s, e);
    forall k | k in n && n[k].area.kind.Shm?
      ensures !(k < start < n[k].end) && !(k < end < n[k].end)
    {
    }
  }

  /** Membership and value of one key after a removal; `right` is what goes on at `end`. */
  ghost predicate RemovedAt(m: Areas, start: nat, end: nat, right: Option<Node>, r: Areas, k: nat) {
    if k == end then
      (k in r <==> right.Some?) && (k in r ==> r[k] == right.value)
    else
      && (k in r <==> k in m && !(start <= k < end))
      && (k in r ==> r[k] == if k < start then LeftPart(m, k, start) else m[k])
  }

  ghost function RightOf(m: Areas, start: nat, end: nat): Option<Node>
    requires Wf(m) && start < end && NoShmCut(m, start, end)
  {
    match Get(m, end)
    case None => None
    case Some(k) => Some(RightPart(m, k, end))
  }

  lemma RemovedKey(m: Areas, start: nat, end: nat, k: nat)
    requires Wf(m) && start < end && NoShmCut(m, start, end)
    ensures RemovedAt(m, start, end, RightOf(m, start, end), Removed(m, start, end), k)
  {
    if k == end && k in m {
      assert Holds(m, k, k);
    }
  }

  lemma RemovedTwiceKey(m: Areas, s: nat, e: nat, start: nat, end: nat, k: nat)
    requires Wf(m) && start <= s < e <= end && NoShmCut(m, s, e) && NoShmCut(m, start, end)
    requires Wf(Removed(m, s, e)) && NoShmCut(Removed(m, s, e), start, end)
    ensures
      var p, q := Removed(Removed(m, s, e), start, end), Removed(m, start, end);
      && (k in p <==> k in q)
      && (k in p ==> p[k] == q[k])
  {
    var n := Removed(m, s, e);
    RemovedKey(m, s, e, k);
    RemovedKey(n, start, end, k);
    RemovedKey(m, start, end, k);
    RemovedTwiceEnd(m, s, e, start, end);
    SameKey(m, s, e, RightOf(m, s, e), n, start, end, RightOf(n, start, end),
            Removed(n, start, end), Removed(m, start, end), k);
  }

  lemma SameKey(m: Areas, s: nat, e: nat, mid: Option<Node>, n: Areas, start: nat, end: nat, right: Option<Node>,
                p: Areas, q: Areas, k: nat)
    requires start <= s < e <= end
    requires RemovedAt(m, s, e, mid, n, k) && RemovedAt(n, start, end, right, p, k)
    requires RemovedAt(m, start, end, right, q, k)
    ensures (k in p <==> k in q) && (k in p ==> p[k] == q[k])
  {
  }

  /** The node that goes on at `end` is the same, with the same cut, in both maps. */
  lemma RemovedTwiceEnd(m: Areas, s: nat, e: nat, start: nat, end: nat)
    requires Wf(m) && start <= s < e <= end && NoShmCut(m, s, e) && NoShmCut(m, start, end)
    requires Wf(Removed(m, s, e)) && NoShmCut(Removed(m, s, e), start, end)
    ensures var n := Removed(m, s, e);
            && (Get(n, end).None? <==> Get(m, end).None?)
            && (Get(n, end).Some? ==> RightPart(n, Get(n, end).value, end) == RightPart(m, Get(m, end).value, end))
  {
    RemovedRight(m, s, e, end);
    var n := Removed(m, s, e);
    match Get(m, end)
    case None =>
    case Some(k) =>
      if k < e {
        assert Get(m, e) == Some(k) by { assert Holds(m, k, e); }
      }
  }

  /** Nothing to remove, nothing changes. */
  lemma RemovedNothing(m: Areas, start: nat, end: nat)
    requires Wf(m) && start < end && Free(m, start, end)
    ensures NoShmCut(m, start, end) && Removed(m, start, end) == m
  {
    var r := Removed(m, start, end);
    assert Get(m, end).Some? ==> Get(m, end).value == end;
    assert r.Keys == m.Keys;
  }

  /** The removal of a range inside one node, spelled out. */
  lemma RemovedPart(m: Areas, k: nat, s: nat, e: nat)
    requires Wf(m) && k in m && k <= s < e <= m[k].end && NoShmCut(m, s, e)
    ensures
      var base := if s == k then m - {k} else m[k := Node(s, m[k].area)];
      Removed(m, s, e) == if e < m[k].end then base[e := Node(m[k].end, SplitMakeRight(m[k].area, e, k))] else base
  {
    hide Removed;
    var base := if s == k then m - {k} else m[k := Node(s, m[k].area)];
    var want := if e < m[k].end then base[e := Node(m[k].end, SplitMakeRight(m[k].area, e, k))] else base;
    var got := Removed(m, s, e);
    if e < m[k].end {
      assert Holds(m, k, e);
    } else {
      assert Get(m, e).Some? ==> Get(m, e).value == e;
      assert e in m ==> Holds(m, e, e);
    }
    forall j: nat
      ensures (j in got <==> j in want) && (j in got ==> got[j] == want[j])
    {
      RemovedKey(m, s, e, j);
    }
    assert got.Keys == want.Keys;
  }

  lemma RemovedWhole(m: Areas, k: nat)
    requires Wf(m) && k in m
    ensures NoShmCut(m, k, m[k].end) && Removed(m, k, m[k].end) == m - {k}
  {
    RemovedPart(m, k, k, m[k].end);
  }
}
