/** The interval map as the source runs it: an ordered map changed in place (range_map.rs). */
module RangeMaps {
  import opened Collections
  import opened Options
  import opened UserAreas

  /** One call of the `release` closure. */
  datatype Piece = Piece(start: nat, end: nat, area: Area)

  predicate InPiece(p: Piece, a: nat) { p.start <= a < p.end }

  /** Every piece shows, at each of its addresses, what the map `m` showed there. */
  ghost predicate PiecesOf(m: Areas, ps: seq<Piece>)
    requires Wf(m)
  {
    forall i, a: nat :: 0 <= i < |ps| && InPiece(ps[i], a) ==>
      Lookup(m, a) == Some(CellOf(ps[i].area, a - ps[i].start))
  }

  ghost predicate PiecesDisjoint(ps: seq<Piece>) {
    forall i, j, a: nat :: 0 <= i < j < |ps| && InPiece(ps[i], a) ==> !InPiece(ps[j], a)
  }

  ghost predicate InSome(ps: seq<Piece>, a: nat) {
    exists i :: 0 <= i < |ps| && InPiece(ps[i], a)
  }

  /** The pieces lie in the range and, together with what is still mapped there, make up the old map. */
  ghost predicate Conserved(was: Areas, now: Areas, ps: seq<Piece>, start: nat, end: nat)
    requires Wf(was) && Wf(now)
  {
    && (forall i :: 0 <= i < |ps| ==> start <= ps[i].start < ps[i].end <= end)
    && (forall a: nat | start <= a < end ::
          && (InSome(ps, a) ==> Lookup(now, a) == None)
          && (!InSome(ps, a) ==> Lookup(now, a) == Lookup(was, a)))
  }

  /** A node that meets the range lies inside it. */
  predicate Inside(m: Areas, start: nat, end: nat) {
    forall k :: k in m && k < end && start < m[k].end ==> start <= k && m[k].end <= end
  }

  lemma InsideUncut(m: Areas, start: nat, end: nat)
    requires Wf(m) && forall k :: k in m && k < start ==> m[k].end <= start
    requires
      var right := GreatestBelow(m.Keys, end);
      right.Some? ==> m[right.value].end <= end
    ensures Inside(m, start, end)
  {
    hide GreatestBelow;
  }

  /** Every piece begins at the cut or where a node began. */
  predicate BeginsRight(m: Areas, ps: seq<Piece>, start: nat) {
    forall i :: 0 <= i < |ps| ==> ps[i].start == start || ps[i].start in m
  }

  /** What holds between the calls of `release`: the pieces so far and the present map make up the old one. */
  ghost predicate Tracks(was: Areas, now: Areas, ps: seq<Piece>, start: nat, end: nat)
    requires Wf(was) && start < end && NoShmCut(was, start, end)
  {
    && Wf(now) && NoShmCut(now, start, end)
    && Removed(now, start, end) == Removed(was, start, end)
    && PiecesDisjoint(ps) && PiecesOf(was, ps) && Conserved(was, now, ps, start, end)
  }

  lemma ConservedStep(was: Areas, now: Areas, next: Areas, ps: seq<Piece>, p: Piece, start: nat, end: nat)
    requires Wf(was) && Wf(now) && Wf(next)
    requires PiecesDisjoint(ps) && PiecesOf(was, ps) && Conserved(was, now, ps, start, end)
    requires start <= p.start < p.end <= end
    requires forall a: nat :: InPiece(p, a) ==> Lookup(now, a) == Some(CellOf(p.area, a - p.start))
    requires forall a: nat :: Lookup(next, a) == if InPiece(p, a) then None else Lookup(now, a)
    ensures PiecesDisjoint(ps + [p]) && PiecesOf(was, ps + [p]) && Conserved(was, next, ps + [p], start, end)
  {
    var qs := ps + [p];
    forall a: nat
      ensures InSome(qs, a) <==> InSome(ps, a) || InPiece(p, a)
    {
      if InSome(ps, a) {
        var i :| 0 <= i < |ps| && InPiece(ps[i], a);
        assert InPiece(qs[i], a);
      }
      if InPiece(p, a) {
        assert InPiece(qs[|ps|], a);
      }
    }
    forall i, j, a: nat | 0 <= i < j < |qs| && InPiece(qs[i], a)
      ensures !InPiece(qs[j], a)
    {
      if j == |ps| {
        assert InSome(ps, a);
      }
    }
  }

  lemma TracksStart(m: Areas, start: nat, end: nat)
    requires Wf(m) && start < end && NoShmCut(m, start, end)
    ensures Tracks(m, m, [], start, end)
  {
  }

  /** Releasing a part of one node. */
  lemma ReleaseStep(was: Areas, now: Areas, ps: seq<Piece>, start: nat, end: nat, k: nat, s: nat, e: nat, area: Area)
    requires Wf(was) && start < end && NoShmCut(was, start, end) && Tracks(was, now, ps, start, end)
    requires k in now && k <= s < e <= now[k].end && start <= s && e <= end
    requires if s == k then area == now[k].area else !now[k].area.kind.Shm? && area == SplitMakeRight(now[k].area, s, k)
    requires now[k].area.kind.Shm? ==> s == k && e == now[k].end
    ensures NoShmCut(now, s, e) && Tracks(was, Removed(now, s, e), ps + [Piece(s, e, area)], start, end)
  {
    hide Removed;
    var p := Piece(s, e, area);
    assert NoShmCut(now, s, e);
    RemovedTwice(now, s, e, start, end);
    forall a: nat
      ensures Lookup(Removed(now, s, e), a) == if InPiece(p, a) then None else Lookup(now, a)
      ensures InPiece(p, a) ==> Lookup(now, a) == Some(CellOf(p.area, a - p.start))
    {
      RemovedLookup(now, s, e, a);
      if InPiece(p, a) {
        assert Holds(now, k, a);
        if s != k {
          SplitCells(now[k].area, s, k, a - s);
        }
      }
    }
    ConservedStep(was, now, Removed(now, s, e), ps, p, start, end);
  }

  /** Beyond the first node from `start` on. */
  lemma PastNode(m: Areas, start: nat, k: nat, end: nat)
    requires Wf(m) && LeastIn(m.Keys, start, end) == Some(k)
    requires forall j :: j in m && j < start ==> m[j].end <= start
    ensures start <= k < m[k].end && forall j :: j in m && j < m[k].end ==> m[j].end <= m[k].end
  {
    hide LeastIn;
    forall j | j in m && j < m[k].end
      ensures m[j].end <= m[k].end
    {
    }
  }

  /** The source's assertion in `find_free_range` about the area that precedes the window. */
  predicate PrecedingFits(m: Areas, winStart: nat, winEnd: nat, size: nat, offset: (nat, nat) -> nat) {
    forall k :: k in m && k < winStart && winStart < m[k].end ==> offset(m[k].end, size) <= winEnd
  }

  /** The first address of the window that lies behind every range which begins before the window ends. */
  ghost predicate IsBehind(m: Areas, winStart: nat, winEnd: nat, b: nat) {
    && winStart <= b && (forall k :: k in m && k < winEnd ==> m[k].end <= b)
    && (b == winStart || exists k :: k in m && k < winEnd && m[k].end == b)
  }

  ghost function Behind(m: Areas, winStart: nat, winEnd: nat): (b: nat)
    requires Wf(m)
    ensures IsBehind(m, winStart, winEnd, b)
  {
    match GreatestBelow(m.Keys, winEnd)
    case Some(k) => Max(winStart, m[k].end)
    case None => winStart
  }

  lemma BehindLimits(m: Areas, winStart: nat, winEnd: nat, b: nat)
    requires IsBehind(m, winStart, winEnd, b)
    ensures winStart <= b && forall k :: k in m && k < winEnd ==> m[k].end <= b
  {
  }

  lemma BehindReached(m: Areas, winStart: nat, winEnd: nat, start: nat, b: nat)
    requires IsBehind(m, winStart, winEnd, b) && winStart <= start <= b
    requires forall k :: k in m && k < winEnd ==> k < start
    requires forall k :: k in m && k < start ==> m[k].end <= start
    ensures start == b && forall end: nat :: end <= winEnd ==> Free(m, start, end)
  {
  }

  lemma StartOfSearch(m: Areas, winStart: nat, start: nat)
    requires Wf(m)
    requires
      var last := GreatestBelow(m.Keys, winStart);
      start == if last.Some? then Max(winStart, m[last.value].end) else winStart
    ensures forall k :: k in m && k < start ==> m[k].end <= start
  {
    hide GreatestBelow;
  }

  class RangeMap {
    var nodes: Areas

    constructor ()
      ensures nodes == map[]
    {
      nodes := map[];
    }

    method TryInsert(start: nat, end: nat, area: Area) returns (ok: bool)
      requires Wf(nodes) && start < end
      modifies this
      ensures Wf(nodes)
      ensures ok <==> !Overlaps(old(nodes), start, end)
      ensures nodes == if ok then old(nodes)[start := Node(end, area)] else old(nodes)
    {
      var last := GreatestBelow(nodes.Keys, end);
      if last.Some? && nodes[last.value].end > start {
        return false;
      }
      assert !Overlaps(nodes, start, end);
      assert Inserted(nodes, start, end, area).Some?;
      nodes := nodes[start := Node(end, area)];
      ok := true;
    }

    method Find(key: nat) returns (r: Option<nat>)
      requires Wf(nodes)
      ensures r == Get(nodes, key)
    {
      var last := GreatestBelow(nodes.Keys, key + 1);
      r := None;
      if last.Some? && nodes[last.value].end > key {
        r := last;
        assert Holds(nodes, last.value, key);
      }
    }

    method RangeIsFree(start: nat, end: nat) returns (ok: bool)
      requires Wf(nodes)
      ensures ok <==> start < end && Free(nodes, start, end)
    {
      if start >= end {
        return false;
      }
      var last := GreatestBelow(nodes.Keys, start);
      if last.Some? && nodes[last.value].end > start {
        return false;
      }
      var next := LeastIn(nodes.Keys, start, end);
      return next.None?;
    }

    method ForceRemoveOne(start: nat, end: nat) returns (area: Area)
      requires Wf(nodes) && start in nodes && nodes[start].end == end
      modifies this
      ensures Wf(nodes) && nodes == old(nodes) - {start} && area == old(nodes)[start].area
    {
      area := nodes[start].area;
      nodes := nodes - {start};
    }

    /** Heap growth: fails exactly when the extension is empty or hits another range. */
    method ExtendBack(start: nat, newEnd: nat) returns (ok: bool)
      requires Wf(nodes) && start in nodes
      modifies this
      ensures Wf(nodes)
      ensures ok <==> old(nodes)[start].end < newEnd && Free(old(nodes), old(nodes)[start].end, newEnd)
      ensures nodes == if ok then old(nodes)[start := old(nodes)[start].(end := newEnd)] else old(nodes)
    {
      ok := RangeIsFree(nodes[start].end, newEnd);
      if ok {
        nodes := nodes[start := nodes[start].(end := newEnd)];
      }
    }

    /** Heap shrinking: the removed range, or `None` when the new end is not inside. */
    method ReduceBack(start: nat, newEnd: nat) returns (r: Option<(nat, nat)>)
      requires Wf(nodes) && start in nodes
      modifies this
      ensures Wf(nodes)
      ensures r == if start <= newEnd < old(nodes)[start].end then Some((newEnd, old(nodes)[start].end)) else None
      ensures r.Some? && start == newEnd ==> nodes == old(nodes) - {start}
      ensures r.Some? && start < newEnd ==> nodes == old(nodes)[start := old(nodes)[start].(end := newEnd)]
      ensures r.None? ==> nodes == old(nodes)
    {
      r := None;
      var end := nodes[start].end;
      if start <= newEnd < end {
        if start == newEnd {
          nodes := nodes - {start};
        } else {
          nodes := nodes[start := nodes[start].(end := newEnd)];
        }
        r := Some((newEnd, end));
      }
    }

    /**
     A range of the given size in the window, always right behind everything that begins before the
     end of the window, and `None` if and only if there is no room there. The last precondition is the
     source's own debug assertion on the range that precedes the window.
     */
    method FindFreeRange(winStart: nat, winEnd: nat, size: nat, offset: (nat, nat) -> nat)
      returns (r: Option<(nat, nat)>, ghost behind: nat)
      requires Wf(nodes)
      requires forall a: nat, n: nat :: a <= offset(a, n)
      requires forall a: nat, b: nat, n: nat :: a <= b ==> offset(a, n) <= offset(b, n)
      requires PrecedingFits(nodes, winStart, winEnd, size, offset)
      ensures IsBehind(nodes, winStart, winEnd, behind)
      ensures r == if offset(behind, size) <= winEnd then Some((behind, offset(behind, size))) else None
      ensures r.Some? ==> Free(nodes, r.value.0, r.value.1)
    {
      hide LeastIn, GreatestBelow, Behind, IsBehind, Wf;
      behind := Behind(nodes, winStart, winEnd);
      BehindLimits(nodes, winStart, winEnd, behind);
      assert offset(winStart, size) <= offset(behind, size);
      if offset(winStart, size) > winEnd {
        return None, behind;
      }
      var start := winStart;
      var last := GreatestBelow(nodes.Keys, start);
      if last.Some? {
        start := if start < nodes[last.value].end then nodes[last.value].end else start;
      }
      StartOfSearch(nodes, winStart, start);
      assert winStart <= offset(winStart, size);
      var next := LeastIn(nodes.Keys, start, winEnd);
      while next.Some?
        invariant winStart <= start <= behind && offset(start, size) <= winEnd
        invariant forall k :: k in nodes && k < start ==> nodes[k].end <= start
        invariant next == LeastIn(nodes.Keys, start, winEnd)
        decreases winEnd - start
      {
        PastNode(nodes, start, next.value, winEnd);
        var xend := offset(nodes[next.value].end, size);
        assert nodes[next.value].end <= xend <= offset(behind, size);
        if xend > winEnd {
          return None, behind;
        }
        if xend <= next.value {
          break;
        }
        start := nodes[next.value].end;
        next := LeastIn(nodes.Keys, start, winEnd);
      }
      BehindReached(nodes, winStart, winEnd, start, behind);
      assert start <= offset(start, size);
      return Some((start, offset(start, size))), behind;
    }

    /** `remove`, with the calls of its `release` closure as the result. */
    method Remove(start: nat, end: nat) returns (released: seq<Piece>)
      requires Wf(nodes)
      requires start < end ==> NoShmCut(nodes, start, end)
      modifies this
      ensures Wf(nodes)
      ensures start >= end ==> nodes == old(nodes) && released == []
      ensures start < end ==> nodes == Removed(old(nodes), start, end)
      ensures PiecesDisjoint(released) && PiecesOf(old(nodes), released)
      ensures Conserved(old(nodes), nodes, released, start, end)
      ensures BeginsRight(old(nodes), released, start)
    {
      if start >= end {
        return [];
      }
      released := RemoveRange(start, end);
    }

    method RemoveRange(start: nat, end: nat) returns (released: seq<Piece>)
      requires Wf(nodes) && start < end && NoShmCut(nodes, start, end)
      modifies this
      ensures Tracks(old(nodes), nodes, released, start, end) && nodes == Removed(old(nodes), start, end)
      ensures BeginsRight(old(nodes), released, start)
    {
      hide Removed, PiecesDisjoint, PiecesOf, Conserved, NoShmCut, GreatestBelow, Inside;
      released := [];
      ghost var was := nodes;
      TracksStart(was, start, end);
      // a node that reaches into the range from the left: its left side stays
      var left := GreatestBelow(nodes.Keys, start);
      if left.Some? && start < nodes[left.value].end {
        released := CutLeft(left.value, start, end);
      }
      assert forall k :: k in nodes && k < start ==> nodes[k].end <= start;
      // a node that reaches beyond the range: its right side stays
      var right := GreatestBelow(nodes.Keys, end);
      if right.Some? && end < nodes[right.value].end {
        released := CutRight(right.value, start, end, released, was);
      } else {
        InsideUncut(nodes, start, end);
      }
      released := DropInside(start, end, released, was);
    }

    /** Every node still touching the range lies inside it: release them one by one. */
    method DropInside(start: nat, end: nat, before: seq<Piece>, ghost was: Areas) returns (released: seq<Piece>)
      requires Wf(was) && start < end && NoShmCut(was, start, end) && Tracks(was, nodes, before, start, end)
      requires Inside(nodes, start, end)
      requires BeginsRight(was, before, start) && forall k :: k in nodes && start <= k < end ==> k in was
      modifies this
      ensures Tracks(was, nodes, released, start, end) && nodes == Removed(was, start, end)
      ensures BeginsRight(was, released, start)
    {
      hide Removed, PiecesDisjoint, PiecesOf, Conserved, LeastIn, NoShmCut;
      released := before;
      var next := LeastIn(nodes.Keys, start, end);
      while next.Some?
        invariant Tracks(was, nodes, released, start, end)
        invariant next == LeastIn(nodes.Keys, start, end)
        invariant BeginsRight(was, released, start) && forall k :: k in nodes && start <= k < end ==> k in was
        invariant Inside(nodes, start, end)
        decreases |nodes|
      {
        var k := next.value;
        var node := nodes[k];
        ReleaseStep(was, nodes, released, start, end, k, k, node.end, node.area);
        released := released + [Piece(k, node.end, node.area)];
        RemovedWhole(nodes, k);
        nodes := nodes - {k};
        next := LeastIn(nodes.Keys, start, end);
      }
      RemovedNothing(nodes, start, end);
    }

    method CutLeft(k: nat, start: nat, end: nat) returns (released: seq<Piece>)
      requires Wf(nodes) && start < end && NoShmCut(nodes, start, end)
      requires k in nodes && k < start < nodes[k].end
      modifies this
      ensures Tracks(old(nodes), nodes, released, start, end) && BeginsRight(old(nodes), released, start)
      ensures forall j :: j in nodes && j < start ==> nodes[j].end <= start
      ensures forall j :: j in nodes && j < end ==> j in old(nodes)
    {
      hide Removed, PiecesDisjoint, PiecesOf, Conserved;
      ghost var was := nodes;
      var node := nodes[k];
      nodes := nodes[k := Node(start, node.area)];
      var middle := SplitMakeRight(node.area, start, k);
      if end < node.end {
        var rest := SplitMakeRight(middle, end, start);
        released := [Piece(start, end, middle)];
        nodes := nodes[end := Node(node.end, rest)];
      } else {
        released := [Piece(start, node.end, middle)];
      }
      TracksStart(was, start, end);
      ReleaseStep(was, was, [], start, end, k, start, Min(end, node.end), middle);
      RemovedPart(was, k, start, Min(end, node.end));
      assert nodes == Removed(was, start, Min(end, node.end));
      assert [] + released == released;
    }

    method CutRight(k: nat, start: nat, end: nat, before: seq<Piece>, ghost was: Areas) returns (released: seq<Piece>)
      requires Wf(was) && start < end && NoShmCut(was, start, end) && Tracks(was, nodes, before, start, end)
      requires k in nodes && start <= k < end < nodes[k].end && k in was && BeginsRight(was, before, start)
      requires forall j :: j in nodes && j < end ==> j <= k && (j < start ==> nodes[j].end <= start)
      modifies this
      ensures Tracks(was, nodes, released, start, end) && BeginsRight(was, released, start)
      ensures forall j :: j in nodes && j < end ==> j in old(nodes)
      ensures Inside(nodes, start, end)
    {
      var node := nodes[k];
      var (cut, rest) := SplitMakeLeft(node.area, end, k);
      released := before + [Piece(k, end, cut)];
      ReleaseStep(was, nodes, before, start, end, k, k, end, cut);
      RemovedPart(nodes, k, k, end);
      ghost var target := Removed(nodes, k, end);
      nodes := (nodes - {k})[end := Node(node.end, rest)];
      assert nodes == target;
    }
  }
}
