/**
 Sectors and clusters (src/fs/nfat32/fs.rs, tools.rs): following the table sector by sector agrees
 with the direct lookup in the cached chain.
 */
module FatSectors {
  import opened Collections
  import opened Options
  import opened Shifts
  import opened FatTables

  const BLOCK_SIZE: nat := 512
  const LOG2_BLOCK_SIZE: nat := 9

  /** `log` is `log_cls_size_sct`; the boot record gives 1, 2, 4 up to 128 sectors per cluster. */
  datatype Geometry = Geometry(dataBegin: nat, log: nat)

  /** `cluster_size_sct` */
  function PerCluster(g: Geometry): nat { Shl(1, g.log) }

  function FirstSector(g: Geometry, c: nat): nat
    requires c >= 2
  {
    g.dataBegin + (c - 2) * PerCluster(g)
  }

  function FindCluster(g: Geometry, sid: nat): nat
    requires g.dataBegin <= sid
  {
    Shr(sid - g.dataBegin, g.log) + 2
  }

  function NextCluster(fat: Fat, c: nat): Option<nat>
    requires c < |fat|
  {
    if fat[c] >= END_MIN then None else Some(fat[c])
  }

  /** The source computes a wrapped number when the table names cluster 0 or 1. */
  function NextSector(g: Geometry, fat: Fat, sid: nat): Option<nat>
    requires g.dataBegin <= sid && FindCluster(g, sid) < |fat|
  {
    if Low(sid - g.dataBegin, g.log) == Shl(1, g.log) - 1 then
      match NextCluster(fat, FindCluster(g, sid))
      case None => None
      case Some(c) => if c < 2 then None else Some(FirstSector(g, c))
    else Some(sid + 1)
  }

  predicate Clusters(cs: seq<nat>) { forall i :: 0 <= i < |cs| ==> cs[i] >= 2 }

  /** Sector number and offset in it of a byte of the file. */
  function OffsetSct(g: Geometry, cs: seq<nat>, off: nat): (nat, nat)
    requires Clusters(cs) && Shr(off, g.log + LOG2_BLOCK_SIZE) < |cs|
  {
    var c := cs[Shr(off, g.log + LOG2_BLOCK_SIZE)];
    var inCluster := Low(off, g.log + LOG2_BLOCK_SIZE);
    (FirstSector(g, c) + Shr(inCluster, LOG2_BLOCK_SIZE), Low(inCluster, LOG2_BLOCK_SIZE))
  }

  lemma Distribute(n: nat, k: nat)
    ensures (n + 1) * k == n * k + k
  {
  }

  /**
   The layout of the data area: cluster 2 is its first, clusters follow each other without gaps, and
   every sector of a cluster is found to lie in it.
   */
  lemma ClusterLayout(g: Geometry, c: nat, i: nat)
    requires c >= 2 && i < PerCluster(g)
    ensures FirstSector(g, 2) == g.dataBegin && FirstSector(g, c + 1) == FirstSector(g, c) + PerCluster(g)
    ensures FirstSector(g, c) + i >= g.dataBegin && FindCluster(g, FirstSector(g, c) + i) == c
  {
    ShlIsTimes(c - 2, g.log);
    Join(c - 2, i, g.log);
    Distribute(c - 2, PerCluster(g));
  }

  // ---- The sectors of a file ----

  function SectorCount(g: Geometry, cs: seq<nat>): nat { Shl(|cs|, g.log) }

  /** The `k`-th sector of a file. */
  function Sector(g: Geometry, cs: seq<nat>, k: nat): nat
    requires Clusters(cs) && k < SectorCount(g, cs)
  {
    ShrLess(k, |cs|, g.log);
    g.dataBegin + Shl(cs[Shr(k, g.log)] - 2, g.log) + Low(k, g.log)
  }

  lemma SectorPlace(g: Geometry, cs: seq<nat>, k: nat)
    requires Clusters(cs) && k < SectorCount(g, cs)
    ensures Shr(k, g.log) < |cs|
    ensures Sector(g, cs, k) == FirstSector(g, cs[Shr(k, g.log)]) + Low(k, g.log)
    ensures g.dataBegin <= Sector(g, cs, k) && FindCluster(g, Sector(g, cs, k)) == cs[Shr(k, g.log)]
    ensures Low(Sector(g, cs, k) - g.dataBegin, g.log) == Low(k, g.log)
  {
    ShrLess(k, |cs|, g.log);
    Split(k, g.log);
    var c := cs[Shr(k, g.log)];
    ShlIsTimes(c - 2, g.log);
    Join(c - 2, Low(k, g.log), g.log);
  }

  /** Different places in one chain, or places in different chains, are different sectors. */
  lemma SectorsDiffer(g: Geometry, a: seq<nat>, j: nat, b: seq<nat>, k: nat)
    requires Clusters(a) && Clusters(b) && j < SectorCount(g, a) && k < SectorCount(g, b)
    requires (a == b && Distinct(a) && j != k) || Apart(a, b)
    ensures Sector(g, a, j) != Sector(g, b, k)
  {
    hide Shr, Low, Shl, Sector, FirstSector, FindCluster;
    SectorPlace(g, a, j);
    SectorPlace(g, b, k);
    Split(j, g.log);
    Split(k, g.log);
    assert a[Shr(j, g.log)] in a && b[Shr(k, g.log)] in b;
  }

  /** `next_sector` goes to the next sector of the file and stops exactly after the last one. */
  lemma NextIsNext(g: Geometry, fat: Fat, cs: seq<nat>, k: nat)
    requires IsChain(fat, cs) && k < SectorCount(g, cs)
    ensures Clusters(cs) && g.dataBegin <= Sector(g, cs, k) && FindCluster(g, Sector(g, cs, k)) < |fat|
    ensures NextSector(g, fat, Sector(g, cs, k)) ==
            if k + 1 < SectorCount(g, cs) then Some(Sector(g, cs, k + 1)) else None
  {
    hide Shr, Low, Shl, Sector, FirstSector, FindCluster;
    var n := g.log;
    var q, r := Shr(k, n), Low(k, n);
    SectorPlace(g, cs, k);
    Split(k, n);
    if r == Shl(1, n) - 1 {
      ShlAdd(q, 1, n);
      ShlPositive(n);
      Join(q + 1, 0, n);
      if q + 1 < |cs| {
        assert Linked(fat, cs[q], cs[q + 1]);
        ShlMore(q + 1, |cs|, n);
        SectorPlace(g, cs, k + 1);
      }
    } else {
      Join(q, r + 1, n);
      ShlMore(q, |cs|, n);
      SectorPlace(g, cs, k + 1);
    }
  }

  /** Following `next_sector` `k` times. */
  function Walk(g: Geometry, fat: Fat, sid: nat, k: nat): Option<nat> {
    if k == 0 then Some(sid) else
    match Walk(g, fat, sid, k - 1)
    case None => None
    case Some(s) => if g.dataBegin <= s && FindCluster(g, s) < |fat| then NextSector(g, fat, s) else None
  }

  lemma {:induction false} WalkIsSector(g: Geometry, fat: Fat, cs: seq<nat>, k: nat)
    requires IsChain(fat, cs)
    ensures Clusters(cs) && 0 < SectorCount(g, cs)
    ensures Walk(g, fat, Sector(g, cs, 0), k) == if k < SectorCount(g, cs) then Some(Sector(g, cs, k)) else None
  {
    hide Shr, Low, Shl, Sector, NextSector;
    ShlPositive(g.log);
    ShlMore(0, |cs|, g.log);
    if k == 0 {
    } else {
      WalkIsSector(g, fat, cs, k - 1);
      if k - 1 < SectorCount(g, cs) {
        NextIsNext(g, fat, cs, k - 1);
      }
    }
  }

  /** The direct lookup finds the same sector, and the offset in it. */
  lemma OffsetIsSector(g: Geometry, cs: seq<nat>, off: nat)
    requires Clusters(cs) && off / BLOCK_SIZE < SectorCount(g, cs)
    ensures Shr(off, g.log + LOG2_BLOCK_SIZE) < |cs|
    ensures OffsetSct(g, cs, off) == (Sector(g, cs, off / BLOCK_SIZE), off % BLOCK_SIZE)
  {
    hide Shr, Low, Shl, Sector, FirstSector;
    var k := off / BLOCK_SIZE;
    NineBits(off);
    ShiftTwice(off, g.log, LOG2_BLOCK_SIZE);
    SectorPlace(g, cs, k);
    Split(off, LOG2_BLOCK_SIZE);
    Join(Low(k, g.log), Low(off, LOG2_BLOCK_SIZE), LOG2_BLOCK_SIZE);
  }

  /** For a sector-aligned offset, walking and direct lookup agree. */
  lemma WalkIsOffset(g: Geometry, fat: Fat, cs: seq<nat>, k: nat)
    requires IsChain(fat, cs) && k < SectorCount(g, cs)
    ensures Clusters(cs) && 0 < SectorCount(g, cs) && Shr(BLOCK_SIZE * k, g.log + LOG2_BLOCK_SIZE) < |cs|
    ensures Walk(g, fat, Sector(g, cs, 0), k) == Some(OffsetSct(g, cs, BLOCK_SIZE * k).0)
    ensures OffsetSct(g, cs, BLOCK_SIZE * k).1 == 0
  {
    hide Shr, Low, Shl, Sector;
    WalkIsSector(g, fat, cs, k);
    assert (BLOCK_SIZE * k) / BLOCK_SIZE == k;
    OffsetIsSector(g, cs, BLOCK_SIZE * k);
  }
}
