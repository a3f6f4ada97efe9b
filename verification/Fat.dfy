/** The FAT32 driver as the source runs it (src/fs/nfat32/fs.rs, tools.rs, file.rs). */
module FatCode {
  import opened Options
  import opened FatTables
  import opened FatSectors

  class FatTableManager {
    const fat: array<U32>

    constructor (fat: array<U32>)
      ensures this.fat == fat
    {
      this.fat := fat;
    }

    method FindFirstFree() returns (r: Option<nat>)
      ensures r == FirstFree(fat[..], 0)
    {
      for i := 0 to fat.Length
        invariant FirstFree(fat[..], 0) == FirstFree(fat[..], i)
      {
        if fat[i] == 0 {
          return Some(i);
        }
      }
      return None;
    }

    /** `None` is the source's panic "no free cluster". */
    method Alloc() returns (r: Option<nat>)
      modifies fat
      ensures r == FirstFree(old(fat[..]), 0)
      ensures fat[..] == if r.None? then old(fat[..]) else old(fat[..])[r.value := END_MARK]
    {
      r := FindFirstFree();
      if r.Some? {
        fat[r.value] := END_MARK;
      }
    }

    method Free(c: nat)
      requires c < fat.Length
      modifies fat
      ensures fat[..] == old(fat[..])[c := 0]
    {
      fat[c] := 0;
    }

    method AllocNext(c: nat) returns (r: Option<nat>)
      requires c < fat.Length <= END_MIN
      modifies fat
      ensures r == FirstFree(old(fat[..]), 0)
      ensures fat[..] == if r.None? then old(fat[..]) else old(fat[..])[r.value := END_MARK][c := r.value]
    {
      r := Alloc();
      if r.Some? {
        fat[c] := r.value;
      }
    }

    method GetNext(c: nat) returns (r: Option<nat>)
      requires c < fat.Length
      ensures r == NextCluster(fat[..], c)
    {
      r := if fat[c] >= END_MIN then None else Some(fat[c]);
    }

    /** `chain`: it ends, and gives the linked list, whenever the table has one that begins there. */
    method Chain(beg: nat, ghost cs: seq<nat>) returns (ret: seq<nat>)
      requires IsChain(fat[..], cs) && cs[0] == beg
      ensures ret == cs
    {
      var cur := beg;
      ret := [cur];
      assert |cs| > 1 ==> Linked(fat[..], cs[0], cs[1]);
      var next := GetNext(cur);
      while next.Some?
        invariant 0 < |ret| <= |cs| && ret == cs[..|ret|] && cur == ret[|ret| - 1]
        invariant next == NextCluster(fat[..], cur) && (next.Some? <==> |ret| < |cs|)
        invariant next.Some? ==> next.value == cs[|ret|]
        decreases |cs| - |ret|
      {
        cur := next.value;
        ret := ret + [cur];
        assert |ret| < |cs| ==> Linked(fat[..], cs[|ret| - 1], cs[|ret|]);
        next := GetNext(cur);
      }
    }
  }

  class ClusterChain {
    var clusters: seq<nat>

    /** `ClusterChain::new` */
    constructor (mgr: FatTableManager, begin: nat, ghost cs: seq<nat>)
      requires IsChain(mgr.fat[..], cs) && cs[0] == begin
      ensures clusters == cs
    {
      var chain := mgr.Chain(begin, cs);
      clusters := chain;
    }

    method Add(c: nat)
      modifies this
      ensures clusters == old(clusters) + [c]
    {
      clusters := clusters + [c];
    }

    method FreeAll(mgr: FatTableManager)
      requires forall i :: 0 <= i < |clusters| ==> clusters[i] < mgr.fat.Length
      modifies mgr.fat
      ensures mgr.fat[..] == Freed(old(mgr.fat[..]), clusters)
    {
      for i := 0 to |clusters|
        invariant mgr.fat[..] == Freed(old(mgr.fat[..]), clusters[..i])
      {
        mgr.Free(clusters[i]);
        assert clusters[..i + 1][..i] == clusters[..i];
      }
      assert clusters[..|clusters|] == clusters;
    }
  }

  /** The cached lists of all files, by the objects that hold them. */
  ghost function Cached(files: map<nat, ClusterChain>): Chains
    reads files.Values
  {
    map id | id in files :: files[id].clusters
  }

  ghost predicate Separate(files: map<nat, ClusterChain>) {
    forall id, jd :: id in files && jd in files && id != jd ==> files[id] != files[jd]
  }

  /** Creating a file: a cluster is allocated and its chain read back. */
  method CreateFile(mgr: FatTableManager, ghost files: map<nat, ClusterChain>,
                    ghost id: nat) returns (r: Option<ClusterChain>)
    requires FatOk(mgr.fat[..], Cached(files)) && id !in files && Separate(files)
    modifies mgr.fat
    ensures r.None? ==> Step(old(State(mgr.fat[..], Cached(files))), Create(id)) == None
    ensures r.Some? ==>
              && fresh(r.value) && Separate(files[id := r.value])
              && Step(old(State(mgr.fat[..], Cached(files))), Create(id)) ==
                 Some(State(mgr.fat[..], Cached(files[id := r.value])))
  {
    var c := mgr.Alloc();
    if c.None? {
      return None;
    }
    CreateOk(old(mgr.fat[..]), Cached(files), id, c.value);
    ghost var chains := Cached(files)[id := [c.value]];
    assert IsChain(mgr.fat[..], chains[id]);
    var chain := new ClusterChain(mgr, c.value, [c.value]);
    r := Some(chain);
    assert Cached(files[id := chain]) == chains;
  }

  /** A directory grows by one cluster. */
  method AppendCluster(mgr: FatTableManager, chain: ClusterChain, ghost files: map<nat, ClusterChain>,
                       ghost id: nat) returns (ok: bool)
    requires FatOk(mgr.fat[..], Cached(files)) && id in files && files[id] == chain && Separate(files)
    modifies mgr.fat, chain
    ensures
      var s := old(State(mgr.fat[..], Cached(files)));
      Step(s, Append(id)) == if ok then Some(State(mgr.fat[..], Cached(files))) else None
  {
    ghost var chains := Cached(files);
    assert IsChain(mgr.fat[..], chains[id]);
    var last := chain.clusters[|chain.clusters| - 1];
    var c := mgr.AllocNext(last);
    if c.None? {
      return false;
    }
    chain.Add(c.value);
    assert Cached(files) == chains[id := chains[id] + [c.value]];
    ok := true;
  }

  /** Deleting a file. */
  method DeleteFile(mgr: FatTableManager, chain: ClusterChain, ghost files: map<nat, ClusterChain>, ghost id: nat)
    requires FatOk(mgr.fat[..], Cached(files)) && id in files && files[id] == chain && Separate(files)
    modifies mgr.fat
    ensures Step(old(State(mgr.fat[..], Cached(files))), Delete(id)) == Some(State(mgr.fat[..], Cached(files - {id})))
  {
    ghost var chains := Cached(files);
    assert IsChain(mgr.fat[..], chains[id]);
    chain.FreeAll(mgr);
    assert Cached(files - {id}) == chains - {id};
  }
}
