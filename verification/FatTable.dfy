/**
 The file allocation table in memory and the cluster chains cached per file
 (src/fs/nfat32/fs.rs, tools.rs). An entry of the table is 0 for a free cluster, the number of the
 next cluster, or an end mark.
 */
module FatTables {
  import opened Collections
  import opened Options

  type U32 = x: nat | x < 0x1_0000_0000 witness 0

  const END_MIN: U32 := 0x0FFF_FFF8
  const END_MARK: U32 := 0x0FFF_FFFF

  type Fat = seq<U32>

  predicate Linked(fat: Fat, a: nat, b: nat) {
    a < |fat| && fat[a] == b && b < END_MIN
  }

  /** `cs` is the list of clusters that the table links, up to the end mark. */
  predicate IsChain(fat: Fat, cs: seq<nat>) {
    && cs != []
    && (forall i :: 0 <= i < |cs| ==> 2 <= cs[i] < |fat|)
    && (forall i :: 0 <= i < |cs| - 1 ==> Linked(fat, cs[i], cs[i + 1]))
    && fat[cs[|cs| - 1]] >= END_MIN
  }

  /** Equal clusters have equal rests. */
  lemma {:induction false} SameRest(fat: Fat, a: seq<nat>, b: seq<nat>)
    requires IsChain(fat, a) && IsChain(fat, b) && a[0] == b[0]
    ensures a == b
    decreases |a|
  {
    assert |a| > 1 ==> Linked(fat, a[0], a[1]);
    assert |b| > 1 ==> Linked(fat, b[0], b[1]);
    if |a| > 1 && |b| > 1 {
      RestIsChain(fat, a, 1);
      RestIsChain(fat, b, 1);
      SameRest(fat, a[1..], b[1..]);
      assert a == [a[0]] + a[1..] && b == [b[0]] + b[1..];
    }
  }

  lemma RestIsChain(fat: Fat, cs: seq<nat>, i: nat)
    requires IsChain(fat, cs) && i < |cs|
    ensures IsChain(fat, cs[i..])
  {
    var d := cs[i..];
    forall j | 0 <= j < |d| - 1
      ensures Linked(fat, d[j], d[j + 1])
    {
      assert Linked(fat, cs[i + j], cs[i + j + 1]);
    }
  }

  /** A chain that ends has no cycle. */
  lemma ChainDistinct(fat: Fat, cs: seq<nat>)
    requires IsChain(fat, cs)
    ensures Distinct(cs)
  {
    forall i, j | 0 <= i < j < |cs|
      ensures cs[i] != cs[j]
    {
      if cs[i] == cs[j] {
        RestIsChain(fat, cs, i);
        RestIsChain(fat, cs, j);
        SameRest(fat, cs[i..], cs[j..]);
      }
    }
  }

  // ---- All files ----

  type Chains = map<nat, seq<nat>>

  ghost predicate Apart(a: seq<nat>, b: seq<nat>) { forall c :: c in a ==> c !in b }

  /**
   What holds between operations. The first two entries are reserved and not free, and no cluster
   number is as large as an end mark.
   */
  ghost predicate FatOk(fat: Fat, chains: Chains) {
    && 2 <= |fat| <= END_MIN && fat[0] != 0 && fat[1] != 0
    && (forall id :: id in chains ==> IsChain(fat, chains[id]))
    && (forall id, jd :: id in chains && jd in chains && id != jd ==> Apart(chains[id], chains[jd]))
  }

  /** `find_first_free` */
  function FirstFree(fat: Fat, from: nat): (r: Option<nat>)
    ensures r.Some? ==> from <= r.value < |fat| && fat[r.value] == 0 && forall i :: from <= i < r.value ==> fat[i] != 0
    ensures r.None? ==> forall i :: from <= i < |fat| ==> fat[i] != 0
    decreases |fat| - from
  {
    if from >= |fat| then None else if fat[from] == 0 then Some(from) else FirstFree(fat, from + 1)
  }

  lemma ChainUnfree(fat: Fat, cs: seq<nat>, c: nat)
    requires IsChain(fat, cs) && c in cs
    ensures c < |fat| && fat[c] != 0
  {
    var i :| 0 <= i < |cs| && cs[i] == c;
    if i < |cs| - 1 {
      assert Linked(fat, cs[i], cs[i + 1]);
    }
  }

  /** A chain depends only on its own entries. */
  lemma ChainFrame(fat: Fat, fat': Fat, cs: seq<nat>)
    requires IsChain(fat, cs) && |fat'| == |fat| && forall c :: c in cs ==> fat'[c] == fat[c]
    ensures IsChain(fat', cs)
  {
    forall i | 0 <= i < |cs| - 1
      ensures Linked(fat', cs[i], cs[i + 1])
    {
      assert Linked(fat, cs[i], cs[i + 1]);
    }
  }

  /** A free cluster becomes a chain of its own. */
  lemma CreateOk(fat: Fat, chains: Chains, id: nat, c: nat)
    requires FatOk(fat, chains) && id !in chains && c < |fat| && fat[c] == 0
    ensures FatOk(fat[c := END_MARK], chains[id := [c]])
  {
    var fat', chains' := fat[c := END_MARK], chains[id := [c]];
    forall jd | jd in chains
      ensures IsChain(fat', chains[jd]) && c !in chains[jd]
    {
      if c in chains[jd] {
        ChainUnfree(fat, chains[jd], c);
      }
      ChainFrame(fat, fat', chains[jd]);
    }
    assert IsChain(fat', [c]);
  }

  /** `alloc_next` and `add`: the last cluster is linked to a new one. */
  lemma AppendOk(fat: Fat, chains: Chains, id: nat, c: nat)
    requires FatOk(fat, chains) && id in chains && c < |fat| && fat[c] == 0
    ensures
      var cs := chains[id];
      FatOk(fat[c := END_MARK][cs[|cs| - 1] := c], chains[id := cs + [c]])
  {
    var cs := chains[id];
    var last := cs[|cs| - 1];
    var fat' := fat[c := END_MARK][last := c];
    ChainDistinct(fat, cs);
    forall jd | jd in chains
      ensures c !in chains[jd]
    {
      if c in chains[jd] {
        ChainUnfree(fat, chains[jd], c);
      }
    }
    forall jd | jd in chains && jd != id
      ensures IsChain(fat', chains[jd])
    {
      assert last in cs && Apart(cs, chains[jd]);
      ChainFrame(fat, fat', chains[jd]);
    }
    AppendedChain(fat, cs, c);
  }

  lemma AppendedChain(fat: Fat, cs: seq<nat>, c: nat)
    requires IsChain(fat, cs) && Distinct(cs) && 2 <= c < |fat| <= END_MIN && c !in cs
    ensures IsChain(fat[c := END_MARK][cs[|cs| - 1] := c], cs + [c])
  {
    var fat', d := fat[c := END_MARK][cs[|cs| - 1] := c], cs + [c];
    forall i | 0 <= i < |d| - 1
      ensures Linked(fat', d[i], d[i + 1])
    {
      if i < |cs| - 1 {
        assert Linked(fat, cs[i], cs[i + 1]) && cs[i] in cs;
      }
    }
  }

  /** `free_all` */
  function Freed(fat: Fat, cs: seq<nat>): (r: Fat)
    requires forall i :: 0 <= i < |cs| ==> cs[i] < |fat|
    ensures |r| == |fat| && forall i :: 0 <= i < |fat| ==> r[i] == if i in cs then 0 else fat[i]
  {
    if cs == [] then fat else
    var rest := cs[..|cs| - 1];
    assert cs == rest + [cs[|cs| - 1]];
    Freed(fat, rest)[cs[|cs| - 1] := 0]
  }

  lemma DeleteOk(fat: Fat, chains: Chains, id: nat)
    requires FatOk(fat, chains) && id in chains
    ensures FatOk(Freed(fat, chains[id]), chains - {id})
  {
    var fat' := Freed(fat, chains[id]);
    forall jd | jd in chains && jd != id
      ensures IsChain(fat', chains[jd])
    {
      assert Apart(chains[jd], chains[id]);
      ChainFrame(fat, fat', chains[jd]);
    }
  }

  // ---- Conservation ----

  ghost predicate InSome(chains: Chains, c: nat) { exists id :: id in chains && c in chains[id] }

  /** Free clusters, clusters of files, and clusters that are marked used although no file has them. */
  ghost function FreeSet(fat: Fat): set<nat> { set i: nat | i < |fat| && fat[i] == 0 }
  ghost function UsedSet(fat: Fat, chains: Chains): set<nat> { set i: nat | i < |fat| && InSome(chains, i) }
  ghost function LostSet(fat: Fat,
                         chains: Chains): set<nat> { set i: nat | i < |fat| && fat[i] != 0 && !InSome(chains, i) }

  ghost function Sum(chains: Chains): nat
    decreases |chains|
  {
    if chains == map[] then 0 else
    var id :| id in chains;
    |chains[id]| + Sum(chains - {id})
  }

  lemma {:induction false} SumIsUsed(fat: Fat, chains: Chains)
    requires FatOk(fat, chains)
    ensures Sum(chains) == |UsedSet(fat, chains)|
    decreases |chains|
  {
    if chains == map[] {
      assert UsedSet(fat, chains) == {};
    } else {
      var id :| id in chains && Sum(chains) == |chains[id]| + Sum(chains - {id});
      SumIsUsed(fat, chains - {id});
      ChainDistinct(fat, chains[id]);
      ChainSetSize(chains[id]);
      UsedSplit(fat, chains, id);
    }
  }

  lemma UsedSplit(fat: Fat, chains: Chains, id: nat)
    requires FatOk(fat, chains) && id in chains
    ensures UsedSet(fat, chains) == ChainSet(chains[id]) + UsedSet(fat, chains - {id})
    ensures ChainSet(chains[id]) !! UsedSet(fat, chains - {id})
  {
    var rest := chains - {id};
    forall c: nat
      ensures InSome(chains, c) <==> c in chains[id] || InSome(rest, c)
      ensures c in chains[id] ==> c < |fat| && !InSome(rest, c)
    {
      if c in chains[id] {
        ChainUnfree(fat, chains[id], c);
        forall jd | jd in rest
          ensures c !in rest[jd]
        {
          assert Apart(chains[id], chains[jd]);
        }
      }
      if InSome(chains, c) && c !in chains[id] {
        var jd :| jd in chains && c in chains[jd];
        assert jd in rest && c in rest[jd];
      }
      if InSome(rest, c) {
        var jd :| jd in rest && c in rest[jd];
        assert jd in chains && c in chains[jd];
      }
    }
  }

  ghost function ChainSet(cs: seq<nat>): set<nat> { set c | c in cs }

  lemma {:induction false} ChainSetSize(cs: seq<nat>)
    requires Distinct(cs)
    ensures |ChainSet(cs)| == |cs|
  {
    if cs == [] {
    } else {
      var rest, x := cs[..|cs| - 1], cs[|cs| - 1];
      ChainSetSize(rest);
      assert cs == rest + [x];
      assert ChainSet(cs) == ChainSet(rest) + {x};
    }
  }

  predicate Index(i: nat, n: nat) { i < n }

  ghost function Below(n: nat): set<nat> { set i: nat | i < n && Index(i, n) }

  lemma {:induction false} BelowSize(n: nat)
    ensures |Below(n)| == n
  {
    if n == 0 {
    } else {
      BelowSize(n - 1);
      assert forall i: nat :: Index(i, n) <==> Index(i, n - 1) || i == n - 1;
      assert Below(n) == Below(n - 1) + {n - 1};
    }
  }

  /** Free clusters and the lengths of all chains add up to what is not lost. */
  lemma Conservation(fat: Fat, chains: Chains)
    requires FatOk(fat, chains)
    ensures |FreeSet(fat)| + Sum(chains) == |fat| - |LostSet(fat, chains)|
  {
    SumIsUsed(fat, chains);
    BelowSize(|fat|);
    Partition(fat, chains);
    var a, b, c := FreeSet(fat), UsedSet(fat, chains), LostSet(fat, chains);
    hide FreeSet, UsedSet, LostSet, Below, Sum;
    assert |a + b| == |a| + |b|;
    assert |a + b + c| == |a + b| + |c|;
  }

  lemma Partition(fat: Fat, chains: Chains)
    requires FatOk(fat, chains)
    ensures Below(|fat|) == FreeSet(fat) + UsedSet(fat, chains) + LostSet(fat, chains)
    ensures FreeSet(fat) !! UsedSet(fat, chains) !! LostSet(fat, chains)
  {
    forall i: nat | i < |fat| && InSome(chains, i)
      ensures fat[i] != 0
    {
      var id :| id in chains && i in chains[id];
      ChainUnfree(fat, chains[id], i);
    }
    hide InSome;
    forall i: nat
      ensures i in Below(|fat|) <==> i in FreeSet(fat) + UsedSet(fat, chains) + LostSet(fat, chains)
    {
      assert i < |fat| <==> Index(i, |fat|);
    }
  }

  // ---- Runs ----

  /** A file is created with one cluster, grows by one cluster, or is deleted. */
  datatype Op = Create(id: nat) | Append(id: nat) | Delete(id: nat)

  predicate Fits(chains: Chains, op: Op) {
    match op
    case Create(id) => id !in chains
    case Append(id) => id in chains
    case Delete(id) => id in chains
  }

  datatype State = State(fat: Fat, chains: Chains)

  /** `None` where the source panics for want of a free cluster. */
  ghost function Step(s: State, op: Op): Option<State>
    requires FatOk(s.fat, s.chains) && Fits(s.chains, op)
  {
    match op
    case Create(id) =>
      (match FirstFree(s.fat, 0)
       case None => None
       case Some(c) => Some(State(s.fat[c := END_MARK], s.chains[id := [c]])))
    case Append(id) =>
      (match FirstFree(s.fat, 0)
       case None => None
       case Some(c) =>
         var cs := s.chains[id];
         Some(State(s.fat[c := END_MARK][cs[|cs| - 1] := c], s.chains[id := cs + [c]])))
    case Delete(id) => Some(State(Freed(s.fat, s.chains[id]), s.chains - {id}))
  }

  /** The lowest free cluster. */
  ghost predicate Lowest(fat: Fat, c: nat) { c in FreeSet(fat) && forall i :: i in FreeSet(fat) ==> c <= i }

  /**
   What the operations are for: a new file has one cluster that was free, an appended one comes to the
   end of its file's list and to no other, and a deletion gives back exactly the clusters of the file.
   */
  lemma StepDoes(s: State, op: Op)
    requires FatOk(s.fat, s.chains) && Fits(s.chains, op)
    ensures Step(s, op).None? <==> !op.Delete? && FreeSet(s.fat) == {}
    ensures Step(s, op).Some? && !op.Delete? ==>
              var t := Step(s, op).value;
              exists c: nat ::
                && Lowest(s.fat, c) && FreeSet(t.fat) == FreeSet(s.fat) - {c}
                && t.chains == s.chains[op.id := (if op.Create? then [] else s.chains[op.id]) + [c]]
    ensures Step(s, op).Some? && op.Delete? ==>
              var t := Step(s, op).value;
              t.chains == s.chains - {op.id} && FreeSet(t.fat) == FreeSet(s.fat) + set c | c in s.chains[op.id]
  {
    match op {
      case Create(id) =>
        TakesLowest(s.fat, None);
        assert forall c: nat :: [] + [c] == [c];
      case Append(id) =>
        assert IsChain(s.fat, s.chains[id]);
        var cs := s.chains[id];
        ChainUnfree(s.fat, cs, cs[|cs| - 1]);
        TakesLowest(s.fat, Some(cs[|cs| - 1]));
      case Delete(id) =>
        assert IsChain(s.fat, s.chains[id]);
        forall c | c in s.chains[id]
          ensures c < |s.fat|
        {
          ChainUnfree(s.fat, s.chains[id], c);
        }
        assert FreeSet(Freed(s.fat, s.chains[id])) == FreeSet(s.fat) + set c | c in s.chains[id];
    }
  }

  /** Taking the first free cluster, and linking it behind a cluster in use. */
  lemma TakesLowest(fat: Fat, last: Option<nat>)
    requires |fat| <= END_MIN && (last.Some? ==> last.value < |fat| && fat[last.value] != 0)
    requires |fat| > 0 && fat[0] != 0
    ensures FirstFree(fat, 0).None? <==> FreeSet(fat) == {}
    ensures FirstFree(fat, 0).Some? ==>
              var c := FirstFree(fat, 0).value;
              && Lowest(fat, c) && FreeSet(fat[c := END_MARK]) == FreeSet(fat) - {c}
              && (last.Some? ==> FreeSet(fat[c := END_MARK][last.value := c]) == FreeSet(fat) - {c})
  {
    if FirstFree(fat, 0).Some? {
      var c := FirstFree(fat, 0).value;
      assert c in FreeSet(fat);
    }
  }

  lemma StepInv(s: State, op: Op)
    requires FatOk(s.fat, s.chains) && Fits(s.chains, op) && Step(s, op).Some?
    ensures
      var t := Step(s, op).value;
      FatOk(t.fat, t.chains) && |t.fat| == |s.fat|
  {
    match op {
      case Create(id) => CreateOk(s.fat, s.chains, id, FirstFree(s.fat, 0).value);
      case Append(id) => AppendOk(s.fat, s.chains, id, FirstFree(s.fat, 0).value);
      case Delete(id) => DeleteOk(s.fat, s.chains, id);
    }
  }

  lemma StepOk(s: State, op: Op)
    requires FatOk(s.fat, s.chains) && Fits(s.chains, op) && Step(s, op).Some?
    ensures
      var t := Step(s, op).value;
      && FatOk(t.fat, t.chains) && |t.fat| == |s.fat| && LostSet(t.fat, t.chains) == LostSet(s.fat, s.chains)
      && |FreeSet(t.fat)| + Sum(t.chains) == |FreeSet(s.fat)| + Sum(s.chains)
  {
    hide FatOk, Step, Sum, FreeSet;
    StepInv(s, op);
    var t := Step(s, op).value;
    forall i: nat
      ensures i in LostSet(t.fat, t.chains) <==> i in LostSet(s.fat, s.chains)
    {
      if i < |s.fat| {
        LostKept(s, op, i);
      }
    }
    assert LostSet(t.fat, t.chains) == LostSet(s.fat, s.chains);
    Conservation(s.fat, s.chains);
    Conservation(t.fat, t.chains);
  }

  lemma LostKept(s: State, op: Op, i: nat)
    requires FatOk(s.fat, s.chains) && Fits(s.chains, op) && Step(s, op).Some? && i < |s.fat|
    ensures
      var t := Step(s, op).value;
      i in LostSet(t.fat, t.chains) <==> i in LostSet(s.fat, s.chains)
  {
    var t := Step(s, op).value;
    if op.Delete? {
      DeletedOwner(s.fat, s.chains, op.id, i);
    } else {
      var c := FirstFree(s.fat, 0).value;
      var cs := if op.Create? then [] else s.chains[op.id];
      GrownOwner(s.fat, s.chains, op.id, cs, c, i);
      assert op.Create? ==> cs + [c] == [c];
      if op.Append? {
        assert cs[|cs| - 1] in cs;
        assert InSome(s.chains, cs[|cs| - 1]);
      }
    }
  }

  lemma GrownOwner(fat: Fat, chains: Chains, id: nat, cs: seq<nat>, c: nat, i: nat)
    requires if id in chains then cs == chains[id] else cs == []
    ensures InSome(chains[id := cs + [c]], i) <==> InSome(chains, i) || i == c
  {
    var next := chains[id := cs + [c]];
    if InSome(next, i) && i != c {
      var jd :| jd in next && i in next[jd];
      assert jd in chains && i in chains[jd];
    }
    if InSome(chains, i) {
      var jd :| jd in chains && i in chains[jd];
      assert jd in next && i in next[jd];
    }
    if i == c {
      assert id in next && i in next[id];
    }
  }

  lemma DeletedOwner(fat: Fat, chains: Chains, id: nat, i: nat)
    requires FatOk(fat, chains) && id in chains
    ensures InSome(chains - {id}, i) <==> InSome(chains, i) && i !in chains[id]
  {
    var next := chains - {id};
    if InSome(next, i) {
      var jd :| jd in next && i in next[jd];
      assert jd in chains && i in chains[jd] && Apart(chains[jd], chains[id]);
    }
    if InSome(chains, i) && i !in chains[id] {
      var jd :| jd in chains && i in chains[jd];
      assert jd in next && i in next[jd];
    }
  }

  /** `FatOk` is named only because `Step` is defined under it, and nothing is assumed of it. */
  ghost predicate Leads(s: State, op: Op, t: State) {
    FatOk(s.fat, s.chains) ==> Fits(s.chains, op) && Step(s, op) == Some(t)
  }

  ghost predicate Runs(states: seq<State>, ops: seq<Op>) {
    |states| == |ops| + 1 && forall i :: 0 <= i < |ops| ==> Leads(states[i], ops[i], states[i + 1])
  }

  /** In every run the cached lists stay equal to the linked chains, and no cluster is lost or made up. */
  lemma {:induction false} RunOk(states: seq<State>, ops: seq<Op>)
    requires Runs(states, ops) && FatOk(states[0].fat, states[0].chains)
    ensures
      var s, t := states[0], states[|ops|];
      && FatOk(t.fat, t.chains) && LostSet(t.fat, t.chains) == LostSet(s.fat, s.chains)
      && |FreeSet(t.fat)| + Sum(t.chains) == |FreeSet(s.fat)| + Sum(s.chains)
  {
    hide LostSet, FreeSet, Sum;
    if ops == [] {
    } else {
      var n := |ops| - 1;
      RunOk(states[..n + 1], ops[..n]);
      assert Leads(states[n], ops[n], states[n + 1]);
      StepOk(states[n], ops[n]);
    }
  }
}
