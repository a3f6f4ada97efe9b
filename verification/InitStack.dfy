/** The initial user stack (`init_stack` in src/process/user_space/mod.rs). Memory grows by address. */
module InitStacks {
  import opened Bytes

  type Mem = map<nat, Byte>

  const TWO64: nat := 0x1_0000_0000_0000_0000

  datatype AuxElement = AuxElement(auxType: nat, auxValue: nat)

  const AUX_NULL: AuxElement := AuxElement(0, 0)

  predicate FitsWord(v: nat) { v < TWO64 }

  // ---- Little-endian words ----

  function Le(v: nat, n: nat): (r: seq<Byte>)
    ensures |r| == n
    decreases n
  {
    if n == 0 then [] else [v % 256] + Le(v / 256, n - 1)
  }

  function FromLe(s: seq<Byte>): nat {
    if s == [] then 0 else s[0] + 256 * FromLe(s[1..])
  }

  function Pow256(n: nat): nat { if n == 0 then 1 else 256 * Pow256(n - 1) }

  lemma {:induction false} LeRound(v: nat, n: nat)
    requires v < Pow256(n)
    ensures FromLe(Le(v, n)) == v
  {
    if n == 0 {
    } else {
      LeRound(v / 256, n - 1);
    }
  }

  // ---- Reading memory ----

  predicate At(mem: Mem, a: nat, data: seq<Byte>) {
    forall b: nat :: a <= b < a + |data| ==> b in mem && mem[b] == data[b - a]
  }

  function Peek(mem: Mem, a: nat): Byte { if a in mem then mem[a] else 0 }

  /** The eight bytes at `a` as a number. */
  function Word(mem: Mem, a: nat): nat { FromLe(EightBytes(mem, a)) }

  function EightBytes(mem: Mem, a: nat): seq<Byte> {
    [Peek(mem, a), Peek(mem, a + 1), Peek(mem, a + 2), Peek(mem, a + 3),
     Peek(mem, a + 4), Peek(mem, a + 5), Peek(mem, a + 6), Peek(mem, a + 7)]
  }

  /** The byte at the lowest address counts least. */
  lemma WordBytes(mem: Mem, a: nat)
    ensures Word(mem, a) ==
            Peek(mem, a) + 0x100 * Peek(mem, a + 1) + 0x1_0000 * Peek(mem, a + 2) + 0x100_0000 * Peek(mem, a + 3)
            + 0x1_0000_0000 * Peek(mem, a + 4) + 0x100_0000_0000 * Peek(mem, a + 5)
            + 0x1_0000_0000_0000 * Peek(mem, a + 6) + 0x100_0000_0000_0000 * Peek(mem, a + 7)
  {
    var s := EightBytes(mem, a);
    FromLeSplit(s);
    FourBytes(s[..4]);
    FourBytes(s[4..]);
  }

  lemma FourBytes(s: seq<Byte>)
    requires |s| == 4
    ensures
      var b0: nat, b1: nat, b2: nat, b3: nat := s[0], s[1], s[2], s[3];
      FromLe(s) == b0 + 0x100 * b1 + 0x1_0000 * b2 + 0x100_0000 * b3
  {
    var b2: nat, b3: nat := s[2], s[3];
    assert FromLe(s[3..]) == b3 && FromLe(s[2..]) == b2 + 256 * b3;
    assert s[1..][1..] == s[2..] && s[2..][1..] == s[3..];
  }

  lemma FromLeSplit(s: seq<Byte>)
    requires |s| == 8
    ensures FromLe(s) == FromLe(s[..4]) + 0x1_0000_0000 * FromLe(s[4..])
  {
    FromLeMore(s[..4], s[4..]);
    assert s[..4] + s[4..] == s;
    assert Pow256(4) == 0x1_0000_0000;
  }

  lemma {:induction false} FromLeMore(s: seq<Byte>, t: seq<Byte>)
    ensures FromLe(s + t) == FromLe(s) + Pow256(|s|) * FromLe(t)
  {
    if s == [] {
      assert s + t == t;
    } else {
      FromLeMore(s[1..], t);
      assert (s + t)[1..] == s[1..] + t;
      TimesMore(Pow256(|s| - 1), FromLe(t));
    }
  }

  lemma TimesMore(p: nat, x: nat)
    ensures 256 * (p * x) == (256 * p) * x
  {
  }

  /** A copy of `s` and a NUL. */
  predicate StringAt(mem: Mem, a: nat, s: seq<Byte>) { At(mem, a, s + [0]) }

  lemma WordRead(mem: Mem, a: nat, v: nat)
    requires At(mem, a, Le(v, 8)) && FitsWord(v)
    ensures Word(mem, a) == v
  {
    hide Le, FromLe, Pow256;
    EightPowers();
    LeRound(v, 8);
    var x, y := EightBytes(mem, a), Le(v, 8);
    assert x[0] == y[0] && x[1] == y[1] && x[2] == y[2] && x[3] == y[3];
    assert x[4] == y[4] && x[5] == y[5] && x[6] == y[6] && x[7] == y[7];
    assert x == y;
  }

  lemma EightPowers()
    ensures Pow256(8) == TWO64
  {
    assert Pow256(4) == 0x1_0000_0000;
  }

  /** Nothing at or above `sp` has changed. */
  ghost predicate Above(mem: Mem, mem': Mem, sp: nat) {
    forall a :: sp <= a && a in mem ==> a in mem' && mem'[a] == mem[a]
  }

  lemma AboveTwice(a: Mem, b: Mem, c: Mem, hi: nat, lo: nat)
    requires Above(a, b, hi) && Above(b, c, lo) && lo <= hi
    ensures Above(a, c, hi)
  {
  }

  lemma AtAbove(mem: Mem, mem': Mem, sp: nat, a: nat, data: seq<Byte>)
    requires Above(mem, mem', sp) && sp <= a && At(mem, a, data)
    ensures At(mem', a, data)
  {
  }

  // ---- What the finished stack must contain ----

  /** A row of pointers at `a`, in order, to copies of the strings, ended by NULL. */
  ghost predicate PointersAt(mem: Mem, a: nat, strs: seq<seq<Byte>>) {
    && (forall i :: 0 <= i < |strs| ==> StringAt(mem, Word(mem, a + 8 * i), strs[i]))
    && Word(mem, a + 8 * |strs|) == 0
  }

  ghost predicate AuxAt(mem: Mem, a: nat, auxv: seq<AuxElement>) {
    && (forall i :: 0 <= i < |auxv| ==>
          Word(mem, a + 16 * i) == auxv[i].auxType && Word(mem, a + 16 * i + 8) == auxv[i].auxValue)
    && Word(mem, a + 16 * |auxv|) == 0 && Word(mem, a + 16 * |auxv| + 8) == 0
  }

  function Size(strs: seq<seq<Byte>>): nat {
    if strs == [] then 0 else Size(strs[1..]) + |strs[0]| + 1
  }

  /** Room for everything that is pushed, with 16 bytes for alignment. */
  function Needed(args: seq<seq<Byte>>, envp: seq<seq<Byte>>, auxv: seq<AuxElement>): nat {
    Size(envp) + Size(args) + 9 + 16 + 16 + 16 * (|auxv| + 1) + 8 * (|envp| + 1) + 8 * (|args| + 1) + 8
  }

  /** "RISC-V64" */
  function Platform(): seq<Byte> { [82, 73, 83, 67, 45, 86, 54, 52] }

  /** "Meow~ O4 here;D" */
  function RandBytes(): seq<Byte> { [77, 101, 111, 119, 126, 32, 79, 52, 32, 104, 101, 114, 101, 59, 68] }

  class Stack {
    var mem: Mem
    var sp: nat

    constructor (mem: Mem, sp: nat)
      ensures this.mem == mem && this.sp == sp
    {
      this.mem := mem;
      this.sp := sp;
    }

    /** `push_str`: the address of the copy. */
    method PushStr(s: seq<Byte>) returns (p: nat)
      requires |s| + 1 <= sp
      modifies this
      ensures sp == old(sp) - (|s| + 1) && p == sp
      ensures StringAt(mem, p, s) && Above(old(mem), mem, old(sp))
    {
      sp := sp - (|s| + 1);
      for i := 0 to |s|
        invariant sp == old(sp) - (|s| + 1) && At(mem, sp, s[..i]) && Above(old(mem), mem, old(sp))
      {
        mem := mem[sp + i := s[i]];
      }
      mem := mem[sp + |s| := 0];
      p := sp;
    }

    /** `iter().rev().map(push_str)`: the copies, the last string first. */
    method PushStrs(strs: seq<seq<Byte>>) returns (ptrs: seq<nat>)
      requires Size(strs) <= sp
      modifies this
      ensures sp == old(sp) - Size(strs) && Above(old(mem), mem, old(sp)) && |ptrs| == |strs|
      ensures Strings(mem, sp, old(sp), ptrs, strs)
    {
      ptrs := [];
      var n := |strs|;
      assert strs[n..] == [];
      while n > 0
        invariant 0 <= n <= |strs| && |ptrs| == |strs| - n && sp + Size(strs[n..]) == old(sp)
        invariant Above(old(mem), mem, old(sp))
        invariant forall i :: n <= i < |strs| ==> Pointed(mem, sp, old(sp), ptrs[|strs| - 1 - i], strs[i])
      {
        SizeRest(strs, n - 1);
        SizeTail(strs, n - 1);
        ghost var mem1, sp1 := mem, sp;
        var p := PushStr(strs[n - 1]);
        AboveTwice(old(mem), mem1, mem, old(sp), sp1);
        forall i | n <= i < |strs|
          ensures Pointed(mem, sp, old(sp), ptrs[|strs| - 1 - i], strs[i])
        {
          AtAbove(mem1, mem, sp1, ptrs[|strs| - 1 - i], strs[i] + [0]);
        }
        ptrs := ptrs + [p];
        n := n - 1;
      }
      assert strs[0..] == strs;
    }

    /** `align16` */
    method Align16()
      requires sp >= 16
      modifies this`sp
      ensures sp % 16 == 0 && old(sp) - 16 <= sp < old(sp)
    {
      sp := sp - 1 - (sp - 1) % 16;
    }

    /** `push_usize` */
    method PushWord(v: nat)
      requires 8 <= sp && FitsWord(v)
      modifies this
      ensures sp == old(sp) - 8 && Word(mem, sp) == v && At(mem, sp, Le(v, 8)) && Above(old(mem), mem, old(sp))
    {
      sp := sp - 8;
      mem := Stored(mem, sp, Le(v, 8));
      StoredAt(old(mem), sp, Le(v, 8));
      WordRead(mem, sp, v);
    }

    /** `push_aux_elm`; `ws` are the words pushed before. */
    method PushAux(e: AuxElement, ghost ws: seq<nat>)
      requires 16 <= sp && FitsWord(e.auxType) && FitsWord(e.auxValue) && Row(mem, sp, ws)
      modifies this
      ensures sp == old(sp) - 16 && Row(mem, sp, [e.auxType, e.auxValue] + ws) && Above(old(mem), mem, old(sp))
    {
      hide Row, Above, Word, Le, At;
      ghost var mem0, sp0 := mem, sp;
      PushWord(e.auxValue);
      RowMore(mem0, mem, sp, e.auxValue, ws);
      ghost var mem1, sp1 := mem, sp;
      PushWord(e.auxType);
      RowMore(mem1, mem, sp, e.auxType, [e.auxValue] + ws);
      AboveTwice(mem0, mem1, mem, sp0, sp1);
      assert [e.auxType] + ([e.auxValue] + ws) == [e.auxType, e.auxValue] + ws;
    }

    /** A NULL and then the pointers, so that the last one pushed comes first. */
    method PushPointers(ptrs: seq<nat>)
      requires 8 * (|ptrs| + 1) <= sp && AllFit(ptrs)
      modifies this
      ensures sp == old(sp) - 8 * (|ptrs| + 1) && Row(mem, sp, Backwards(ptrs)) && Above(old(mem), mem, old(sp))
    {
      hide Row, Above, Word, Le, At;
      PushWord(0);
      RowOne(mem, sp, 0);
      assert ptrs[..0] == [];
      for n := 0 to |ptrs|
        invariant sp == old(sp) - 8 * (n + 1) && Row(mem, sp, Backwards(ptrs[..n])) && Above(old(mem), mem, old(sp))
      {
        ghost var mem1, sp1 := mem, sp;
        PushWord(ptrs[n]);
        AboveTwice(old(mem), mem1, mem, old(sp), sp1);
        RowMore(mem1, mem, sp, ptrs[n], Backwards(ptrs[..n]));
        assert ptrs[..n + 1][..n] == ptrs[..n];
      }
      assert ptrs[..|ptrs|] == ptrs;
    }

    /** The terminator and then the elements from the last to the first. */
    method PushAuxv(auxv: seq<AuxElement>)
      requires 16 * (|auxv| + 1) <= sp && AllFit(AuxWords(auxv))
      modifies this
      ensures sp == old(sp) - 16 * (|auxv| + 1) && Row(mem, sp, AuxWords(auxv)) && Above(old(mem), mem, old(sp))
    {
      hide Row, Above, Word, Le, At;
      RowNone(mem, sp);
      PushAux(AUX_NULL, []);
      var n := |auxv|;
      assert auxv[n..] == [] && [0, 0] + [] == [0, 0];
      while n > 0
        invariant 0 <= n <= |auxv| && sp == old(sp) - 16 * (|auxv| - n + 1)
        invariant Row(mem, sp, AuxWords(auxv[n..])) && Above(old(mem), mem, old(sp))
      {
        n := n - 1;
        ghost var mem1, sp1 := mem, sp;
        AuxFit(auxv, n);
        PushAux(auxv[n], AuxWords(auxv[n + 1..]));
        AboveTwice(old(mem), mem1, mem, old(sp), sp1);
        assert auxv[n..][1..] == auxv[n + 1..];
      }
      assert auxv[0..] == auxv;
    }

    /** All strings, the platform name, the random bytes and the alignment. */
    method PushTexts(args: seq<seq<Byte>>, envp: seq<seq<Byte>>) returns (argPtrs: seq<nat>, envPtrs: seq<nat>)
      requires Size(envp) + Size(args) + 9 + 16 + 16 <= sp
      modifies this
      ensures old(sp) - (Size(envp) + Size(args) + 9 + 16 + 16) <= sp <= old(sp) && sp % 16 == 0
      ensures Strings(mem, sp, old(sp), argPtrs, args) && Strings(mem, sp, old(sp), envPtrs, envp)
      ensures Above(old(mem), mem, old(sp))
    {
      hide Strings, Above, StringAt;
      ghost var mem0, sp0 := mem, sp;
      envPtrs := PushStrs(envp);
      ghost var mem1, sp1 := mem, sp;
      argPtrs := PushStrs(args);
      ghost var mem2, sp2 := mem, sp;
      var _ := PushStr(Platform());
      ghost var mem3, sp3 := mem, sp;
      var _ := PushStr(RandBytes());
      AboveTwice(mem2, mem3, mem, sp2, sp3);
      Align16();
      AboveTwice(mem1, mem2, mem, sp1, sp2);
      AboveTwice(mem0, mem1, mem, sp0, sp1);
      StringsKept(mem1, mem, sp1, sp, sp0, sp0, envPtrs, envp);
      StringsKept(mem2, mem, sp2, sp, sp1, sp0, argPtrs, args);
    }

    /**
     `init_stack`. The returned stack pointer is always a multiple of 8; it is a multiple of 16, as
     the calling convention wants, if and only if the numbers of arguments and of environment
     strings add up to an odd number.
     */
    method InitStack(args: seq<seq<Byte>>, envp: seq<seq<Byte>>, auxv: seq<AuxElement>)
      returns (argc: nat, argv: nat, envv: nat)
      requires Needed(args, envp, auxv) <= sp < TWO64 && sp % 16 == 0 && AllFit(AuxWords(auxv))
      modifies this
      ensures old(sp) - Needed(args, envp, auxv) <= sp && Above(old(mem), mem, old(sp))
      ensures argc == |args| == Word(mem, sp) && argv == sp + 8 && PointersAt(mem, argv, args)
      ensures envv == argv + 8 * (|args| + 1) && PointersAt(mem, envv, envp)
      ensures AuxAt(mem, envv + 8 * (|envp| + 1), auxv)
      ensures sp % 8 == 0 && (sp % 16 == 0 <==> (|args| + |envp|) % 2 == 1)
    {
      hide Row, PointersAt, AuxAt, Strings, AllFit, Word, Above, At, Le, Backwards, AuxWords, Size;
      ghost var mem0, sp0 := mem, sp;
      var argPtrs, envPtrs := PushTexts(args, envp);
      ghost var mem1, sp1 := mem, sp;
      StringsFit(mem, sp, sp0, argPtrs, args);
      StringsFit(mem, sp, sp0, envPtrs, envp);
      PushAuxv(auxv);
      ghost var mem2, sp2 := mem, sp;
      PushPointers(envPtrs);
      envv := sp;
      ghost var mem3, sp3 := mem, sp;
      PushPointers(argPtrs);
      argv := sp;
      ghost var mem4, sp4 := mem, sp;
      argc := |args|;
      PushWord(argc);
      AboveTwice(mem3, mem4, mem, sp3, sp4);
      AboveTwice(mem2, mem3, mem, sp2, sp3);
      AboveTwice(mem1, mem2, mem, sp1, sp2);
      AboveTwice(mem0, mem1, mem, sp0, sp1);
      RowPointers(mem1, mem3, mem, sp1, sp3, envPtrs, envp, sp0);
      RowPointers(mem1, mem4, mem, sp1, sp4, argPtrs, args, sp0);
      AuxRead(mem2, mem, sp2, auxv);
      Parity(sp1, |args|, |envp|, |auxv|);
    }
  }

  /** Without arguments and environment the stack pointer is off by eight. */
  method NoArguments(top: nat) returns (sp: nat)
    requires Needed([], [], []) <= top < TWO64 && top % 16 == 0
    ensures sp % 16 == 8
  {
    hide Row, PointersAt, AuxAt, Above, Word, Le, At, Size;
    var stack := new Stack(map[], top);
    assert AuxWords([]) == [0, 0];
    var argc, argv, envv := stack.InitStack([], [], []);
    sp := stack.sp;
  }

  /** `ptrs`, read backwards, point to copies of the strings between `lo` and `top`. */
  ghost predicate Strings(mem: Mem, lo: nat, top: nat, ptrs: seq<nat>, strs: seq<seq<Byte>>) {
    && |ptrs| == |strs|
    && forall i :: 0 <= i < |strs| ==> Pointed(mem, lo, top, ptrs[|strs| - 1 - i], strs[i])
  }

  lemma StringsKept(mem: Mem, mem': Mem, lo: nat, lo': nat, top: nat, top': nat, ptrs: seq<nat>, strs: seq<seq<Byte>>)
    requires Strings(mem, lo, top, ptrs, strs) && Above(mem, mem', lo) && lo' <= lo && top <= top'
    ensures Strings(mem', lo', top', ptrs, strs)
  {
    hide Above, At;
    forall i | 0 <= i < |strs|
      ensures Pointed(mem', lo', top', ptrs[|strs| - 1 - i], strs[i])
    {
      AtAbove(mem, mem', lo, ptrs[|strs| - 1 - i], strs[i] + [0]);
    }
  }

  predicate AllFit(ws: seq<nat>) { forall i :: 0 <= i < |ws| ==> FitsWord(ws[i]) }

  predicate RowWord(mem: Mem, a: nat, ws: seq<nat>, i: nat)
    requires i < |ws|
  {
    At(mem, a + 8 * i, Le(ws[i], 8))
  }

  /** The words `ws` from `a` upwards. */
  predicate Row(mem: Mem, a: nat, ws: seq<nat>) {
    forall i: nat :: i < |ws| ==> RowWord(mem, a, ws, i)
  }

  lemma RowOne(mem: Mem, a: nat, v: nat)
    requires At(mem, a, Le(v, 8))
    ensures Row(mem, a, [v])
  {
    hide At, Le;
    assert RowWord(mem, a, [v], 0);
  }

  lemma RowNone(mem: Mem, a: nat)
    ensures Row(mem, a, [])
  {
  }

  lemma RowMore(mem: Mem, mem': Mem, a: nat, v: nat, ws: seq<nat>)
    requires Row(mem, a + 8, ws) && Above(mem, mem', a + 8) && At(mem', a, Le(v, 8))
    ensures Row(mem', a, [v] + ws)
  {
    hide At, Le, Above;
    var all := [v] + ws;
    forall i: nat | i < |all|
      ensures RowWord(mem', a, all, i)
    {
      if i > 0 {
        assert RowWord(mem, a + 8, ws, i - 1);
        AtAbove(mem, mem', a + 8, a + 8 * i, Le(ws[i - 1], 8));
      }
    }
  }

  /** Rows are not changed by what is pushed below them. */
  lemma RowReads(mem: Mem, mem': Mem, a: nat, ws: seq<nat>, i: nat)
    requires Row(mem, a, ws) && Above(mem, mem', a) && i < |ws| && FitsWord(ws[i])
    ensures Word(mem', a + 8 * i) == ws[i]
  {
    hide At, Le, Above, Word;
    assert RowWord(mem, a, ws, i);
    AtAbove(mem, mem', a, a + 8 * i, Le(ws[i], 8));
    WordRead(mem', a + 8 * i, ws[i]);
  }

  /** A row of pointers in memory order. */
  function Backwards(ptrs: seq<nat>): (r: seq<nat>)
    ensures |r| == |ptrs| + 1 && r[|ptrs|] == 0 && forall i :: 0 <= i < |ptrs| ==> r[i] == ptrs[|ptrs| - 1 - i]
  {
    if ptrs == [] then [0] else [ptrs[|ptrs| - 1]] + Backwards(ptrs[..|ptrs| - 1])
  }

  function AuxWords(auxv: seq<AuxElement>): (r: seq<nat>)
    ensures |r| == 2 * |auxv| + 2
  {
    if auxv == [] then [0, 0] else [auxv[0].auxType, auxv[0].auxValue] + AuxWords(auxv[1..])
  }

  predicate AuxAtIndex(r: seq<nat>, i: nat, e: AuxElement) {
    2 * i + 1 < |r| && r[2 * i] == e.auxType && r[2 * i + 1] == e.auxValue
  }

  lemma {:induction false} AuxIndex(auxv: seq<AuxElement>, i: nat)
    requires i <= |auxv|
    ensures AuxAtIndex(AuxWords(auxv), i, if i < |auxv| then auxv[i] else AUX_NULL)
  {
    if i == 0 {
    } else {
      AuxIndex(auxv[1..], i - 1);
    }
  }

  lemma AuxFit(auxv: seq<AuxElement>, n: nat)
    requires AllFit(AuxWords(auxv)) && n <= |auxv|
    ensures n < |auxv| ==> FitsWord(auxv[n].auxType) && FitsWord(auxv[n].auxValue)
  {
    hide AuxWords, FitsWord;
    AuxIndex(auxv, n);
  }

  lemma AuxRead(mem: Mem, mem': Mem, a: nat, auxv: seq<AuxElement>)
    requires Row(mem, a, AuxWords(auxv)) && Above(mem, mem', a) && AllFit(AuxWords(auxv))
    ensures AuxAt(mem', a, auxv)
  {
    hide Row, Above, Word, AuxWords, FitsWord;
    var ws := AuxWords(auxv);
    forall i | 0 <= i < |auxv|
      ensures Word(mem', a + 16 * i) == auxv[i].auxType && Word(mem', a + 16 * i + 8) == auxv[i].auxValue
    {
      AuxIndex(auxv, i);
      RowReads(mem, mem', a, ws, 2 * i);
      RowReads(mem, mem', a, ws, 2 * i + 1);
    }
    AuxIndex(auxv, |auxv|);
    RowReads(mem, mem', a, ws, 2 * |auxv|);
    RowReads(mem, mem', a, ws, 2 * |auxv| + 1);
  }

  /** The rows of pointers lead to the strings, and nothing pushed later has changed either. */
  lemma RowPointers(strMem: Mem, rowMem: Mem, mem: Mem, strSp: nat, rowSp: nat, ptrs: seq<nat>, strs: seq<seq<Byte>>,
                    top: nat)
    requires Strings(strMem, strSp, top, ptrs, strs) && AllFit(ptrs)
    requires Above(strMem, mem, strSp) && Row(rowMem, rowSp, Backwards(ptrs)) && Above(rowMem, mem, rowSp)
    ensures PointersAt(mem, rowSp, strs)
  {
    hide Row, Above, Word, At;
    var ws := Backwards(ptrs);
    forall i | 0 <= i < |strs|
      ensures StringAt(mem, Word(mem, rowSp + 8 * i), strs[i])
    {
      RowReads(rowMem, mem, rowSp, ws, i);
      AtAbove(strMem, mem, strSp, ptrs[|strs| - 1 - i], strs[i] + [0]);
    }
    RowReads(rowMem, mem, rowSp, ws, |strs|);
  }

  lemma StringsFit(mem: Mem, sp: nat, top: nat, ptrs: seq<nat>, strs: seq<seq<Byte>>)
    requires Strings(mem, sp, top, ptrs, strs) && top <= TWO64
    ensures AllFit(ptrs) && |ptrs| == |strs|
  {
    forall k | 0 <= k < |ptrs|
      ensures FitsWord(ptrs[k])
    {
      assert Pointed(mem, sp, top, ptrs[|strs| - 1 - (|strs| - 1 - k)], strs[|strs| - 1 - k]);
    }
  }

  lemma Parity(top: nat, a: nat, e: nat, x: nat)
    requires top % 16 == 0 && 16 * (x + 1) + 8 * (e + 1) + 8 * (a + 1) + 8 <= top
    ensures
      var sp := top - 16 * (x + 1) - 8 * (e + 1) - 8 * (a + 1) - 8;
      sp % 8 == 0 && (sp % 16 == 0 <==> (a + e) % 2 == 1)
  {
    var m := 2 * (top / 16) - 2 * (x + 1) - (a + e) - 3;
    assert top == 16 * (top / 16);
    assert top - 16 * (x + 1) - 8 * (e + 1) - 8 * (a + 1) - 8 == 8 * m;
    EightTimes(m);
  }

  lemma EightTimes(m: nat)
    ensures (8 * m) % 8 == 0 && ((8 * m) % 16 == 0 <==> m % 2 == 0)
  {
    var k, r := m / 2, m % 2;
    assert 8 * m == 16 * k + 8 * r;
  }

  predicate Pointed(mem: Mem, sp: nat, top: nat, p: nat, s: seq<Byte>) {
    sp <= p < top && StringAt(mem, p, s)
  }

  function Stored(mem: Mem, a: nat, data: seq<Byte>): Mem
    decreases |data|
  {
    if data == [] then mem else Stored(mem, a + 1, data[1..])[a := data[0]]
  }

  lemma {:induction false} StoredAt(mem: Mem, a: nat, data: seq<Byte>)
    ensures At(Stored(mem, a, data), a, data)
    ensures forall b :: b < a || a + |data| <= b ==>
              (b in Stored(mem, a, data) <==> b in mem) && (b in mem ==> Stored(mem, a, data)[b] == mem[b])
    decreases |data|
  {
    if data == [] {
    } else {
      StoredAt(mem, a + 1, data[1..]);
      var m := Stored(mem, a + 1, data[1..]);
      var m' := m[a := data[0]];
      forall b: nat | a <= b < a + |data|
        ensures b in m' && m'[b] == data[b - a]
      {
        if b > a {
          assert data[1..][b - (a + 1)] == data[b - a];
        }
      }
    }
  }

  lemma {:induction false} SizeTail(strs: seq<seq<Byte>>, i: nat)
    requires i <= |strs|
    ensures Size(strs[i..]) <= Size(strs)
  {
    if i == 0 {
      assert strs[0..] == strs;
    } else {
      SizeTail(strs[1..], i - 1);
      assert strs[1..][i - 1..] == strs[i..];
    }
  }

  lemma SizeRest(strs: seq<seq<Byte>>, i: nat)
    requires i < |strs|
    ensures Size(strs[i..]) == Size(strs[i + 1..]) + |strs[i]| + 1
  {
    assert strs[i..][1..] == strs[i + 1..];
  }
}
