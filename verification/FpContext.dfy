/**
 Lazy switching of floating-point registers on one hart (src/trap/fp_ctx.rs). The FS field of
 `sstatus` is set to Dirty by the hardware when user code changes a floating-point register
 (section 3.1.6.6 of the RISC-V Privileged Architecture).
 */
module FpContexts {
  import opened Options

  type Process = nat

  /** The 32 registers and `fcsr`. */
  type Regs = seq<nat>

  datatype FS = Off | Initial | Clean | Dirty

  datatype FloatContext = FloatContext(fx: Regs, needLoad: bool)

  datatype Hart = Hart(regs: Regs, fs: FS, belongTo: Option<Process>, ctx: map<Process, FloatContext>)

  function UserToKernel(h: Hart, curr: Process): Hart
    requires curr in h.ctx
  {
    if h.fs != Clean then h.(ctx := h.ctx[curr := h.ctx[curr].(needLoad := true)]) else h
  }

  /** The owner of the registers gets them back if they may differ from its context. */
  function Spilled(h: Hart): Hart {
    match h.belongTo
    case Some(p) => if p in h.ctx && h.ctx[p].needLoad then h.(ctx := h.ctx[p := FloatContext(h.regs, false)]) else h
    case None => h
  }

  function KernelToUser(h: Hart, curr: Process): Hart
    requires curr in h.ctx
  {
    if h.belongTo == Some(curr) then h
    else
      var s := Spilled(h);
      Hart(s.ctx[curr].fx, Clean, Some(curr), s.ctx)
  }

  class HartLocal {
    var regs: Regs
    var fs: FS
    var belongTo: Option<Process>
    var ctx: map<Process, FloatContext>

    ghost function State(): Hart
      reads this
    {
      Hart(regs, fs, belongTo, ctx)
    }

    method FpUserToKernel(curr: Process)
      requires curr in ctx
      modifies this
      ensures regs == old(regs) && fs == old(fs) && belongTo == old(belongTo)
      ensures ctx == if old(fs) == Clean then old(ctx) else old(ctx)[curr := FloatContext(old(ctx)[curr].fx, true)]
      ensures State() == UserToKernel(old(State()), curr)
    {
      if fs != Clean {
        ctx := ctx[curr := ctx[curr].(needLoad := true)];
      }
    }

    method FpKernelToUser(curr: Process)
      requires curr in ctx && (belongTo.Some? ==> belongTo.value in ctx)
      modifies this
      ensures belongTo == Some(curr) && ctx.Keys == old(ctx).Keys
      ensures old(belongTo) == Some(curr) ==> regs == old(regs) && fs == old(fs) && ctx == old(ctx)
      ensures old(belongTo) != Some(curr) ==> regs == ctx[curr].fx && fs == Clean
      ensures forall p :: p in ctx && (p == curr || Some(p) != old(belongTo) || !old(ctx)[p].needLoad) ==>
                ctx[p] == old(ctx)[p]
      ensures forall p :: p in ctx && p != curr && Some(p) == old(belongTo) && old(ctx)[p].needLoad ==>
                ctx[p] == FloatContext(old(regs), false)
      ensures State() == KernelToUser(old(State()), curr)
    {
      var notSame := match belongTo
        case Some(p) => p != curr
        case None => true;
      if notSame {
        if belongTo.Some? {
          var p := belongTo.value;
          if ctx[p].needLoad {
            ctx := ctx[p := FloatContext(regs, true)];
            ctx := ctx[p := ctx[p].(needLoad := false)];
          }
        }
        regs := ctx[curr].fx;
        fs := Dirty;  // by the loads
        belongTo := Some(curr);
        fs := Clean;
      }
    }
  }

  // ---- Runs ----

  datatype Mode = Kernel | User(p: Process)

  datatype Lazy = Lazy(mode: Mode, hart: Hart)

  /** The simple system: all registers are saved at every trap and loaded at every entry. */
  datatype Eager = Eager(mode: Mode, regs: Regs, saved: map<Process, Regs>)

  datatype Label =
    | Spawn(p: Process, fx: Regs)  // `init_user`
    | Enter(p: Process)
    | Compute(regs: Regs)  // user code that writes registers
    | Trap

  predicate Enabled(s: Lazy, l: Label) {
    match l
    case Spawn(p, _) => s.mode.Kernel? && p !in s.hart.ctx
    case Enter(p) => s.mode.Kernel? && p in s.hart.ctx
    case Compute(_) => s.mode.User?
    case Trap => s.mode.User? && s.mode.p in s.hart.ctx
  }

  function Step(s: Lazy, l: Label): Lazy
    requires Enabled(s, l)
  {
    match l
    case Spawn(p, fx) => s.(hart := s.hart.(ctx := s.hart.ctx[p := FloatContext(fx, true)]))
    case Enter(p) => Lazy(User(p), KernelToUser(s.hart, p))
    case Compute(regs) => s.(hart := s.hart.(regs := regs, fs := Dirty))
    case Trap => Lazy(Kernel, UserToKernel(s.hart, s.mode.p))
  }

  function EagerStep(e: Eager, l: Label): Eager {
    match l
    case Spawn(p, fx) => e.(saved := e.saved[p := fx])
    case Enter(p) => e.(mode := User(p), regs := if p in e.saved then e.saved[p] else e.regs)
    case Compute(regs) => e.(regs := regs)
    case Trap => if e.mode.User? then e.(mode := Kernel, saved := e.saved[e.mode.p := e.regs]) else e
  }

  /** What process `p` would see if it ran now. */
  predicate Same(s: Lazy, e: Eager, p: Process)
    requires p in s.hart.ctx && p in e.saved
  {
    if s.hart.belongTo == Some(p) then
      && (s.mode.Kernel? ==> s.hart.regs == e.saved[p])
      && (!s.hart.ctx[p].needLoad && (s.mode.Kernel? || s.hart.fs == Clean) ==> s.hart.ctx[p].fx == s.hart.regs)
    else
      s.hart.ctx[p].fx == e.saved[p]
  }

  ghost predicate Sim(s: Lazy, e: Eager) {
    && s.mode == e.mode && s.hart.ctx.Keys == e.saved.Keys
    && (s.mode.User? ==> s.hart.belongTo == Some(s.mode.p) && s.hart.regs == e.regs)
    && (s.hart.belongTo.Some? ==> s.hart.belongTo.value in s.hart.ctx)
    && forall p :: p in s.hart.ctx ==> Same(s, e, p)
  }

  lemma StepSim(s: Lazy, e: Eager, l: Label)
    requires Sim(s, e) && Enabled(s, l)
    ensures Sim(Step(s, l), EagerStep(e, l))
  {
    var s', e' := Step(s, l), EagerStep(e, l);
    forall p | p in s'.hart.ctx
      ensures p in e'.saved && Same(s', e', p)
    {
      if p in s.hart.ctx {
        assert Same(s, e, p);
      }
      if l.Enter? {
        assert Same(s, e, l.p);
      }
    }
  }

  ghost predicate Runs(states: seq<Lazy>, eager: seq<Eager>, labels: seq<Label>) {
    && |states| == |labels| + 1 && |eager| == |labels| + 1
    && forall i :: 0 <= i < |labels| ==>
         && Enabled(states[i], labels[i]) && states[i + 1] == Step(states[i], labels[i])
         && eager[i + 1] == EagerStep(eager[i], labels[i])
  }

  /**
   Over every run that begins in the kernel with no owner of the registers, the lazy system and the
   eager one are in the same mode, and in user mode the registers are the same.
   */
  lemma {:induction false} RunSame(states: seq<Lazy>, eager: seq<Eager>, labels: seq<Label>)
    requires Runs(states, eager, labels)
    requires states[0].mode == Kernel && states[0].hart.belongTo == None && states[0].hart.ctx == map[]
    requires eager[0].mode == Kernel && eager[0].saved == map[]
    ensures Sim(states[|labels|], eager[|labels|])
    ensures states[|labels|].mode.User? ==> states[|labels|].hart.regs == eager[|labels|].regs
  {
    if labels == [] {
    } else {
      var n := |labels| - 1;
      RunSame(states[..n + 1], eager[..n + 1], labels[..n]);
      StepSim(states[n], eager[n], labels[n]);
    }
  }

  /** In the simple system a process finds the registers it last left. */
  lemma {:induction false} EagerKeeps(eager: seq<Eager>, labels: seq<Label>, p: Process)
    requires |eager| == |labels| + 1 && forall i :: 0 <= i < |labels| ==> eager[i + 1] == EagerStep(eager[i], labels[i])
    requires eager[0].mode == User(p) && |labels| >= 2 && labels[0] == Trap && labels[|labels| - 1] == Enter(p)
    requires forall i :: 1 <= i < |labels| - 1 ==> labels[i] != Enter(p) && !(labels[i].Spawn? && labels[i].p == p)
    requires forall i :: 0 <= i < |labels| ==> labels[i].Enter? ==> eager[i].mode.Kernel?
    ensures eager[|labels|].regs == eager[0].regs
  {
    var n := |labels| - 1;
    StaysSaved(eager[..n + 1], labels[..n], p);
    assert eager[n + 1] == EagerStep(eager[n], labels[n]);
  }

  lemma {:induction false} StaysSaved(eager: seq<Eager>, labels: seq<Label>, p: Process)
    requires |labels| >= 1 && |eager| == |labels| + 1
    requires forall i :: 0 <= i < |labels| ==> eager[i + 1] == EagerStep(eager[i], labels[i])
    requires eager[0].mode == User(p) && labels[0] == Trap
    requires forall i :: 1 <= i < |labels| ==> labels[i] != Enter(p) && !(labels[i].Spawn? && labels[i].p == p)
    ensures
      var e := eager[|labels|];
      e.mode != User(p) && p in e.saved && e.saved[p] == eager[0].regs
  {
    var n := |labels| - 1;
    assert eager[n + 1] == EagerStep(eager[n], labels[n]);
    if n == 0 {
    } else {
      StaysSaved(eager[..n + 1], labels[..n], p);
    }
  }

  lemma {:induction false} StillThere(states: seq<Lazy>, eager: seq<Eager>, labels: seq<Label>, i: nat, k: nat,
                                      p: Process)
    requires Runs(states, eager, labels) && i <= k <= |labels| && p in states[i].hart.ctx
    ensures p in states[k].hart.ctx
  {
    if i == k {
    } else {
      StillThere(states, eager, labels, i, k - 1, p);
      assert states[k - 1 + 1] == Step(states[k - 1], labels[k - 1]);
    }
  }

  /**
   Over every run of the lazy system: when a process enters user mode again, the registers are
   those it left at its last trap.
   */
  lemma LazyKeeps(states: seq<Lazy>, eager: seq<Eager>, labels: seq<Label>, i: nat, j: nat, p: Process)
    requires Runs(states, eager, labels)
    requires states[0].mode == Kernel && states[0].hart.belongTo == None && states[0].hart.ctx == map[]
    requires eager[0].mode == Kernel && eager[0].saved == map[]
    requires i < j < |labels| && states[i].mode == User(p) && labels[i] == Trap && labels[j] == Enter(p)
    requires forall k :: i < k < j ==> labels[k] != Enter(p)
    ensures states[j + 1].hart.regs == states[i].hart.regs
  {
    hide EagerStep, Step, Same;
    var part, ls := eager[i..j + 2], labels[i..j + 1];
    forall k: nat | k < |ls|
      ensures part[k + 1] == EagerStep(part[k], ls[k])
      ensures ls[k].Enter? ==> part[k].mode.Kernel?
      ensures k > 0 ==> !(ls[k].Spawn? && ls[k].p == p)
    {
      Between(states, eager, labels, i, i + k, p);
    }
    RunUpTo(states, eager, labels, i);
    RunUpTo(states, eager, labels, j + 1);
    Entered(states, eager, labels, j);
    EagerKeeps(part, ls, p);
  }

  lemma Entered(states: seq<Lazy>, eager: seq<Eager>, labels: seq<Label>, j: nat)
    requires Runs(states, eager, labels) && j < |labels| && labels[j].Enter?
    ensures states[j + 1].mode.User?
  {
    assert states[j + 1] == Step(states[j], labels[j]);
  }

  lemma RunUpTo(states: seq<Lazy>, eager: seq<Eager>, labels: seq<Label>, k: nat)
    requires Runs(states, eager, labels) && k <= |labels|
    requires states[0].mode == Kernel && states[0].hart.belongTo == None && states[0].hart.ctx == map[]
    requires eager[0].mode == Kernel && eager[0].saved == map[]
    ensures Sim(states[k], eager[k])
  {
    hide Sim, Step, EagerStep, Enabled;
    var ss, es, ls := states[..k + 1], eager[..k + 1], labels[..k];
    RunSame(ss, es, ls);
  }

  lemma Between(states: seq<Lazy>, eager: seq<Eager>, labels: seq<Label>, i: nat, k: nat, p: Process)
    requires Runs(states, eager, labels) && i <= k < |labels| && states[i].mode == User(p) && labels[i] == Trap
    requires states[0].mode == Kernel && states[0].hart.belongTo == None && states[0].hart.ctx == map[]
    requires eager[0].mode == Kernel && eager[0].saved == map[]
    ensures eager[k + 1] == EagerStep(eager[k], labels[k])
    ensures labels[k].Enter? ==> eager[k].mode.Kernel?
    ensures !(labels[k].Spawn? && labels[k].p == p)
  {
    hide EagerStep, Step, Same;
    RunUpTo(states, eager, labels, k);
    assert Enabled(states[i], labels[i]);
    StillThere(states, eager, labels, i, k, p);
    assert Enabled(states[k], labels[k]);
  }
}
