/**
 One physical CPU shared by many guests (src/kernel/vm/vm.cc, src/kernel/sched,
 src/arch/arm64/cpu_regs.cc, src/arch/arm64/irq). Entering and leaving the hypervisor are
 single steps here, since interrupts are masked in between. Which task runs next is left
 open: any choice of the scheduler is covered.
 */
module Vcpu {
  import opened Bits
  import opened Syndrome
  import opened Wrappers

  // Registers by number: the untrapped fields of VCpuSysregs in the order of the struct,
  // then the two registers that give a guest its own identification.
  const SCTLR_EL1: nat := 0
  const TTBR0_EL1: nat := 1
  const TTBR1_EL1: nat := 2
  const TCR_EL1: nat := 3
  const ESR_EL1: nat := 4
  const FAR_EL1: nat := 5
  const AFSR0_EL1: nat := 6
  const AFSR1_EL1: nat := 7
  const MAIR_EL1: nat := 8
  const AMAIR_EL1: nat := 9
  const CONTEXTIDR_EL1: nat := 10
  const CPACR_EL1: nat := 11
  const ELR_EL1: nat := 12
  const FPCR: nat := 13
  const FPSR: nat := 14
  const MIDR_EL1: nat := 15
  const MPIDR_EL1: nat := 16
  const PAR_EL1: nat := 17
  const SP_EL0: nat := 18
  const SP_EL1: nat := 19
  const SPSR_EL1: nat := 20
  const TPIDR_EL0: nat := 21
  const TPIDR_EL1: nat := 22
  const TPIDRRO_EL0: nat := 23
  const VBAR_EL1: nat := 24
  const VPIDR_EL2: nat := 25
  const VMPIDR_EL2: nat := 26
  const FIELD_COUNT: nat := 25
  const REG_COUNT: nat := 27

  const FRAME_WORDS: nat := 34      // CPU_CONTEXT_GP_REGS: x0 - x30, sp, pc, pstate
  const SP: nat := 31
  const PC: nat := 32
  const PSTATE: nat := 33
  const INITIAL_PSTATE: nat := 0x3c5
  const HCR_VI: nat := 0x80
  const HCR_VF: nat := 0x40
  const VI: nat := 7                // digit of HCR_VI
  const VF: nat := 6
  const INIT: nat := 0              // pid of the init task

  /** Where a guest's read of a register ends up. */
  function Behind(field: nat): nat {
    if field == MIDR_EL1 then VPIDR_EL2 else if field == MPIDR_EL1 then VMPIDR_EL2 else field
  }

  /** What a guest reads from the physical registers. */
  ghost function GuestView(el1: seq<nat>): (r: seq<nat>)
    requires |el1| == REG_COUNT
    ensures |r| == FIELD_COUNT && forall f :: 0 <= f < FIELD_COUNT ==> r[f] == el1[Behind(f)]
  {
    seq(FIELD_COUNT, f requires 0 <= f < FIELD_COUNT => el1[Behind(f)])
  }

  /** What the hypervisor does when the task runs again: the place its stack remembers. */
  datatype Cont =
    | InitLoop     // the idle loop of KernelMain
    | InitIrq      // an interrupt taken in that loop
    | Fresh        // never ran: LoadTaskImage comes first
    | Return       // back to the guest
    | AfterWfx     // inside HandleTrapWfx, behind its call of Schedule

  datatype Mode = Guest | Hyp(k: Cont)

  /** A CPU of a guest's own, with the counts of what was emulated for it. */
  datatype Private = Private(sys: seq<nat>, x: seq<nat>, pc: nat, pstate: nat, wfxTraps: nat, mmios: nat)

  function Zeros(n: nat): (r: seq<nat>)
    ensures |r| == n && forall i :: 0 <= i < n ==> r[i] == 0
  {
    seq(n, _ => 0)
  }

  /** The part of a task control block that the switch uses. */
  class Task {
    const pid: nat
    const base: nat             // address of the block
    const hasBoard: bool
    const pageTable: nat
    var sysregs: seq<nat>       // vcpu_sysregs
    var frame: seq<nat>         // VCpuContext, at the top of the block's page
    var irqPending: bool
    var fiqPending: bool
    var wfxTraps: nat
    var mmios: nat
    var cont: Cont              // what cpu_context leads back to

    constructor (pid: nat, base: nat, hasBoard: bool, pageTable: nat, sysregs: seq<nat>, cont: Cont)
      ensures this.pid == pid && this.base == base && this.hasBoard == hasBoard
      ensures this.pageTable == pageTable && this.cont == cont
      ensures this.sysregs == sysregs && frame == Zeros(FRAME_WORDS) && !irqPending && !fiqPending
      ensures wfxTraps == mmios == 0
    {
      this.pid, this.base, this.hasBoard, this.pageTable, this.cont := pid, base, hasBoard, pageTable, cont;
      this.sysregs, frame := sysregs, Zeros(FRAME_WORDS);
      irqPending, fiqPending, wfxTraps, mmios := false, false, 0, 0;
    }
  }

  class Machine {
    // The physical CPU.
    var el1: seq<nat>
    var x: seq<nat>
    var elr: nat
    var spsr: nat
    var vttbr: (nat, nat)       // stage-2 base and VMID
    var hcr: nat
    // The hypervisor.
    var isAsserted: bool        // the static flag of SetCpuVirtualInterrupt
    var tasks: seq<Task>
    var cur: nat
    var mode: Mode
    var template: Option<seq<nat>>   // initial_vcpu_regs_, once it is initialized
    // The private CPUs that the guests should see.
    ghost var priv: seq<Private>

    /** GetCurrentTask. */
    function Current(): (t: Task)
      requires cur < |tasks|
      reads this`cur, this`tasks
      ensures t == tasks[cur]
    {
      tasks[cur]
    }

    /** The block and the frame hold the private CPU; behind a WFx the emulation is still due. */
    ghost predicate Saved(t: Task, k: Cont, p: Private)
      reads t`sysregs, t`frame, t`wfxTraps, t`mmios
    {
      && |t.sysregs| == FIELD_COUNT && |t.frame| == FRAME_WORDS
      && t.sysregs == p.sys && t.frame[..SP] == p.x && t.frame[PSTATE] == p.pstate && t.mmios == p.mmios
      && if k.AfterWfx? then p.pc == (t.frame[PC] + 4) % WORD && p.wfxTraps == t.wfxTraps + 1
         else p.pc == t.frame[PC] && p.wfxTraps == t.wfxTraps
    }

    lemma SavedMeans(t: Task, k: Cont, p: Private)
      requires Saved(t, k, p) && !k.AfterWfx?
      ensures |t.sysregs| == FIELD_COUNT && |t.frame| == FRAME_WORDS
      ensures p == Private(t.sysregs, t.frame[..SP], t.frame[PC], t.frame[PSTATE], t.wfxTraps, t.mmios)
    {
    }

    lemma SavedFrom(t: Task, k: Cont, p: Private)
      requires |t.sysregs| == FIELD_COUNT && |t.frame| == FRAME_WORDS && !k.AfterWfx?
      requires p == Private(t.sysregs, t.frame[..SP], t.frame[PC], t.frame[PSTATE], t.wfxTraps, t.mmios)
      ensures Saved(t, k, p)
    {
    }

    /** The physical CPU is the private one, with its own stage-2 tables and its own virtual interrupt. */
    ghost predicate Running(t: Task, p: Private)
      requires |el1| == REG_COUNT
      reads this`el1, this`x, this`elr, this`spsr, this`vttbr, this`hcr, t
    {
      && GuestView(el1) == p.sys && x == p.x && elr == p.pc && spsr == p.pstate
      && t.wfxTraps == p.wfxTraps && t.mmios == p.mmios
      && vttbr == (t.pageTable, t.pid) && (Bit(hcr, VI) == 1 <==> t.irqPending)
    }

    /** The cached flag is the hardware's bit. */
    ghost predicate Flag()
      reads this`hcr, this`isAsserted
    {
      Bit(hcr, VI) == 1 <==> isAsserted
    }

    ghost predicate Blocks()
      reads this`tasks, tasks`sysregs, tasks`frame
    {
      forall i :: 0 <= i < |tasks| ==>
        && tasks[i].pid == i && (tasks[i].hasBoard <==> i != INIT)
        && |tasks[i].sysregs| == FIELD_COUNT && |tasks[i].frame| == FRAME_WORDS
    }

    /** The identification registers are those of the hardware. */
    static ghost predicate IdsReal(sys: seq<nat>, midr: nat, mpidr: nat) {
      |sys| == FIELD_COUNT && sys[MIDR_EL1] == midr && sys[MPIDR_EL1] == mpidr
    }

    static ghost predicate AllIdsReal(priv: seq<Private>, midr: nat, mpidr: nat) {
      forall i :: 0 < i < |priv| ==> IdsReal(priv[i].sys, midr, mpidr)
    }

    /** Where a task may go on. */
    static ghost predicate PlaceOk(i: nat, k: Cont) {
      if i == INIT then k.InitLoop? || k.InitIrq? else k.Fresh? || k.Return? || k.AfterWfx?
    }

    lemma BlockOf(i: nat)
      requires Blocks() && i < |tasks|
      ensures tasks[i].pid == i && (tasks[i].hasBoard <==> i != INIT)
      ensures |tasks[i].sysregs| == FIELD_COUNT && |tasks[i].frame| == FRAME_WORDS
    {
    }

    ghost predicate Sizes()
      reads this`el1, this`x, this`cur, this`tasks, this`priv
    {
      |el1| == REG_COUNT && |x| == 31 && cur < |tasks| == |priv|
    }

    /** The current task is on the CPU, or saved like the others. */
    ghost predicate CurOk()
      requires Sizes()
      reads this, tasks
    {
      && (mode.Guest? ==> cur != INIT && Running(tasks[cur], priv[cur]))
      && (mode.Hyp? ==> PlaceOk(cur, mode.k) && (cur != INIT ==> Saved(tasks[cur], mode.k, priv[cur])))
    }

    ghost predicate OthersOk(priv: seq<Private>)
      requires cur < |tasks| == |priv|
      reads this`cur, this`tasks, tasks`sysregs, tasks`frame, tasks`wfxTraps, tasks`mmios, tasks`cont
    {
      && (cur != INIT ==> PlaceOk(INIT, tasks[INIT].cont))
      && forall i :: 0 < i < |tasks| && i != cur ==>
           PlaceOk(i, tasks[i].cont) && Saved(tasks[i], tasks[i].cont, priv[i])
    }

    /** The current task's private CPU is nothing to the others. */
    lemma ReplaceCurrent(priv: seq<Private>, p: Private, midr: nat, mpidr: nat)
      requires cur < |tasks| == |priv| && OthersOk(priv) && AllIdsReal(priv, midr, mpidr) && IdsReal(p.sys, midr, mpidr)
      ensures OthersOk(priv[cur := p]) && AllIdsReal(priv[cur := p], midr, mpidr)
    {
      hide Saved, PlaceOk, IdsReal;
    }

    ghost predicate IdsOk()
      requires Sizes()
      reads this`el1, this`x, this`cur, this`tasks, this`priv, this`template
    {
      && AllIdsReal(priv, el1[MIDR_EL1], el1[MPIDR_EL1])
      && (template.Some? ==> IdsReal(template.value, el1[MIDR_EL1], el1[MPIDR_EL1]))
    }

    ghost predicate Valid()
      reads this, tasks
    {
      Sizes() && Flag() && Blocks() && IdsOk() && CurOk() && OthersOk(priv)
    }

    /** After Sched::Init, with the hardware's registers as they are. */
    constructor (el1: seq<nat>, hcr: nat, init: Task)
      requires |el1| == REG_COUNT && Bit(hcr, VI) == 0
      requires init.pid == INIT && !init.hasBoard && init.cont.InitLoop? && |init.sysregs| == FIELD_COUNT
      requires |init.frame| == FRAME_WORDS
      ensures Valid() && tasks == [init] && mode == Hyp(InitLoop)
    {
      this.el1, this.hcr, this.isAsserted := el1, hcr, false;
      x, elr, spsr, vttbr := Zeros(31), 0, 0, (0, 0);
      tasks, cur, mode := [init], INIT, Hyp(InitLoop);
      template := None;
      priv := [Private([], [], 0, 0, 0, 0)];
    }

    // Saving and loading.

    method CpuRegLoadVCpuSysregs(regs: seq<nat>)
      requires |el1| == REG_COUNT && |regs| == FIELD_COUNT
      modifies this`el1
      ensures |el1| == REG_COUNT && GuestView(el1) == regs
      ensures el1[VPIDR_EL2] == regs[MIDR_EL1] && el1[VMPIDR_EL2] == regs[MPIDR_EL1]
      ensures el1[MIDR_EL1] == old(el1[MIDR_EL1]) && el1[MPIDR_EL1] == old(el1[MPIDR_EL1])
    {
      var x1, x2, at := 0, 0, 0;
      var file := el1;
      x1, x2, at := regs[at], regs[at + 1], at + 2;
      file := file[SCTLR_EL1 := x1][TTBR0_EL1 := x2];
      x1, x2, at := regs[at], regs[at + 1], at + 2;
      file := file[TTBR1_EL1 := x1][TCR_EL1 := x2];
      x1, x2, at := regs[at], regs[at + 1], at + 2;
      file := file[ESR_EL1 := x1][FAR_EL1 := x2];
      x1, x2, at := regs[at], regs[at + 1], at + 2;
      file := file[AFSR0_EL1 := x1][AFSR1_EL1 := x2];
      x1, x2, at := regs[at], regs[at + 1], at + 2;
      file := file[MAIR_EL1 := x1][AMAIR_EL1 := x2];
      x1, x2, at := regs[at], regs[at + 1], at + 2;
      file := file[CONTEXTIDR_EL1 := x1][CPACR_EL1 := x2];
      x1, x2, at := regs[at], regs[at + 1], at + 2;
      file := file[ELR_EL1 := x1][FPCR := x2];
      x1, x2, at := regs[at], regs[at + 1], at + 2;
      file := file[FPSR := x1][VPIDR_EL2 := x2];
      x1, x2, at := regs[at], regs[at + 1], at + 2;
      file := file[VMPIDR_EL2 := x1][PAR_EL1 := x2];
      x1, x2, at := regs[at], regs[at + 1], at + 2;
      file := file[SP_EL0 := x1][SP_EL1 := x2];
      x1, x2, at := regs[at], regs[at + 1], at + 2;
      file := file[SPSR_EL1 := x1][TPIDR_EL0 := x2];
      x1, x2, at := regs[at], regs[at + 1], at + 2;
      file := file[TPIDR_EL1 := x1][TPIDRRO_EL0 := x2];
      file := file[VBAR_EL1 := regs[at]];
      el1 := file;
    }

    method CpuRegStoreVCpuSysregs() returns (regs: seq<nat>)
      requires |el1| == REG_COUNT
      ensures |regs| == FIELD_COUNT
      ensures regs == GuestView(el1)[MIDR_EL1 := el1[MIDR_EL1]][MPIDR_EL1 := el1[MPIDR_EL1]]
    {
      regs := [];
      regs := regs + [el1[SCTLR_EL1], el1[TTBR0_EL1]];
      regs := regs + [el1[TTBR1_EL1], el1[TCR_EL1]];
      regs := regs + [el1[ESR_EL1], el1[FAR_EL1]];
      regs := regs + [el1[AFSR0_EL1], el1[AFSR1_EL1]];
      regs := regs + [el1[MAIR_EL1], el1[AMAIR_EL1]];
      regs := regs + [el1[CONTEXTIDR_EL1], el1[CPACR_EL1]];
      regs := regs + [el1[ELR_EL1], el1[FPCR]];
      regs := regs + [el1[FPSR], el1[MIDR_EL1]];
      regs := regs + [el1[MPIDR_EL1], el1[PAR_EL1]];
      regs := regs + [el1[SP_EL0], el1[SP_EL1]];
      regs := regs + [el1[SPSR_EL1], el1[TPIDR_EL0]];
      regs := regs + [el1[TPIDR_EL1], el1[TPIDRRO_EL0]];
      regs := regs + [el1[VBAR_EL1]];
    }

    // The steps of the machine.

    lemma CurrentIds()
      requires Sizes() && IdsOk() && cur != INIT
      ensures IdsReal(priv[cur].sys, el1[MIDR_EL1], el1[MPIDR_EL1])
    {
    }

    static lemma SameIds(a: seq<nat>, b: seq<nat>, midr: nat, mpidr: nat)
      requires IdsReal(a, midr, mpidr) && IdsReal(b, midr, mpidr)
      ensures |a| == |b| == FIELD_COUNT && a[MIDR_EL1] == b[MIDR_EL1] && a[MPIDR_EL1] == b[MPIDR_EL1]
    {
    }

    /** A guest's writes to its registers; those that give its identification are not among them. */
    method WriteEl1(sys: seq<nat>)
      requires |el1| == REG_COUNT && |sys| == FIELD_COUNT
      requires sys[MIDR_EL1] == el1[VPIDR_EL2] && sys[MPIDR_EL1] == el1[VMPIDR_EL2]
      modifies this`el1
      ensures |el1| == REG_COUNT && GuestView(el1) == sys
      ensures el1[MIDR_EL1] == old(el1[MIDR_EL1]) && el1[MPIDR_EL1] == old(el1[MPIDR_EL1])
    {
      el1 := sys[..MIDR_EL1] + el1[MIDR_EL1..PAR_EL1] + sys[PAR_EL1..] + el1[VPIDR_EL2..];
    }

    /** The guest on the CPU executes: it may change any register of its own but the identification. */
    method GuestExecute(sys: seq<nat>, gprs: seq<nat>, pc: nat, pstate: nat)
      requires Valid() && mode.Guest? && |el1| == REG_COUNT && IdsReal(sys, el1[MIDR_EL1], el1[MPIDR_EL1])
      requires |gprs| == 31
      modifies this`el1, this`x, this`elr, this`spsr, this`priv
      ensures Valid()
      ensures priv == old(priv)[cur := old(priv)[cur].(sys := sys, x := gprs, pc := pc, pstate := pstate)]
    {
      hide Bit, Flag, Saved, Blocks, GuestView, IdsReal, AllIdsReal, OthersOk;
      CurrentIds();
      SameIds(sys, priv[cur].sys, el1[MIDR_EL1], el1[MPIDR_EL1]);
      ReplaceCurrent(priv, priv[cur].(sys := sys, x := gprs, pc := pc, pstate := pstate),
                     el1[MIDR_EL1], el1[MPIDR_EL1]);
      WriteEl1(sys);
      x, elr, spsr := gprs, pc, pstate;
      priv := priv[cur := priv[cur].(sys := sys, x := gprs, pc := pc, pstate := pstate)];
      assert Running(tasks[cur], priv[cur]);
      hide Running;
    }

    method StopVcpu(t: Task)
      requires |el1| == REG_COUNT
      modifies t`sysregs
      ensures t.sysregs == GuestView(el1)[MIDR_EL1 := el1[MIDR_EL1]][MPIDR_EL1 := el1[MPIDR_EL1]]
    {
      t.sysregs := CpuRegStoreVCpuSysregs();
    }

    /** The static flag stays equal to HCR_EL2.VI, bit 7, and only it and VF, bit 6, change. */
    method SetCpuVirtualInterrupt(t: Task)
      requires Flag()
      modifies this`hcr, this`isAsserted, t`fiqPending
      ensures Flag()
      ensures t.hasBoard ==> (Bit(hcr, 7) == 1 <==> t.irqPending)
      ensures !t.hasBoard ==> Bit(hcr, 7) == Bit(old(hcr), 7)
      ensures Bit(hcr, 6) == 1 <==> t.hasBoard && old(t.fiqPending)
      ensures forall j: nat :: j != 7 && j != 6 ==> Bit(hcr, j) == Bit(old(hcr), j)
      ensures t.fiqPending == (old(t.fiqPending) && !t.hasBoard)
    {
      InterruptBits();
      hide Bit, Or, Bic;
      if !isAsserted && t.hasBoard && t.irqPending {
        hcr := Or(hcr, HCR_VI);
        isAsserted := true;
      } else if isAsserted && t.hasBoard && !t.irqPending {
        hcr := Bic(hcr, HCR_VI);
        isAsserted := false;
      }
      if t.hasBoard && t.fiqPending {
        hcr := Or(hcr, HCR_VF);
        t.fiqPending := false;
      } else {
        hcr := Bic(hcr, HCR_VF);
      }
    }

    method RunVcpu(t: Task)
      requires |el1| == REG_COUNT && |t.sysregs| == FIELD_COUNT && Flag()
      modifies this`el1, this`vttbr, this`hcr, this`isAsserted, t`fiqPending
      ensures |el1| == REG_COUNT && GuestView(el1) == t.sysregs && vttbr == (t.pageTable, t.pid)
      ensures el1[MIDR_EL1] == old(el1[MIDR_EL1]) && el1[MPIDR_EL1] == old(el1[MPIDR_EL1])
      ensures Flag()
      ensures t.hasBoard ==> (Bit(hcr, 7) == 1 <==> t.irqPending)
    {
      vttbr := (t.pageTable, t.pid);
      CpuRegLoadVCpuSysregs(t.sysregs);
      SetCpuVirtualInterrupt(t);
    }

    /** input says whether the guest's console has bytes for it. */
    method VmEnter(input: bool)
      requires |el1| == REG_COUNT && cur < |tasks| && |tasks[cur].sysregs| == FIELD_COUNT && Flag()
      modifies this`el1, this`vttbr, this`hcr, this`isAsserted, Current()`fiqPending, Current()`irqPending
      ensures |el1| == REG_COUNT && GuestView(el1) == tasks[cur].sysregs
      ensures vttbr == (tasks[cur].pageTable, tasks[cur].pid)
      ensures el1[MIDR_EL1] == old(el1[MIDR_EL1]) && el1[MPIDR_EL1] == old(el1[MPIDR_EL1])
      ensures Flag()
      ensures tasks[cur].hasBoard ==> tasks[cur].irqPending == input && (Bit(hcr, 7) == 1 <==> input)
    {
      var next := tasks[cur];
      if next.hasBoard {
        next.irqPending := input;
      }
      RunVcpu(next);
    }

    /** A trap or an interrupt takes the CPU from the guest; nothing of the guest is lost. */
    method EnterHypervisor()
      requires Valid() && mode.Guest?
      modifies this`mode, Current()`frame, Current()`sysregs
      ensures Valid() && mode == Hyp(Return) && Current().frame[SP] == Current().base + 0x1000
    {
      hide Bit, GuestView;
      var t := tasks[cur];
      t.frame := x + [t.base + 0x1000, elr, spsr];
      StopVcpu(t);
      mode := Hyp(Return);
    }

    /** The registers of the frame, with the return to the guest. */
    method LoadFrame(t: Task)
      requires |t.frame| == FRAME_WORDS
      modifies this`x, this`elr, this`spsr
      ensures x == t.frame[..SP] && elr == t.frame[PC] && spsr == t.frame[PSTATE]
    {
      x, elr, spsr := t.frame[..SP], t.frame[PC], t.frame[PSTATE];
    }

    /** The guest goes on; the CPU is its own from here. */
    method LeaveHypervisor(input: bool)
      requires Valid() && mode == Hyp(Return)
      modifies this`el1, this`x, this`elr, this`spsr, this`vttbr, this`hcr, this`isAsserted, this`mode
      modifies Current()`fiqPending, Current()`irqPending
      ensures Valid() && mode.Guest? && Running(Current(), priv[cur]) && Current().irqPending == input
      ensures elr == priv[cur].pc && x == priv[cur].x && spsr == priv[cur].pstate
      ensures Bit(hcr, 7) == 1 <==> input
    {
      hide Bit, Flag, Saved, Blocks, AllIdsReal, IdsReal, OthersOk, GuestView;
      SavedMeans(tasks[cur], Return, priv[cur]);
      BlockOf(cur);
      VmEnter(input);
      var t := tasks[cur];
      LoadFrame(t);
      assert Running(t, priv[cur]);
      hide Running;
      mode := Guest;
    }

    /** FlushTlbVMID: it leaves no stage-2 tables on the CPU; the next RunVcpu puts them back. */
    method FlushTlbVmid()
      requires Valid() && mode.Hyp?
      modifies this`vttbr
      ensures Valid() && vttbr == (0, 0)
    {
      hide Saved, GuestView, Bit;
      vttbr := (0, 0);
    }

    /** A trapped WFI or WFE up to HandleTrapWfx's call of Schedule. */
    method TrapWfx()
      requires Valid() && mode.Guest?
      modifies this`mode, this`priv, Current()`frame, Current()`sysregs
      ensures Valid() && mode == Hyp(AfterWfx)
      ensures priv == old(priv[cur := priv[cur].(pc := (priv[cur].pc + 4) % 0x1_0000_0000_0000_0000,
                                                 wfxTraps := priv[cur].wfxTraps + 1)])
    {
      EnterHypervisor();
      mode := Hyp(AfterWfx);
      priv := priv[cur := priv[cur].(pc := (priv[cur].pc + 4) % WORD, wfxTraps := priv[cur].wfxTraps + 1)];
    }

    /** An interrupt in the idle loop of the init task. */
    method InterruptInit()
      requires Valid() && mode == Hyp(InitLoop)
      modifies this`mode, Current()`sysregs
      ensures Valid() && mode == Hyp(InitIrq)
    {
      hide Bit;
      StopVcpu(tasks[cur]);
      mode := Hyp(InitIrq);
    }

    /** SwitchTaskTo of the scheduler's choice: the CPU goes on where that task left off. */
    method SwitchTaskTo(next: nat)
      requires Valid() && mode.Hyp? && next < |tasks|
      modifies this`cur, this`mode, Current()`cont
      ensures Valid() && mode.Hyp? && cur == next
      ensures next == old(cur) ==> mode == old(mode)
      ensures next != old(cur) ==> mode.k == old(tasks[next].cont)
    {
      assert forall i :: 0 <= i < |tasks| && i != cur ==> tasks[i] != tasks[cur];
      hide Bit, Saved, GuestView, Flag, IdsReal, Running;
      if cur == next {
        return;
      }
      tasks[cur].cont := mode.k;
      cur := next;
      mode := Hyp(tasks[next].cont);
    }

    /** IncrementCurrentTaskPc. */
    method IncrementCurrentTaskPc(offset: nat)
      requires cur < |tasks| && |Current().frame| == FRAME_WORDS
      modifies Current()`frame
      ensures Current().frame ==
              old(Current().frame)[PC := (old(Current().frame[PC]) + offset) % 0x1_0000_0000_0000_0000]
    {
      var regs := tasks[cur];
      regs.frame := regs.frame[PC := (regs.frame[PC] + offset) % WORD];
    }

    /** The rest of HandleTrapWfx once Schedule returns to the task that called it. */
    method FinishWfx()
      requires Valid() && mode == Hyp(AfterWfx)
      modifies this`mode, Current()`frame, Current()`wfxTraps
      ensures Valid() && mode == Hyp(Return)
      ensures Current().frame[PC] == (old(Current().frame[PC]) + 4) % 0x1_0000_0000_0000_0000
      ensures Current().wfxTraps == old(Current().wfxTraps) + 1
    {
      hide Bit, Running, GuestView, IdsReal;
      IncrementCurrentTaskPc(4);
      tasks[cur].wfxTraps := tasks[cur].wfxTraps + 1;
      mode := Hyp(Return);
    }

    /**
     LoadTaskImage of a task that runs for the first time; the loader gives entry and stack. It
     starts in EL1h (5 in the low bits of PSTATE) with D, A, I and F masked (bits 9 to 6).
     */
    method LoadTaskImage(entry: nat, stack: nat)
      requires Valid() && mode == Hyp(Fresh)
      modifies this`mode, this`priv, this`el1, this`vttbr, this`hcr, this`isAsserted
      modifies Current()`frame, Current()`fiqPending
      ensures Valid() && mode == Hyp(Return)
      ensures priv == old(priv)[cur := old(priv)[cur].(pc := entry, pstate := INITIAL_PSTATE)]
      ensures priv[cur].pstate % 0x40 == 5 && priv[cur].pstate / 0x40 == 15 && Current().frame[SP] == stack
    {
      hide Bit, Flag, Running, GuestView, IdsReal;
      var t := tasks[cur];
      t.frame := t.frame[PSTATE := INITIAL_PSTATE];
      t.frame := t.frame[PC := entry][SP := stack];
      priv := priv[cur := priv[cur].(pc := entry, pstate := INITIAL_PSTATE)];
      mode := Hyp(Return);
      RunVcpu(t);
    }

    /** The hypervisor goes on where the current task left off, until a guest runs or the init task idles. */
    method Resume(input: bool, entry: nat, stack: nat)
      requires Valid() && mode.Hyp?
      modifies this`el1, this`x, this`elr, this`spsr, this`vttbr, this`hcr, this`isAsserted, this`mode, this`priv
      modifies Current()
      ensures Valid()
      ensures cur == INIT ==> mode == Hyp(InitLoop)
      ensures cur != INIT ==> mode.Guest? && Running(Current(), priv[cur])
      ensures cur != INIT ==> elr == priv[cur].pc && x == priv[cur].x && spsr == priv[cur].pstate
      ensures cur != INIT ==> (Bit(hcr, 7) == 1 <==> input)
      ensures old(mode.k.Fresh?) ==> priv[cur].pstate % 0x40 == 5 && priv[cur].pstate / 0x40 == 15
      ensures priv ==
              if old(mode.k.Fresh?) then old(priv)[cur := old(priv)[cur].(pc := entry, pstate := INITIAL_PSTATE)]
              else old(priv)
    {
      if mode.k.InitLoop? {
        return;
      }
      if mode.k.InitIrq? {
        ResumeInit(input);
        return;
      }
      if mode.k.Fresh? {
        LoadTaskImage(entry, stack);
      } else if mode.k.AfterWfx? {
        FinishWfx();
      }
      LeaveHypervisor(input);
    }

    method ResumeInit(input: bool)
      requires Valid() && mode == Hyp(InitIrq)
      modifies this`el1, this`vttbr, this`hcr, this`isAsserted, this`mode, Current()`fiqPending, Current()`irqPending
      ensures Valid() && mode == Hyp(InitLoop)
    {
      hide Bit;
      VmEnter(input);
      mode := Hyp(InitLoop);
    }

    /** vcpu->regs[srt] and the device behind the task's board, if it has one; asked says what of it. */
    method Transfer(vcpu: Task, addr: nat, srt: nat, read: bool, answer: nat) returns (asked: seq<Request>)
      requires |vcpu.frame| == FRAME_WORDS && srt < 32
      modifies vcpu`frame
      ensures vcpu.frame == if vcpu.hasBoard && read then old(vcpu.frame)[srt := answer] else old(vcpu.frame)
      ensures if vcpu.hasBoard
              then Effect(vcpu.frame[..SP], asked) ==
                   Emulated(old(vcpu.frame)[..SP], old(vcpu.frame)[SP], addr, srt, read, answer)
              else asked == []
    {
      asked := [];
      if vcpu.hasBoard {
        if read {
          asked := [Load(addr)];
          vcpu.frame := vcpu.frame[srt := answer];
        } else {
          asked := [Store(addr, vcpu.frame[srt])];
        }
      }
    }

    /**
     An emulated device access of the guest (src/mm/kmm_trap.cc): read says its direction,
     answer is what the device returns. It is what the guest's own CPU would have done for an
     access of 2^sas bytes at ipa if and only if addr is the ipa, the value fits and no zero
     register is stored: the frame has the guest's sp where register 31 would be.
     */
    method HandleMmTrapRegisterAccess(addr: nat, srt: nat, read: bool, answer: nat) returns (asked: seq<Request>)
      requires Valid() && mode == Hyp(Return) && cur != INIT && srt < 32
      requires Current().frame[SP] == Current().base + 0x1000
      modifies this`priv, Current()`frame, Current()`mmios
      ensures Valid() && |old(priv)[cur].x| == 31 && cur < |priv|
      ensures priv == old(priv)[cur := old(priv[cur]).(x := priv[cur].x, mmios := old(priv[cur].mmios) + 1,
                                                       pc := (old(priv[cur].pc) + 4) % 0x1_0000_0000_0000_0000)]
      ensures read ==> asked == [Load(addr)]
      ensures read ==> priv[cur].x == if srt == 31 then old(priv[cur].x) else old(priv[cur].x)[srt := answer]
      ensures !read ==> asked == [Store(addr, if srt == 31 then Current().base + 0x1000 else old(priv[cur].x)[srt])]
      ensures !read ==> priv[cur].x == old(priv[cur].x)
      ensures forall i: Instruction, ipa: nat, next: nat ::
                i.Single? && i.Valid() && i.register == srt && i.stores == !read ==>
                  (Effect(priv[cur].x, asked) == OnArm(i, old(priv)[cur].x, ipa, answer, next)
                   <==> addr == ipa && Fits(i, old(priv)[cur].x, answer))
    {
      hide Bit, Flag, Running, GuestView, IdsReal, Saved, PlaceOk, Emulated, OnArm, Fits;
      BlockOf(cur);
      SavedMeans(tasks[cur], Return, priv[cur]);
      ghost var p, t := priv[cur], tasks[cur];
      asked := AccessRegister(tasks[cur], addr, srt, read, answer);
      priv := priv[cur := p.(x := t.frame[..SP], pc := (p.pc + 4) % WORD, mmios := p.mmios + 1)];
      SavedFrom(tasks[cur], Return, priv[cur]);
      AskedOnce(p.x, t.base + 0x1000, addr, srt, read, answer);
      forall i: Instruction, ipa: nat, next: nat | i.Single? && i.Valid() && i.register == srt && i.stores == !read
        ensures Effect(priv[cur].x, asked) == OnArm(i, p.x, ipa, answer, next) <==> addr == ipa && Fits(i, p.x, answer)
      {
        SingleIff(i, p.x, t.base + 0x1000, addr, ipa, answer, next);
      }
    }

    static lemma AskedOnce(x: seq<nat>, sp: nat, addr: nat, srt: nat, read: bool, answer: nat)
      requires |x| == 31 && srt < 32
      ensures Emulated(x, sp, addr, srt, read, answer) ==
              Effect(if read && srt != 31 then x[srt := answer] else x,
                     [if read then Load(addr) else Store(addr, if srt == 31 then sp else x[srt])])
    {
    }

    /** What the handler does to the task's block. */
    method AccessRegister(vcpu: Task, addr: nat, srt: nat, read: bool, answer: nat) returns (asked: seq<Request>)
      requires cur < |tasks| && vcpu == Current() && |vcpu.frame| == FRAME_WORDS && srt < 32 && vcpu.hasBoard
      modifies vcpu`frame, vcpu`mmios
      ensures |vcpu.frame| == FRAME_WORDS && vcpu.mmios == old(vcpu.mmios) + 1
      ensures vcpu.frame[PC] == (old(vcpu.frame)[PC] + 4) % 0x1_0000_0000_0000_0000
      ensures vcpu.frame[PSTATE] == old(vcpu.frame)[PSTATE]
      ensures Effect(vcpu.frame[..SP], asked) ==
              Emulated(old(vcpu.frame)[..SP], old(vcpu.frame)[SP], addr, srt, read, answer)
    {
      hide Emulated;
      asked := Transfer(vcpu, addr, srt, read, answer);
      ghost var x1 := vcpu.frame[..SP];
      IncrementCurrentTaskPc(4);
      assert vcpu.frame[..SP] == x1;
      vcpu.mmios := vcpu.mmios + 1;
    }

    /** CreateInitialCpuRegsTemplate: the hardware's registers at the first call, the MMU off. */
    method InitialRegs() returns (regs: seq<nat>)
      requires Valid() && mode == Hyp(InitLoop)
      modifies this`template
      ensures Valid() && template == Some(regs) && (old(template).Some? ==> template == old(template))
      ensures IdsReal(regs, el1[MIDR_EL1], el1[MPIDR_EL1])
      ensures old(template).None? ==> forall f :: 0 <= f < FIELD_COUNT ==>
                regs[f] == if f == SCTLR_EL1 then Bic(el1[f], 1) else el1[f]
    {
      hide Bit, Running, Saved;
      if template.None? {
        var now := CpuRegStoreVCpuSysregs();
        template := Some(now[SCTLR_EL1 := Bic(now[SCTLR_EL1], 1)]);
      }
      regs := template.value;
    }

    lemma FreshSaved(t: Task, regs: seq<nat>)
      requires |regs| == FIELD_COUNT && t.sysregs == regs && t.frame == Zeros(FRAME_WORDS) && t.wfxTraps == t.mmios == 0
      ensures Saved(t, Fresh, Private(regs, Zeros(31), 0, 0, 0, 0))
    {
    }

    /** A new guest starts with the template and with all its other registers zero. */
    method CreateTask(base: nat, pageTable: nat) returns (t: Task)
      requires Valid() && mode == Hyp(InitLoop)
      modifies this`tasks, this`template, this`priv
      ensures Valid() && fresh(t) && tasks == old(tasks) + [t] && t.cont.Fresh?
      ensures t.base == base && t.pageTable == pageTable
      ensures template.Some? && (old(template).Some? ==> template == old(template))
      ensures priv == old(priv) + [Private(template.value, Zeros(31), 0, 0, 0, 0)]
    {
      hide Bit, Running, GuestView, Saved;
      var regs := InitialRegs();
      t := new Task(|tasks|, base, true, pageTable, regs, Fresh);
      FreshSaved(t, regs);
      tasks := tasks + [t];
      priv := priv + [Private(regs, Zeros(31), 0, 0, 0, 0)];
    }
  }

  lemma InterruptBits()
    ensures forall h: nat, j: nat :: Bit(Or(h, HCR_VI), j) == if j == VI then 1 else Bit(h, j)
    ensures forall h: nat, j: nat :: Bit(Or(h, HCR_VF), j) == if j == VF then 1 else Bit(h, j)
    ensures forall h: nat, j: nat :: Bit(Bic(h, HCR_VI), j) == if j == VI then 0 else Bit(h, j)
    ensures forall h: nat, j: nat :: Bit(Bic(h, HCR_VF), j) == if j == VF then 0 else Bit(h, j)
  {
    assert Pow2(VI) == HCR_VI && Pow2(VF) == HCR_VF;
    hide Bit, Or, Bic, Pow2;
    forall h: nat, j: nat
      ensures Bit(Or(h, HCR_VI), j) == if j == VI then 1 else Bit(h, j)
      ensures Bit(Or(h, HCR_VF), j) == if j == VF then 1 else Bit(h, j)
      ensures Bit(Bic(h, HCR_VI), j) == if j == VI then 0 else Bit(h, j)
      ensures Bit(Bic(h, HCR_VF), j) == if j == VF then 0 else Bit(h, j)
    {
      BitOfPow2(VI, j);
      BitOfPow2(VF, j);
      OrBit(h, HCR_VI, j);
      OrBit(h, HCR_VF, j);
      BicBit(h, HCR_VI, j);
      BicBit(h, HCR_VF, j);
      BitRange(h, j);
    }
  }
}
