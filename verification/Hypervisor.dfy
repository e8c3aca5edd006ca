/**
 The hypervisor as a whole. In the source a task is one block (struct Tcb): its page_table
 joins the stage-2 tables and the CPU. Here the block's memory part (Stage2.Task) and its
 CPU part (Vcpu.Task) are joined again, and what a guest reaches while it executes is
 stated for the tables that are on the CPU.
 */
module Hypervisor {
  import opened Descriptor
  import opened Stage2
  import opened Stage2Tree
  import opened Syndrome
  import opened Wrappers

  import Bits
  import Blk = VirtioBlk
  import Loader
  import Vcpu

  /** What the hardware makes of an access. */
  datatype Access = Done | Untranslated | Unflagged | Forbidden

  /** By the leaf its walk ends on: the access flag in bit 10, permission to load in 6 and to store in 7. */
  function AccessBy(leaf: Option<nat>, stores: bool): Access {
    if leaf.None? || leaf.value % 4 != 3 then Untranslated
    else if leaf.value / 0x400 % 2 == 0 then Unflagged
    else if leaf.value / (if stores then 0x80 else 0x40) % 2 == 0 then Forbidden
    else Done
  }

  /** The syndrome of an access by an instruction: the kind of its fault in bits 5:2. */
  ghost predicate Reports(esr: nat, access: Access, i: Instruction) {
    && Describes(esr, i)
    && (esr / 4 % 0x10 == 1 <==> access.Untranslated?)
    && (esr / 4 % 0x10 == 2 <==> access.Unflagged?)
    && (esr / 4 % 0x10 == 3 <==> access.Forbidden?)
  }

  /** A leaf that leads to read-write write-back memory: MemAttr in bits 5:2, S2AP in 7:6. */
  predicate IsDram(d: nat) { d / 4 % 0x10 == 15 && d / 0x40 % 4 == 3 }

  /** The address in a leaf, bits 47:12. */
  function AddressIn(d: nat): nat { d % 0x1_0000_0000_0000 / 0x1000 * 0x1000 }

  /** The byte of guest memory that address a reaches through a leaf, if that leads to guest DRAM. */
  ghost function ByteBy(userStart: nat, bytes: seq<nat>, leaf: Option<nat>, a: nat): Option<nat> {
    if leaf.None? || !IsDram(leaf.value) then None
    else
      var x := AddressIn(leaf.value) + a % 0x1000 - userStart;
      if 0 <= x < |bytes| then Some(bytes[x]) else None
  }

  /** What the hardware finds of a view. */
  ghost function Seen(view: map<nat, nat>, page: nat): Option<nat> {
    if page < S2_PAGES then Lookup(view, page) else None
  }

  /** Address a is in reach of the hardware and lies on the page the software selects for far. */
  predicate Cured(far: nat, a: nat) {
    a < 0x10_0000_0000 && a / 0x1000 == PageOf(far)
  }

  /** Address 2^36: the tables hold what was mapped for it, and the hardware does not look there. */
  lemma FirstOutOfReach(m: Memory, t: Task)
    requires m.Valid() && t in m.tasks && PageOf(IPA_LIMIT) in t.view
    ensures IPA_LIMIT == 0x10_0000_0000 && TableLeaf(m, t, IPA_LIMIT / 0x1000) == Some(t.view[IPA_LIMIT / 0x1000])
    ensures forall stores :: AccessBy(Translation(m, t, IPA_LIMIT / 0x1000), stores) == Untranslated
  {
    hide Memory.Valid, TreeWalk;
    Reached(m, t, IPA_LIMIT / 0x1000);
  }

  lemma SameAddress(a: nat, b: nat)
    requires a / 0x1000 == b / 0x1000 && a % 0x1000 == b % 0x1000
    ensures a == b
  {
  }

  class Hypervisor {
    const mem: Memory
    const cpu: Vcpu.Machine
    var guests: seq<Task>       // the guest with pid i + 1 is guests[i]
    ghost var strays: set<Task> // the guests whose own translation was not the identity at a page fault

    ghost predicate Distinctly()
      reads this`guests
    {
      forall i, j :: 0 <= i < j < |guests| ==> guests[i] != guests[j]
    }

    /**
     The CPU's part of a guest has the tables of its memory part. No page in reach of the
     hardware faulted twice, unless the guest's own translation was not the identity there.
     */
    ghost predicate GuestOk(i: nat)
      requires i < |guests| && |cpu.tasks| == |guests| + 1
      reads this`guests, this`strays, mem`tasks, guests, cpu`tasks
    {
      && guests[i] in mem.tasks && guests[i].pageTable != 0
      && cpu.tasks[i + 1].pageTable == guests[i].pageTable
      && (guests[i] in strays || FaultedOnce(guests[i].faults))
    }

    ghost predicate Linked()
      reads this, mem, mem.heapMap, mem.heap, mem.userMap, mem.tasks, guests, cpu, cpu.tasks
    {
      && mem.Valid() && cpu.Valid() && |cpu.tasks| == |guests| + 1 && Distinctly()
      && forall i :: 0 <= i < |guests| ==> GuestOk(i)
    }

    /** Boot: no guests yet. */
    constructor (mem: Memory, cpu: Vcpu.Machine)
      requires mem.Valid() && cpu.Valid() && |cpu.tasks| == 1
      ensures Linked() && this.mem == mem && this.cpu == cpu && guests == [] && strays == {}
    {
      this.mem, this.cpu, guests, strays := mem, cpu, [], {};
    }

    /** The current guest. */
    function Guest(): (t: Task)
      requires 0 < cpu.cur <= |guests|
      reads this`guests, cpu`cur
      ensures t == guests[cpu.cur - 1]
    {
      guests[cpu.cur - 1]
    }

    /** The leaf the hardware finds, through the tables that are on the CPU. */
    function Leaf(page: nat): (leaf: Option<nat>)
      reads mem.heap, cpu`vttbr
      ensures leaf.Some? ==> leaf.value % 4 == 3
    {
      HardwareWalk(mem.heapStart, mem.heap[..], cpu.vttbr.0, page)
    }

    /** The byte guest i has at address a. */
    ghost function GuestByte(i: nat, a: nat): Option<nat>
      requires i < |guests|
      reads this`guests, mem.heap, mem.user, guests
    {
      ByteBy(mem.userStart, mem.user[..], Translation(mem, guests[i], a / 0x1000), a)
    }

    lemma Unlink()
      requires Linked()
      ensures mem.Valid() && mem.Layout() && cpu.Valid() && cpu.cur <= |guests|
      ensures |cpu.tasks| == |cpu.priv| == |guests| + 1 && Distinctly()
      ensures cpu.mode.Guest? ==> cpu.cur > 0
      ensures forall i :: 0 <= i < |guests| ==> GuestOk(i)
    {
    }

    /** The idle loop is the init task's. */
    lemma InitIdles()
      requires Linked() && cpu.mode == Vcpu.Hyp(Vcpu.InitLoop)
      ensures cpu.cur == Vcpu.INIT
    {
      hide Memory.Valid, Vcpu.Machine.Saved, GuestOk;
    }

    /** Only a guest can wait for its first run. */
    lemma Places()
      requires Linked()
      ensures |cpu.tasks| == |guests| + 1
      ensures forall i :: 0 <= i < |cpu.tasks| && i != cpu.cur && cpu.tasks[i].cont.Fresh? ==> i > 0
    {
      hide Memory.Valid, Vcpu.Machine.Saved, Vcpu.Machine.CurOk, GuestOk;
    }

    lemma Relink()
      requires mem.Valid() && cpu.Valid() && |cpu.tasks| == |guests| + 1 && Distinctly()
      requires forall i :: 0 <= i < |guests| ==> GuestOk(i)
      ensures Linked()
    {
    }

    lemma Others(me: nat)
      requires Distinctly() && me < |guests|
      ensures forall i :: 0 <= i < |guests| && i != me ==> guests[i] != guests[me]
    {
    }

    lemma GuestIn(i: nat)
      requires Linked() && i < |guests|
      ensures guests[i] in mem.tasks && guests[i].pageTable != 0
      ensures guests[i] in strays || FaultedOnce(guests[i].faults)
      ensures |cpu.tasks| == |guests| + 1 && cpu.tasks[i + 1].pageTable == guests[i].pageTable
    {
      assert GuestOk(i);
    }

    /** While a guest executes, the tables on the CPU are its own. */
    lemma OwnTables(page: nat)
      requires Linked() && cpu.mode.Guest?
      ensures 0 < cpu.cur <= |guests| && cpu.vttbr == (Guest().pageTable, cpu.cur)
      ensures Leaf(page) == Translation(mem, Guest(), page)
    {
      hide Vcpu.Machine.OthersOk, Vcpu.Machine.IdsOk, Memory.Valid, TreeWalk;
      GuestIn(cpu.cur - 1);
      assert cpu.Running(cpu.tasks[cpu.cur], cpu.priv[cpu.cur]);
      cpu.BlockOf(cpu.cur);
    }

    /** And the CPU's registers are those of its private CPU. */
    lemma OwnRegisters()
      requires Linked() && cpu.mode.Guest?
      ensures 0 < cpu.cur < |cpu.priv| && |cpu.el1| == Vcpu.REG_COUNT
      ensures var p := cpu.priv[cpu.cur];
              cpu.elr == p.pc && cpu.x == p.x && cpu.spsr == p.pstate && Vcpu.GuestView(cpu.el1) == p.sys
    {
      hide Memory.Valid, Vcpu.Machine.OthersOk, Vcpu.Machine.IdsOk, Vcpu.GuestView;
    }

    /** Every DRAM frame it reaches was handed out for it and that page, and no guest reaches it elsewhere. */
    lemma OwnFrames(page: nat) returns (u: nat)
      requires Linked() && cpu.mode.Guest?
      requires Leaf(page).Some? && IsDram(Leaf(page).value)
      ensures 0 < cpu.cur <= |guests| && mem.Layout() && |mem.owner| == USER_PAGES
      ensures u < USER_PAGES && Leaf(page) == Some(mem.UserAddr(u) + PTE_DRAM)
      ensures mem.owner[u] == Some(Holder(Guest(), page))
      ensures !(mem.heapStart <= mem.UserAddr(u) < mem.heapStart + 0x1000 * HEAP_PAGES)
      ensures forall i, p: nat :: 0 <= i < |guests| ==>
                (Translation(mem, guests[i], p) == Leaf(page) <==> i == cpu.cur - 1 && p == page)
    {
      hide *;
      Unlink();
      OwnTables(page);
      var me := cpu.cur - 1;
      GuestIn(me);
      u := FrameOf(me, page);
      StoreIndex(u, 0);
      forall i, p: nat | 0 <= i < |guests|
        ensures Translation(mem, guests[i], p) == Leaf(page) <==> i == me && p == page
      {
        GuestIn(i);
        if Translation(mem, guests[i], p) == Leaf(page) {
          FramesNotShared(mem, guests[i], p, guests[me], page, Leaf(page).value);
          Same(i, me);
        }
      }
    }

    lemma Same(i: nat, j: nat)
      requires Linked() && i < |guests| && j < |guests| && guests[i] == guests[j]
      ensures i == j
    {
      hide Memory.Valid, Vcpu.Machine.Valid, GuestOk;
    }

    lemma FrameOf(i: nat, page: nat) returns (u: nat)
      requires Linked() && i < |guests|
      requires Translation(mem, guests[i], page).Some? && IsDram(Translation(mem, guests[i], page).value)
      ensures mem.Layout() && |mem.owner| == USER_PAGES && u < USER_PAGES && page < S2_PAGES
      ensures Translation(mem, guests[i], page) == Some(mem.UserAddr(u) + PTE_DRAM)
      ensures mem.owner[u] == Some(Holder(guests[i], page))
      ensures !(mem.heapStart <= mem.UserAddr(u) < mem.heapStart + 0x1000 * HEAP_PAGES)
    {
      hide Memory.Valid, TreeWalk, Vcpu.Machine.Valid, IsDram, LeafOk;
      GuestIn(i);
      LeafKind(i, page);
      u := DramFrame(mem, guests[i], page, Translation(mem, guests[i], page).value);
    }

    /** A guest's leaves are those the code writes. */
    lemma LeafKind(i: nat, page: nat)
      requires Linked() && i < |guests| && Translation(mem, guests[i], page).Some?
      ensures LeafOk(Translation(mem, guests[i], page).value)
      ensures IsDram(Translation(mem, guests[i], page).value) <==>
              Translation(mem, guests[i], page).value % 0x1000 == PTE_DRAM
    {
      hide TreeWalk, LeafOk, Vcpu.Machine.Valid;
      GuestIn(i);
      Reached(mem, guests[i], page);
      assert mem.LeavesOwned(guests[i]);
      DramReads(Translation(mem, guests[i], page).value);
    }

    // A guest's own steps.

    /** The leaf of a DRAM frame, as the hardware reads it. */
    lemma StoreIndex(u: nat, a: nat)
      requires mem.Layout() && u < USER_PAGES
      ensures var d := mem.UserAddr(u) + PTE_DRAM;
              && IsDram(d) && d % 0x1000 == PTE_DRAM
              && AddressIn(d) + a % 0x1000 - mem.userStart == 0x1000 * u + a % 0x1000 < mem.user.Length
              && forall stores :: AccessBy(Some(d), stores) == Done
    {
      UserAligned(mem, u);
      LeafReads(mem.UserAddr(u), PTE_DRAM);
      Bits.Quotient(mem.UserAddr(u) + PTE_DRAM, 0x1000, mem.UserAddr(u) / 0x1000, PTE_DRAM);
      BothWays(mem.UserAddr(u) + PTE_DRAM);
    }

    /** S2AP is a bit for loads and a bit for stores. */
    lemma BothWays(d: nat)
      ensures d / 0x40 % 4 == 3 <==> d / 0x40 % 2 == 1 && d / 0x80 % 2 == 1
      ensures d / 0x40 % 4 == 0 <==> d / 0x40 % 2 == 0 && d / 0x80 % 2 == 0
    {
      Nested(d, 0x40, 2);
    }

    /** What guest i reads at b when byte a of frame u, which is page a / 0x1000 of guest me, was written. */
    lemma StoreSeen(i: nat, b: nat, me: nat, a: nat, u: nat, value: nat, bytes0: seq<nat>)
      requires Linked() && i < |guests| && me < |guests|
      requires mem.Layout() && |mem.owner| == USER_PAGES && u < USER_PAGES && |bytes0| == mem.user.Length
      requires mem.owner[u] == Some(Holder(guests[me], a / 0x1000))
      requires Translation(mem, guests[me], a / 0x1000) == Some(mem.UserAddr(u) + PTE_DRAM)
      requires 0x1000 * u + a % 0x1000 < |bytes0| && mem.user[..] == bytes0[0x1000 * u + a % 0x1000 := value]
      ensures GuestByte(i, b) ==
              if i == me && b == a then Some(value)
              else ByteBy(mem.userStart, bytes0, Translation(mem, guests[i], b / 0x1000), b)
    {
      hide Translation, Linked, Memory.Layout, AddressIn, IsDram, AccessBy;
      StoreIndex(u, a);
      var leaf := Translation(mem, guests[i], b / 0x1000);
      if leaf.Some? && IsDram(leaf.value) {
        var v := FrameOf(i, b / 0x1000);
        StoreIndex(v, b);
        if 0x1000 * v + b % 0x1000 == 0x1000 * u + a % 0x1000 {
          assert v == u;
          Same(i, me);
          SameAddress(a, b);
        }
      }
    }

    /** A store to guest DRAM: the guest finds it at that address, and no byte of any guest changes else. */
    method GuestStore(a: nat, value: nat)
      requires Linked() && cpu.mode.Guest?
      requires AccessBy(Leaf(a / 0x1000), true) == Done && IsDram(Leaf(a / 0x1000).value)
      modifies mem.user
      ensures Linked()
      ensures forall i, b: nat :: 0 <= i < |guests| ==>
                GuestByte(i, b) == if i == cpu.cur - 1 && b == a then Some(value) else old(GuestByte(i, b))
    {
      assert Leaf(a / 0x1000).Some?;
      hide Linked, Memory.Layout, Memory.UserAddr, Translation, Leaf, ByteBy, AddressIn, IsDram, AccessBy;
      Unlink();
      OwnTables(a / 0x1000);
      ghost var u := OwnFrames(a / 0x1000);
      var leaf := Leaf(a / 0x1000);
      StoreIndex(u, a);
      ghost var bytes0: seq<nat> := mem.user[..];
      mem.user[AddressIn(leaf.value) + a % 0x1000 - mem.userStart] := value;
      forall i, b: nat | 0 <= i < |guests|
        ensures GuestByte(i, b) == if i == cpu.cur - 1 && b == a then Some(value) else old(GuestByte(i, b))
      {
        StoreSeen(i, b, cpu.cur - 1, a, u, value, bytes0);
      }
    }

    /** Everything else a guest does on the CPU: its registers change, memory does not. */
    method GuestExecute(sys: seq<nat>, gprs: seq<nat>, pc: nat, pstate: nat)
      requires Linked() && cpu.mode.Guest? && |gprs| == 31 && |cpu.el1| == Vcpu.REG_COUNT
      requires Vcpu.Machine.IdsReal(sys, cpu.el1[Vcpu.MIDR_EL1], cpu.el1[Vcpu.MPIDR_EL1])
      modifies cpu
      ensures Linked() && cpu.mode.Guest? && cpu.cur == old(cpu.cur) < |old(cpu.priv)|
      ensures cpu.priv ==
              old(cpu.priv)[cpu.cur := old(cpu.priv)[cpu.cur].(sys := sys, x := gprs, pc := pc, pstate := pstate)]
    {
      hide Memory.Valid;
      cpu.GuestExecute(sys, gprs, pc, pstate);
    }

    // The hypervisor's steps on the CPU alone.

    method TrapWfx()
      requires Linked() && cpu.mode.Guest?
      modifies cpu`mode, cpu`priv, cpu.tasks`frame, cpu.tasks`sysregs
      ensures Linked() && cpu.mode == Vcpu.Hyp(Vcpu.AfterWfx) && cpu.cur < |old(cpu.priv)|
      ensures cpu.priv == old(cpu.priv[cpu.cur := cpu.priv[cpu.cur].(
                                pc := (cpu.priv[cpu.cur].pc + 4) % 0x1_0000_0000_0000_0000,
                                wfxTraps := cpu.priv[cpu.cur].wfxTraps + 1)])
    {
      hide Memory.Valid;
      cpu.TrapWfx();
    }

    /** An interrupt of the guest or of the idle loop; no private CPU changes. */
    method Interrupt()
      requires Linked() && (cpu.mode.Guest? || cpu.mode == Vcpu.Hyp(Vcpu.InitLoop))
      modifies cpu`mode, cpu.tasks`frame, cpu.tasks`sysregs
      ensures Linked() && cpu.mode == Vcpu.Hyp(if old(cpu.mode.Guest?) then Vcpu.Return else Vcpu.InitIrq)
    {
      hide Memory.Valid;
      if cpu.mode.Guest? {
        cpu.EnterHypervisor();
      } else {
        cpu.InterruptInit();
      }
    }

    method SwitchTaskTo(next: nat)
      requires Linked() && cpu.mode.Hyp? && next < |cpu.tasks|
      modifies cpu, cpu.tasks
      ensures Linked() && cpu.cur == next && cpu.priv == old(cpu.priv) && cpu.tasks == old(cpu.tasks)
      ensures cpu.mode == if next == old(cpu.cur) then old(cpu.mode) else Vcpu.Hyp(old(cpu.tasks[next].cont))
    {
      hide Memory.Valid;
      cpu.SwitchTaskTo(next);
    }

    /** Back to a guest that ran before, or to the idle loop. */
    method Resume(input: bool)
      requires Linked() && cpu.mode.Hyp? && !cpu.mode.k.Fresh?
      modifies cpu, cpu.tasks
      ensures Linked() && cpu.cur == old(cpu.cur) && cpu.priv == old(cpu.priv) && cpu.tasks == old(cpu.tasks)
      ensures if cpu.cur == Vcpu.INIT then cpu.mode == Vcpu.Hyp(Vcpu.InitLoop) else cpu.mode.Guest?
      ensures cpu.cur != Vcpu.INIT ==> cpu.cur < |cpu.priv| && cpu.elr == cpu.priv[cpu.cur].pc
      ensures cpu.cur != Vcpu.INIT ==> (Bits.Bit(cpu.hcr, 7) == 1 <==> input)
    {
      hide Memory.Valid;
      cpu.Resume(input, 0, 0);
    }

    // Steps that change memory.

    /** What a guest's tables lead to, before a change. */
    lemma ViewsAre()
      requires Linked()
      ensures mem.Layout() && |mem.owner| == USER_PAGES
      ensures forall i, p: nat :: 0 <= i < |guests| ==> Translation(mem, guests[i], p) == Seen(guests[i].view, p)
      ensures forall i :: 0 <= i < |guests| ==> mem.LeavesOwnedIn(mem.owner, guests[i], guests[i].view)
    {
      hide Translation, Memory.LeavesOwnedIn, Seen;
      forall i | 0 <= i < |guests|
        ensures forall p: nat :: Translation(mem, guests[i], p) == Seen(guests[i].view, p)
        ensures mem.LeavesOwnedIn(mem.owner, guests[i], guests[i].view)
      {
        GuestIn(i);
        ViewIs(guests[i]);
      }
    }

    lemma ViewIs(t: Task)
      requires mem.Valid() && t in mem.tasks
      ensures |mem.owner| == USER_PAGES && mem.LeavesOwnedIn(mem.owner, t, t.view)
      ensures forall p: nat :: Translation(mem, t, p) == Seen(t.view, p)
    {
      hide Memory.LeavesOwnedIn, TreeWalk;
      assert mem.LeavesOwned(t);
      forall p: nat ensures Translation(mem, t, p) == Seen(t.view, p) {
        Reached(mem, t, p);
      }
    }

    /** Bytes of frames that were handed out before are the same through an unchanged leaf. */
    lemma ByteKept(t: Task, view: map<nat, nat>, owner0: seq<Option<Holder>>, bytes0: seq<nat>, a: nat)
      requires mem.Layout() && |owner0| == USER_PAGES && |bytes0| == mem.user.Length
      requires mem.LeavesOwnedIn(owner0, t, view)
      requires forall b :: 0 <= b < |bytes0| && owner0[b / 0x1000].Some? ==> mem.user[b] == bytes0[b]
      ensures ByteBy(mem.userStart, mem.user[..], Seen(view, a / 0x1000), a) ==
              ByteBy(mem.userStart, bytes0, Seen(view, a / 0x1000), a)
    {
      hide AddressIn, IsDram, AccessBy, LeafOk;
      var leaf := Seen(view, a / 0x1000);
      if leaf.Some? {
        DramReadsAs(leaf.value);
      }
      if leaf.Some? && IsDram(leaf.value) {
        var u :| && 0 <= u < USER_PAGES && leaf.value == mem.UserAddr(u) + PTE_DRAM
                 && owner0[u] == Some(Holder(t, a / 0x1000));
        StoreIndex(u, a);
        Bits.Quotient(0x1000 * u + a % 0x1000, 0x1000, u, a % 0x1000);
      }
    }

    lemma DramReadsAs(d: nat)
      requires LeafOk(d)
      ensures IsDram(d) <==> d % 0x1000 == PTE_DRAM
    {
      hide LeafOk;
      DramReads(d);
    }

    lemma ZeroSeen(u: nat, a: nat)
      requires mem.Layout() && u < USER_PAGES && mem.FrameZero(u)
      ensures ByteBy(mem.userStart, mem.user[..], Some(mem.UserAddr(u) + PTE_DRAM), a) == Some(0)
    {
      StoreIndex(u, a);
    }

    lemma FreshKeeps(u: nat, owner0: seq<Option<Holder>>, bytes0: seq<nat>)
      requires mem.Layout() && |owner0| == USER_PAGES && u < USER_PAGES && owner0[u].None?
      requires mem.SameOutside(bytes0, u)
      ensures forall b :: 0 <= b < |bytes0| && owner0[b / 0x1000].Some? ==> mem.user[b] == bytes0[b]
    {
    }

    /**
     A translation fault of the current guest at ipa, which far stands for in its own
     translation. It is handled unless frames or heap pages have run out, and takes one frame.
     What is mapped is the page the software selects for far: from then on the guest finds
     zeros there if that page is in reach of the hardware, and all other bytes of all guests
     are as before. So the access goes through, when it is tried again, exactly if the ipa is
     in reach and lies on that page.
     */
    method HandleMemoryAccessFault(far: nat, ghost ipa: nat) returns (ok: bool)
      requires Linked() && cpu.mode.Hyp? && 0 < cpu.cur <= |guests| && far < Bits.WORD
      requires Translation(mem, Guest(), ipa / 0x1000) == None
      modifies cpu`vttbr, Guest(), this`strays
      modifies mem`use, mem`nextFree, mem`owner, mem.heapMap, mem.heap, mem.userMap, mem.user
      ensures ok <==> old(Handles(far))
      ensures ok ==> Linked() && mem.FramesLeft() + 1 == old(mem.FramesLeft())
      ensures ok ==> strays == if far / 0x1000 == ipa / 0x1000 then old(strays) else old(strays) + {Guest()}
      ensures ok ==> forall stores ::
                AccessBy(Translation(mem, Guest(), ipa / 0x1000), stores) ==
                if Cured(far, ipa) then Done else Untranslated
      ensures ok ==> forall i, a: nat :: 0 <= i < |guests| ==>
                GuestByte(i, a) == if i == cpu.cur - 1 && Cured(far, a) then Some(0) else old(GuestByte(i, a))
    {
      hide Memory.Valid, Translation, Memory.Layout, Seen, ByteBy, Missing, PageOf, Memory.FrameZero, Cured, AccessBy;
      hide Memory.SameOutside, Memory.UserAddr, Memory.LeavesOwnedIn, Handles, Memory.FramesLeft, Linked;
      ghost var t, me := guests[cpu.cur - 1], cpu.cur - 1;
      ViewsAre();
      ghost var view0, owner0, bytes0: seq<nat> := t.view, mem.owner, mem.user[..];
      ghost var u;
      ok, u := MapFaultPage(far, ipa);
      if ok {
        ViewsAre();
        FreshKeeps(u, owner0, bytes0);
        NowDone(t, far, ipa, u, view0, owner0);
        forall i, a: nat | 0 <= i < |guests|
          ensures GuestByte(i, a) == if i == me && Cured(far, a) then Some(0) else old(GuestByte(i, a))
        {
          FaultSeen(guests[i], i == me, a, far, u, old(guests[i].view), owner0, bytes0);
        }
      }
    }

    /** The handler up to FlushTlbVMID: a zeroed frame is entered for far in the guest's view. */
    method MapFaultPage(far: nat, ghost ipa: nat) returns (ok: bool, ghost u: nat)
      requires Linked() && cpu.mode.Hyp? && 0 < cpu.cur <= |guests| && far < Bits.WORD
      requires Translation(mem, Guest(), ipa / 0x1000) == None
      modifies cpu`vttbr, Guest(), this`strays
      modifies mem`use, mem`nextFree, mem`owner, mem.heapMap, mem.heap, mem.userMap, mem.user
      ensures ok <==> old(Handles(far))
      ensures ok ==> Linked() && mem.FramesLeft() + 1 == old(mem.FramesLeft())
      ensures ok ==> strays == if far / 0x1000 == ipa / 0x1000 then old(strays) else old(strays) + {Guest()}
      ensures ok ==> mem.Layout() && mem.Mapped(Guest(), far, u, mem.UserAddr(u), old(Guest().view), old(mem.owner))
      ensures ok ==> mem.FrameZero(u) && mem.SameOutside(old(mem.user[..]), u)
      ensures ok ==> forall i :: 0 <= i < |guests| && i != cpu.cur - 1 ==>
                guests[i] != Guest() && guests[i].view == old(guests[i].view)
    {
      hide Memory.Valid, Translation, Missing, PageOf, Memory.FrameZero, AddedAll, Memory.SameOutside;
      hide Memory.UserAddr, Memory.NoneLost, Memory.Mapped, Lookup;
      hide Vcpu.Machine.Valid, FaultedOnce, Memory.FramesLeft, Memory.FreePages, Linked, Distinctly;
      var t := guests[cpu.cur - 1];
      Unlink();
      GuestIn(cpu.cur - 1);
      Others(cpu.cur - 1);
      NoSecondFault(mem, t, ipa / 0x1000);
      ok, u := mem.HandleMmTrapMemoryAccessFault(t, far);
      if ok {
        cpu.FlushTlbVmid();
        strays := if far / 0x1000 == ipa / 0x1000 then strays else strays + {t};
        forall i | 0 <= i < |guests| ensures GuestOk(i) {
          assert old(GuestOk(i));
        }
        Relink();
      }
    }

    /** A frame is left, and a heap page for each table that the guest lacks for the address. */
    ghost predicate Handles(far: nat)
      requires 0 < cpu.cur <= |guests| && mem.Layout()
      reads this`guests, cpu`cur, mem`use, mem`nextFree, mem`owner, mem.heapMap
    {
      mem.FramesLeft() > 0 && mem.FreePages() >= Missing(mem.use, Guest(), PageOf(far))
    }

    lemma NowDone(t: Task, far: nat, ipa: nat, u: nat, view0: map<nat, nat>, owner0: seq<Option<Holder>>)
      requires mem.Layout() && mem.Mapped(t, far, u, mem.UserAddr(u), view0, owner0)
      requires Seen(view0, ipa / 0x1000) == None
      ensures forall stores ::
                AccessBy(Seen(t.view, ipa / 0x1000), stores) == if Cured(far, ipa) then Done else Untranslated
    {
      hide Memory.UserAddr, AddressIn, IsDram;
      StoreIndex(u, far);
    }

    /** What a guest with view0 before the fault reads after it. */
    lemma FaultSeen(t: Task, mine: bool, a: nat, far: nat, u: nat, view0: map<nat, nat>,
                    owner0: seq<Option<Holder>>, bytes0: seq<nat>)
      requires mem.Layout() && |owner0| == USER_PAGES && |bytes0| == mem.user.Length
      requires mem.LeavesOwnedIn(owner0, t, view0) && u < USER_PAGES && mem.FrameZero(u)
      requires t.view == if mine then view0[PageOf(far) := mem.UserAddr(u) + PTE_DRAM] else view0
      requires forall b :: 0 <= b < |bytes0| && owner0[b / 0x1000].Some? ==> mem.user[b] == bytes0[b]
      ensures ByteBy(mem.userStart, mem.user[..], Seen(t.view, a / 0x1000), a) ==
              if mine && Cured(far, a) then Some(0)
              else ByteBy(mem.userStart, bytes0, Seen(view0, a / 0x1000), a)
    {
      hide PageOf, Memory.FrameZero, Memory.LeavesOwnedIn, Memory.UserAddr, ByteBy;
      if mine && Cured(far, a) {
        ZeroSeen(u, a);
      } else {
        ByteKept(t, view0, owner0, bytes0, a);
      }
    }

    /** What an access of the current guest at an IPA comes to. */
    ghost function Comes(ipa: nat, i: Instruction): Access
      requires 0 < cpu.cur <= |guests|
      reads this`guests, cpu`cur, mem.heap, guests
    {
      AccessBy(Translation(mem, Guest(), ipa / 0x1000), i.stores)
    }

    /**
     HandleTrapMemAbort, for a guest that has just entered the hypervisor because of
     instruction i at ipa.
     */
    method HandleTrapMemAbort(far: nat, ghost ipa: nat, ghost i: Instruction, esr: nat, answer: nat)
      returns (ok: bool, asked: seq<Request>)
      requires Linked() && cpu.mode == Vcpu.Hyp(Vcpu.Return) && 0 < cpu.cur <= |guests| && far < Bits.WORD
      requires |cpu.Current().frame| == Vcpu.FRAME_WORDS
      requires cpu.Current().frame[Vcpu.SP] == cpu.Current().base + 0x1000
      requires Reports(esr, Comes(ipa, i), i)
      modifies cpu`vttbr, cpu`priv, cpu.Current(), Guest(), this`strays
      modifies mem`use, mem`nextFree, mem`owner, mem.heapMap, mem.heap, mem.userMap, mem.user
      ensures ok <==> old(Comes(ipa, i)).Forbidden? || (old(Comes(ipa, i)).Untranslated? && old(Handles(far)))
      ensures ok ==> Linked()
      ensures ok && old(Comes(ipa, i)).Untranslated? ==> Served(old(cpu.priv), old(mem.FramesLeft()), far, ipa)
      ensures old(Comes(ipa, i)).Forbidden? ==>
                Replaced(old(cpu.priv), cpu.priv, cpu.cur, cpu.Current().base + 0x1000, asked, far, ipa, i, answer)
      ensures ok ==> forall j, a: nat :: 0 <= j < |guests| ==>
                GuestByte(j, a) ==
                if old(Comes(ipa, i)).Untranslated? && j == cpu.cur - 1 && Cured(far, a) then Some(0)
                else old(GuestByte(j, a))
    {
      hide Memory.Valid, Translation, Memory.Layout, ByteBy, Handles, Cured, TransferRegister, IsRead, Fits, OnArm;
      asked := [];
      Fields(esr, Comes(ipa, i), i);
      hide Reports, AccessBy;
      if FaultStatus(esr) == TRANSLATION_FAULT {
        NoLeaf(ipa, i);
        ok := HandleMemoryAccessFault(far, ipa);
      } else if FaultStatus(esr) == PERMISSION_FAULT {
        ghost var priv0 := cpu.priv;
        asked := cpu.HandleMmTrapRegisterAccess(far, TransferRegister(esr), IsRead(esr), answer);
        ReplacedBy(priv0, cpu.priv, cpu.cur, cpu.Current().base + 0x1000, asked, far, ipa, i, TransferRegister(esr),
                   answer);
        ok := true;
      } else {
        ok := false;
      }
    }

    /** What the code takes from the syndrome is what the hardware put there. */
    lemma Fields(esr: nat, access: Access, i: Instruction)
      requires Reports(esr, access, i)
      ensures FaultStatus(esr) == TRANSLATION_FAULT <==> access.Untranslated?
      ensures FaultStatus(esr) == PERMISSION_FAULT <==> access.Forbidden?
      ensures Describes(esr, i) && (IsRead(esr) <==> !i.stores)
      ensures i.Single? ==> TransferRegister(esr) == i.register
    {
      var q, l := esr / 0x40, esr % 0x40;
      Bits.Recompose(esr, 0x40);
      Bits.Quotient(esr, 4, q * 0x10 + l / 4, l % 4);
      Bits.Quotient(q * 0x10 + l / 4, 0x10, q, l / 4);
    }

    /** Only a walk that ends on no leaf leaves an access untranslated. */
    lemma NoLeaf(ipa: nat, i: Instruction)
      requires 0 < cpu.cur <= |guests|
      ensures Comes(ipa, i).Untranslated? <==> Translation(mem, Guest(), ipa / 0x1000) == None
    {
    }

    /** The page fault was handled: the guest's CPU is as it was, and a frame is taken for far. */
    ghost predicate Served(priv0: seq<Vcpu.Private>, frames0: nat, far: nat, ipa: nat)
      requires 0 < cpu.cur <= |guests| && mem.Layout()
      reads this`guests, cpu`cur, cpu`priv, mem.heap, mem`nextFree, mem`owner, guests
    {
      && cpu.priv == priv0 && mem.FramesLeft() + 1 == frames0
      && forall stores ::
           AccessBy(Translation(mem, Guest(), ipa / 0x1000), stores) == if Cured(far, ipa) then Done else Untranslated
    }

    /**
     The access was emulated: the device is asked once, for what the instruction is (its
     register being the guest's sp where that is the zero register), only a load changes a
     register, the pc moves by 4; and when all of that is what an Arm CPU does.
     */
    static ghost predicate Replaced(priv0: seq<Vcpu.Private>, priv: seq<Vcpu.Private>, cur: nat, sp: nat,
                                    asked: seq<Request>, far: nat, ipa: nat, i: Instruction, answer: nat) {
      && cur < |priv0| == |priv| && |priv0[cur].x| == 31 && i.Valid()
      && var p, x := priv0[cur], priv[cur].x;
         && priv == priv0[cur := p.(x := x, pc := (p.pc + 4) % 0x1_0000_0000_0000_0000, mmios := p.mmios + 1)]
         && |asked| == 1 && asked[0].addr == far && (asked[0].Store? <==> i.stores)
         && (i.stores ==> x == p.x)
         && (i.Single? && i.stores ==> asked[0].value == if i.register == 31 then sp else p.x[i.register])
         && (i.Single? && !i.stores ==> x == if i.register == 31 then p.x else p.x[i.register := answer])
         && forall next: nat :: Effect(x, asked) == OnArm(i, p.x, ipa, answer, next) <==>
                                far == ipa && i.Single? && Fits(i, p.x, answer)
    }

    static lemma ReplacedBy(priv0: seq<Vcpu.Private>, priv: seq<Vcpu.Private>, cur: nat, sp: nat,
                            asked: seq<Request>, far: nat, ipa: nat, i: Instruction, srt: nat, answer: nat)
      requires cur < |priv0| == |priv| && |priv0[cur].x| == 31 && i.Valid() && sp > 0
      requires srt < 32 && (i.Single? ==> srt == i.register)
      requires var p, x := priv0[cur], priv[cur].x;
               && priv == priv0[cur := p.(x := x, pc := (p.pc + 4) % 0x1_0000_0000_0000_0000, mmios := p.mmios + 1)]
               && asked == [if i.stores then Store(far, if srt == 31 then sp else p.x[srt]) else Load(far)]
               && x == if i.stores || srt == 31 then p.x else p.x[srt := answer]
      ensures Replaced(priv0, priv, cur, sp, asked, far, ipa, i, answer)
    {
      hide OnArm, Fits, Emulated;
      var p, x := priv0[cur], priv[cur].x;
      Vcpu.Machine.AskedOnce(p.x, sp, far, srt, !i.stores, answer);
      forall next: nat
        ensures Effect(x, asked) == OnArm(i, p.x, ipa, answer, next) <==>
                far == ipa && i.Single? && Fits(i, p.x, answer)
      {
        if i.Single? {
          SingleIff(i, p.x, sp, far, ipa, answer, next);
        } else {
          HowMany(i, p.x, sp, far, ipa, srt, !i.stores, answer, next);
        }
      }
    }

    /**
     A data abort of the executing guest. A page fault changes nothing the guest can see of
     its CPU, and leaves zeros where the access goes through when it is tried again.
     */
    method DataAbort(far: nat, ghost ipa: nat, ghost i: Instruction, esr: nat, answer: nat)
      returns (ok: bool, asked: seq<Request>)
      requires Linked() && cpu.mode.Guest? && far < Bits.WORD
      requires Reports(esr, AccessBy(Leaf(ipa / 0x1000), i.stores), i)
      modifies cpu`mode, cpu`vttbr, cpu`priv, cpu.tasks, guests, this`strays
      modifies mem`use, mem`nextFree, mem`owner, mem.heapMap, mem.heap, mem.userMap, mem.user
      ensures 0 < cpu.cur <= |guests|
      ensures var access := old(AccessBy(Leaf(ipa / 0x1000), i.stores));
              && (ok <==> access.Forbidden? || (access.Untranslated? && old(Handles(far))))
              && (ok ==> Linked() && cpu.mode == Vcpu.Hyp(Vcpu.Return))
              && (ok && access.Untranslated? ==> Served(old(cpu.priv), old(mem.FramesLeft()), far, ipa))
              && (access.Forbidden? ==>
                  cpu.cur < |cpu.tasks| &&
                  Replaced(old(cpu.priv), cpu.priv, cpu.cur, cpu.Current().base + 0x1000, asked, far, ipa, i, answer))
      ensures ok ==> forall j, a: nat :: 0 <= j < |guests| ==>
                GuestByte(j, a) ==
                if old(AccessBy(Leaf(ipa / 0x1000), i.stores)).Untranslated? && j == cpu.cur - 1 && Cured(far, a)
                then Some(0) else old(GuestByte(j, a))
    {
      hide Memory.Valid, Translation, Memory.Layout, ByteBy, Handles, Cured, TransferRegister, IsRead, Replaced;
      hide Leaf, AccessBy, Reports, Served, Memory.FramesLeft;
      OwnTables(ipa / 0x1000);
      cpu.EnterHypervisor();
      ok, asked := HandleTrapMemAbort(far, ipa, i, esr, answer);
    }

    /** The same, up to where the guest goes on. */
    method ServeAbort(far: nat, ghost ipa: nat, ghost i: Instruction, esr: nat, answer: nat, input: bool)
      returns (ok: bool, asked: seq<Request>)
      requires Linked() && cpu.mode.Guest? && far < Bits.WORD
      requires Reports(esr, AccessBy(Leaf(ipa / 0x1000), i.stores), i)
      modifies cpu, cpu.tasks, guests, this`strays
      modifies mem`use, mem`nextFree, mem`owner, mem.heapMap, mem.heap, mem.userMap, mem.user
      ensures 0 < cpu.cur == old(cpu.cur) <= |guests| && cpu.tasks == old(cpu.tasks)
      ensures var access := old(AccessBy(Leaf(ipa / 0x1000), i.stores));
              && (ok <==> access.Forbidden? || (access.Untranslated? && old(Handles(far))))
              && (ok ==> Linked() && cpu.mode.Guest? && (Bits.Bit(cpu.hcr, 7) == 1 <==> input))
              && (ok && access.Untranslated? ==>
                  && cpu.priv == old(cpu.priv) && mem.FramesLeft() + 1 == old(mem.FramesLeft())
                  && forall stores ::
                       AccessBy(Leaf(ipa / 0x1000), stores) == if Cured(far, ipa) then Done else Untranslated)
              && (access.Forbidden? ==>
                  cpu.cur < |cpu.tasks| &&
                  Replaced(old(cpu.priv), cpu.priv, cpu.cur, cpu.Current().base + 0x1000, asked, far, ipa, i, answer))
      ensures ok ==> forall j, a: nat :: 0 <= j < |guests| ==>
                GuestByte(j, a) ==
                if old(AccessBy(Leaf(ipa / 0x1000), i.stores)).Untranslated? && j == cpu.cur - 1 && Cured(far, a)
                then Some(0) else old(GuestByte(j, a))
    {
      hide Memory.Valid, Translation, Leaf, ByteBy, Handles, Cured, Replaced, Vcpu.Machine.Valid, Linked;
      hide Memory.FramesLeft, Reports, AccessBy;
      OwnTables(ipa / 0x1000);
      ok, asked := DataAbort(far, ipa, i, esr, answer);
      if ok {
        Resume(input);
        OwnTables(ipa / 0x1000);
      }
    }

    /**
     A page fault as the guest sees it: it goes on with its registers as they were, and by the
     tables on the CPU the access goes through, to a page that reads as zeros, exactly if the
     ipa is in reach of the hardware and on the page that was mapped. If not, it faults again.
     */
    method ServePageFault(far: nat, ghost ipa: nat, ghost i: Instruction, esr: nat, input: bool) returns (ok: bool)
      requires Linked() && cpu.mode.Guest? && far < Bits.WORD
      requires Leaf(ipa / 0x1000) == None && Reports(esr, Untranslated, i)
      modifies cpu, cpu.tasks, guests, this`strays
      modifies mem`use, mem`nextFree, mem`owner, mem.heapMap, mem.heap, mem.userMap, mem.user
      ensures 0 < cpu.cur == old(cpu.cur) <= |guests| && cpu.tasks == old(cpu.tasks)
      ensures ok <==> old(Handles(far))
      ensures ok ==> Linked() && cpu.mode.Guest? && cpu.priv == old(cpu.priv)
      ensures ok ==> mem.FramesLeft() + 1 == old(mem.FramesLeft())
      ensures ok ==> forall stores ::
                AccessBy(Leaf(ipa / 0x1000), stores) == if Cured(far, ipa) then Done else Untranslated
      ensures ok ==> forall j, a: nat :: 0 <= j < |guests| ==>
                GuestByte(j, a) == if j == cpu.cur - 1 && Cured(far, a) then Some(0) else old(GuestByte(j, a))
    {
      hide Memory.Valid, Translation, Leaf, ByteBy, Handles, Cured, Replaced, Vcpu.Machine.Valid, Linked;
      hide Memory.FramesLeft, Reports;
      OwnTables(ipa / 0x1000);
      var asked;
      ok, asked := ServeAbort(far, ipa, i, esr, 0, input);
    }

    /**
     An access that is not cured faults again each time it is tried, and takes a frame each
     time: after as many tries as there are frames the hypervisor stops.
     */
    method FaultsAgain(far: nat, ghost ipa: nat, ghost i: Instruction, esr: nat, inputs: seq<bool>) returns (ok: bool)
      requires Linked() && cpu.mode.Guest? && far < Bits.WORD && !Cured(far, ipa)
      requires Leaf(ipa / 0x1000) == None && Reports(esr, Untranslated, i)
      modifies cpu, cpu.tasks, guests, this`strays
      modifies mem`use, mem`nextFree, mem`owner, mem.heapMap, mem.heap, mem.userMap, mem.user
      ensures ok ==> Linked() && cpu.mode.Guest? && cpu.cur == old(cpu.cur) && cpu.priv == old(cpu.priv)
      ensures ok ==> AccessBy(Leaf(ipa / 0x1000), i.stores) == Untranslated
      ensures ok ==> mem.FramesLeft() + |inputs| == old(mem.FramesLeft())
      ensures |inputs| > old(mem.FramesLeft()) ==> !ok
    {
      hide Linked, Leaf, Cured, Memory.FramesLeft, Handles, Memory.Layout, Vcpu.Machine.Valid, Reports;
      ok := true;
      for n := 0 to |inputs|
        invariant ok ==> Linked() && cpu.mode.Guest? && cpu.cur == old(cpu.cur) && cpu.priv == old(cpu.priv)
        invariant cpu.tasks == old(cpu.tasks)
        invariant ok ==> Leaf(ipa / 0x1000) == None && mem.FramesLeft() + n == old(mem.FramesLeft())
      {
        if ok {
          ok := ServePageFault(far, ipa, i, esr, inputs[n]);
          if ok {
            StillNone(ipa);
          }
        }
      }
    }

    lemma StillNone(ipa: nat)
      requires forall stores :: AccessBy(Leaf(ipa / 0x1000), stores) == Untranslated
      ensures Leaf(ipa / 0x1000) == None
    {
      assert AccessBy(Leaf(ipa / 0x1000), true) == Untranslated;
    }

    // New guests.

    /** Sched::CreateTask: the tables built for the guest are the ones its CPU part names. */
    method CreateGuest() returns (ok: bool)
      requires Linked() && cpu.mode == Vcpu.Hyp(Vcpu.InitLoop)
      modifies this`guests, cpu`tasks, cpu`template, cpu`priv, mem`use, mem`tasks, mem.heapMap, mem.heap
      ensures ok <==> old(mem.FreePages()) >= 10
      ensures ok ==> Linked() && |guests| == |old(guests)| + 1 && guests[..|old(guests)|] == old(guests)
      ensures ok ==> var base := cpu.tasks[|guests|].base; mem.heapStart <= base < mem.heapStart + 0x1000 * HEAP_PAGES
      ensures ok ==> forall p: nat ::
                var leaf := Translation(mem, guests[|old(guests)|], p);
                if 0x8000 <= p < 0x8010 || p == 0x9000 then leaf.Some? && IsPage(leaf.value, p, 0, 0)
                else if 0x8010 <= p < 0x8012 then leaf.Some? && IsPage(leaf.value, p + 0x30, 0, 3)
                else leaf == None
      ensures ok ==> forall i, a: nat :: 0 <= i < |old(guests)| ==> GuestByte(i, a) == old(GuestByte(i, a))
      ensures ok ==> forall a: nat :: GuestByte(|old(guests)|, a) == None
    {
      hide Memory.Valid, Translation, Memory.Layout, Lookup, ByteBy, PageOf, Vcpu.Machine.Valid, Memory.NoneLost;
      hide Memory.DeviceLeaf, Memory.FreePages, Memory.LeavesOwnedIn, IsPage, IsDram, AddressIn;
      Unlink();
      ViewsAre();
      ghost var n := |guests|;
      var t, base := mem.CreateTask();
      ok := t != null;
      if ok {
        var vcpu := cpu.CreateTask(base, t.pageTable);
        guests := guests + [t];
        forall i | 0 <= i < |guests| ensures GuestOk(i) {
          assert i < n ==> old(GuestOk(i));
        }
        ViewsAre();
        forall p: nat
          ensures var leaf := Translation(mem, guests[n], p);
                  if 0x8000 <= p < 0x8010 || p == 0x9000 then leaf.Some? && IsPage(leaf.value, p, 0, 0)
                  else if 0x8010 <= p < 0x8012 then leaf.Some? && IsPage(leaf.value, p + 0x30, 0, 3)
                  else leaf == None
          ensures Translation(mem, guests[n], p) == mem.DeviceLeaf(p)
        {
          DevicesSeen(guests[n].view, p);
          mem.DeviceRead(p);
        }
        forall a: nat ensures GuestByte(n, a) == None {
          NoDram(a);
        }
      }
    }

    /** All devices are in reach. */
    lemma DevicesSeen(view: map<nat, nat>, page: nat)
      requires page < IPA_PAGES ==> Lookup(view, page) == mem.DeviceLeaf(page)
      ensures Seen(view, page) == mem.DeviceLeaf(page)
    {
    }

    lemma NoDram(a: nat)
      ensures ByteBy(mem.userStart, mem.user[..], mem.DeviceLeaf(a / 0x1000), a) == None
    {
      var page := a / 0x1000;
      Bits.Quotient(0x1000 * page + PTE_DEVICE_NO_ACCESS, 0x1000, page, PTE_DEVICE_NO_ACCESS);
      Bits.Quotient(0x1000 * page + 0x3_0000 + PTE_DEVICE_ACCESS, 0x1000, page + 0x30, PTE_DEVICE_ACCESS);
    }

    /**
     Guest i finds the first n sectors of a disk, and zeros up to the end of the last page, from
     va, rounded down to a page, on: at every address that is in reach of the hardware.
     */
    ghost predicate ImageAt(i: nat, va: nat, disk: seq<seq<nat>>, n: nat)
      requires i < |guests| && n <= |disk| && Blk.DiskOk(disk)
      reads this`guests, mem.heap, mem.user, guests
    {
      forall x: nat :: x < 0x1000 * ((n + 7) / 8) ==>
        var a := Loader.ImageAddress(va, x);
        && a == (va / 0x1000 * 0x1000 + x) % 0x1_0000_0000_0000_0000
        && GuestByte(i, a) == if a >= 0x10_0000_0000 then None
                              else Some(if x < 512 * n then disk[x / 512][x % 512] else 0)
    }

    /** The loader fills the current guest's memory. */
    method LoadGuest(blk: Blk.VirtioBlk, va: nat) returns (ok: bool)
      requires Linked() && va < Bits.WORD && blk.Quiet() && Loader.Apart(mem, blk) && 0 < cpu.cur <= |guests|
      modifies Guest(), mem`use, mem`nextFree, mem`owner, mem.heapMap, mem.heap, mem.userMap, mem.user
      modifies blk, blk.descs, blk.availRing, blk.usedRing, blk.data
      ensures ok <==>
              old(Loader.Enough(mem, Guest(), va, Loader.PageCount(Blk.Sectors(blk.config)))) &&
              !Loader.Fails(blk.oracle, old(blk.transfers), old(blk.transfers) + Blk.Sectors(blk.config))
      ensures ok ==> Linked() && blk.Quiet()
      ensures ok ==> Blk.Sectors(blk.config) <= |blk.disk| && Blk.DiskOk(blk.disk) && blk.disk == old(blk.disk)
      ensures ok ==> ImageAt(cpu.cur - 1, va, blk.disk, Blk.Sectors(blk.config))
      ensures ok ==> forall i, a: nat :: 0 <= i < |guests| && i != cpu.cur - 1 ==>
                GuestByte(i, a) == old(GuestByte(i, a))
    {
      hide Memory.Valid, Translation, Memory.Layout, Lookup, ByteBy, PageOf, Vcpu.Machine.Valid, Memory.NoneLost;
      hide Memory.LeavesOwnedIn, Loader.Enough, Loader.Fails, Loader.Progress, Loader.Spent, Loader.Now, Loader.Apart;
      hide Loader.PageCount, Loader.AllFresh, Blk.VirtioBlk.Quiet, ImageAt, Blk.DiskOk;
      hide Seen, FaultedOnce;
      var t, me := guests[cpu.cur - 1], cpu.cur - 1;
      Unlink();
      ViewsAre();
      GuestIn(me);
      DiskSizes(blk);
      ghost var bytes0: seq<nat>, view0, owner0 := mem.user[..], t.view, mem.owner;
      var r;
      ghost var frames;
      r, frames := Loader.LoadFile(mem, blk, t, va);
      ok := r.Loaded?;
      if ok {
        forall i | 0 <= i < |guests| ensures GuestOk(i) {
          assert old(GuestOk(i));
        }
        Relink();
        ViewsAre();
        ImageSeen(me, va, blk, frames, bytes0, view0, owner0);
        OthersSame(blk, t, va, frames, bytes0, view0, owner0);
        forall i, a: nat | 0 <= i < |guests| && i != me
          ensures GuestByte(i, a) == old(GuestByte(i, a))
        {
          ByteKept(guests[i], guests[i].view, owner0, bytes0, a);
        }
      }
    }

    /**
     The first run of a guest: LoadTaskImage with the loader, then its first instruction. The
     guest finds the image behind va, rounded down to a page, as far as that is in reach of the
     hardware, and every other guest is as it was.
     */
    method StartGuest(blk: Blk.VirtioBlk, va: nat, entry: nat, stack: nat, input: bool) returns (ok: bool)
      requires Linked() && cpu.mode == Vcpu.Hyp(Vcpu.Fresh) && va < Bits.WORD && blk.Quiet() && Loader.Apart(mem, blk)
      requires 0 < cpu.cur <= |guests|
      modifies cpu, cpu.tasks, guests
      modifies mem`use, mem`nextFree, mem`owner, mem.heapMap, mem.heap, mem.userMap, mem.user
      modifies blk, blk.descs, blk.availRing, blk.usedRing, blk.data
      ensures ok <==>
              old(Loader.Enough(mem, Guest(), va, Loader.PageCount(Blk.Sectors(blk.config)))) &&
              !Loader.Fails(blk.oracle, old(blk.transfers), old(blk.transfers) + Blk.Sectors(blk.config))
      ensures ok ==> Linked() && cpu.mode.Guest? && 0 < cpu.cur == old(cpu.cur) < |old(cpu.priv)| && blk.Quiet()
      ensures cpu.tasks == old(cpu.tasks)
      ensures ok ==>
                cpu.priv ==
                old(cpu.priv)[cpu.cur := old(cpu.priv[cpu.cur]).(pc := entry, pstate := cpu.priv[cpu.cur].pstate)]
      ensures ok ==> cpu.priv[cpu.cur].pstate % 0x40 == 5 && cpu.priv[cpu.cur].pstate / 0x40 == 15
      ensures ok ==> (Bits.Bit(cpu.hcr, 7) == 1 <==> input)
      ensures ok ==> Blk.Sectors(blk.config) <= |blk.disk| && Blk.DiskOk(blk.disk) && blk.disk == old(blk.disk)
      ensures ok ==> ImageAt(cpu.cur - 1, va, blk.disk, Blk.Sectors(blk.config))
      ensures ok ==> forall i, a: nat :: 0 <= i < |guests| && i != cpu.cur - 1 ==>
                GuestByte(i, a) == old(GuestByte(i, a))
    {
      hide Memory.Valid, Translation, Memory.Layout, ByteBy, Vcpu.Machine.Valid, Loader.Enough, Loader.Fails;
      hide Loader.PageCount, Blk.VirtioBlk.Quiet, ImageAt, Blk.DiskOk, Linked, GuestOk;
      hide Blk.Sectors, Distinctly, Loader.Apart, Vcpu.Machine.Running;
      Unlink();
      ok := LoadGuest(blk, va);
      if ok {
        Unlink();
        cpu.Resume(input, entry, stack);
        Relink();
      }
    }

    lemma DiskSizes(blk: Blk.VirtioBlk)
      requires blk.Quiet()
      ensures Blk.Sectors(blk.config) <= |blk.disk| && Blk.DiskOk(blk.disk)
    {
    }

    lemma OthersSame(blk: Blk.VirtioBlk, t: Task, va: nat, frames: seq<nat>,
                     bytes0: seq<nat>, view0: map<nat, nat>, owner0: seq<Option<Holder>>)
      requires Blk.Sectors(blk.config) <= |blk.disk| && Blk.DiskOk(blk.disk)
      requires Loader.Progress(mem, t, va, blk.disk, Blk.Sectors(blk.config), frames, bytes0, view0, owner0)
      ensures |owner0| == USER_PAGES && |bytes0| == mem.user.Length
      ensures forall b :: 0 <= b < |bytes0| && owner0[b / 0x1000].Some? ==> mem.user[b] == bytes0[b]
    {
    }

    /** What the guest reads where its image was loaded. */
    lemma ImageSeen(me: nat, va: nat, blk: Blk.VirtioBlk, frames: seq<nat>,
                    bytes0: seq<nat>, view0: map<nat, nat>, owner0: seq<Option<Holder>>)
      requires me < |guests| && mem.Valid() && guests[me] in mem.tasks
      requires Blk.Sectors(blk.config) <= |blk.disk| && Blk.DiskOk(blk.disk)
      requires Loader.Progress(mem, guests[me], va, blk.disk, Blk.Sectors(blk.config), frames, bytes0, view0, owner0)
      requires |frames| == Loader.PageCount(Blk.Sectors(blk.config))
      ensures ImageAt(me, va, blk.disk, Blk.Sectors(blk.config))
    {
      hide Memory.Valid, Loader.Progress, Translation, Loader.ImagePage, Blk.Sectors, PageOf, IsDram, AddressIn;
      ghost var n := Blk.Sectors(blk.config);
      forall x: nat | x < 0x1000 * Loader.PageCount(n)
        ensures var a := Loader.ImageAddress(va, x);
                GuestByte(me, a) == if a >= 0x10_0000_0000 then None
                                    else Some(if x < 512 * n then blk.disk[x / 512][x % 512] else 0)
      {
        hide Loader.PageCount, Loader.ImageAddress;
        ValidLayout();
        var u := Loader.ImageVisible(mem, guests[me], va, blk.disk, n, frames, x, bytes0, view0, owner0);
        Loader.AddressParts(va, x);
        StoreIndex(u, Loader.ImageAddress(va, x));
      }
    }

    lemma ValidLayout()
      requires mem.Valid()
      ensures mem.Layout()
    {
    }
  }
}
