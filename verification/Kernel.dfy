/**
 The kernel as a whole (src/kernel/kernel_main.cc, src/arch/arm64/irq/vectors.S): the
 scheduler of Sched decides which guest of Hypervisor goes on. Every task has priority 1
 and stays RUNNING, as CreateTask makes it; nothing in the source calls ExitTask.
 */
module Kernel {
  import opened Hypervisor
  import opened Sched
  import opened Syndrome
  import opened Wrappers

  import Bits
  import Blk = VirtioBlk
  import Loader
  import Vcpu

  /** Where the loader of a guest that never ran puts its image, and where that starts. */
  datatype Image = Image(va: nat, entry: nat, stack: nat)

  class Kernel {
    const hyp: Hypervisor
    const sched: Sched
    // Since the last guest was created: where the scheduler stood, what happened, and who was on the CPU after it.
    ghost var start: State
    ghost var events: seq<Event>
    ghost var ran: seq<nat>

    /** The scheduler's tasks are the hypervisor's, and its current task is the one on the CPU. */
    ghost predicate Joined()
      reads this, hyp, hyp.mem, hyp.mem.heapMap, hyp.mem.heap, hyp.mem.userMap, hyp.mem.tasks, hyp.guests
      reads hyp.cpu, hyp.cpu.tasks, sched, sched.tsks, sched.tasks
    {
      && hyp.Linked() && sched.Valid() && |sched.all| == |hyp.guests| + 1 && sched.cur.pid == hyp.cpu.cur
      && (hyp.cpu.mode.Guest? || hyp.cpu.mode == Vcpu.Hyp(Vcpu.InitLoop))
    }

    /** Who was on the CPU after each event, as the scheduler has it. */
    static ghost predicate RanBy(k: Config, start: State, events: seq<Event>, ran: seq<nat>)
      requires Sound(k, start)
    {
      |ran| == |events| && forall n :: 0 <= n < |ran| ==> ran[n] == Run(k, start, events[..n + 1]).cur
    }

    /** From start the events led to s. */
    static ghost predicate Led(k: Config, start: State, events: seq<Event>, ran: seq<nat>, s: State): (b: bool)
      ensures b ==> Sound(k, s)
    {
      Sound(k, start) && Equals(k) && s == Run(k, start, events) && RanBy(k, start, events, ran)
    }

    ghost predicate Valid()
      reads this, hyp, hyp.mem, hyp.mem.heapMap, hyp.mem.heap, hyp.mem.userMap, hyp.mem.tasks, hyp.guests
      reads hyp.cpu, hyp.cpu.tasks, sched, sched.tsks, sched.tasks
    {
      Joined() && Led(sched.Fixed(), start, events, ran, sched.Now())
    }

    /** Boot: the init task alone, in its idle loop. */
    constructor (hyp: Hypervisor, sched: Sched)
      requires hyp.Linked() && hyp.guests == [] && hyp.cpu.mode == Vcpu.Hyp(Vcpu.InitLoop)
      requires sched.Valid() && sched.all == [sched.cur] && sched.running == [true] && sched.priorities == [1]
      ensures Valid() && this.hyp == hyp && this.sched == sched && events == []
    {
      this.hyp, this.sched := hyp, sched;
      start, events, ran := sched.Now(), [], [];
    }

    /**
     Sched::CreateTask: the task is registered under the pid that its guest has, with time for
     one turn. The idle loop then gives the CPU to the first guest that has time left.
     */
    method CreateGuest() returns (ok: bool)
      requires Valid() && hyp.cpu.mode == Vcpu.Hyp(Vcpu.InitLoop) && |hyp.guests| + 1 < NR_TASKS
      modifies this, hyp`guests, hyp.cpu`tasks, hyp.cpu`template, hyp.cpu`priv, hyp.mem`use, hyp.mem`tasks
      modifies hyp.mem.heapMap, hyp.mem.heap, sched, sched.tsks
      ensures ok <==> old(hyp.mem.FreePages()) >= 10
      ensures ok ==> Valid() && |hyp.guests| == |old(hyp.guests)| + 1 && events == []
      ensures ok ==> sched.counters == old(sched.counters) + [1] && sched.cur == old(sched.cur)
      ensures ok ==> var next := Choice(sched.Fixed(), sched.Now()).next;
              && 0 < next < |sched.counters| && sched.counters[next] == 1
              && forall j :: 0 < j < next ==> sched.counters[j] == 0
    {
      hide Hypervisor.Linked, Sched.Valid, Run, Vcpu.Machine.Valid;
      hyp.InitIdles();
      ok := hyp.CreateGuest();
      if ok {
        ghost var n := |sched.counters|;
        Register();
        FirstTurn(n);
      }
    }

    /** AddTask for the guest created last. */
    method Register()
      requires hyp.Linked() && sched.Valid()
      requires |sched.all| == |hyp.guests| < NR_TASKS && sched.cur.pid == hyp.cpu.cur && Equals(sched.Fixed())
      requires hyp.cpu.mode == Vcpu.Hyp(Vcpu.InitLoop)
      modifies this, sched, sched.tsks
      ensures Valid() && events == []
      ensures sched.counters == old(sched.counters) + [1] && sched.cur == old(sched.cur)
    {
      hide Hypervisor.Linked, Sched.Recorded, Run, InRange;
      var tsk := new Tcb(1, 1);
      var pid := sched.AddTask(tsk);
      start, events, ran := sched.Now(), [], [];
      NoEvents(sched.Fixed(), start);
    }

    lemma FirstTurn(i: nat)
      requires Valid() && hyp.cpu.cur == 0 && 0 < i == |sched.counters| - 1 && sched.counters[i] == 1
      ensures var next := Choice(sched.Fixed(), sched.Now()).next;
              && 0 < next < |sched.counters| && sched.counters[next] == 1
              && forall j :: 0 < j < next ==> sched.counters[j] == 0
    {
      hide Hypervisor.Linked, Sched.Valid, Choice, Run, RanBy;
      Bounds();
      Counts();
      InitYields(sched.Fixed(), sched.Now(), i);
    }

    lemma Counts()
      requires Valid()
      ensures |sched.counters| == |sched.all| == |hyp.guests| + 1
    {
      hide Hypervisor.Linked, Run, RanBy;
    }

    /** From the idle loop the first guest that has time is selected, not the init task. */
    static lemma InitYields(k: Config, s: State, i: nat)
      requires Sound(k, s) && Equals(k) && s.cur == 0 && i + 1 == |s.counters| && s.counters[i] == 1
      requires i > 0
      ensures var next := Choice(k, s).next;
              && 0 < next < |s.counters| && s.counters[next] == 1
              && forall j :: 0 < j < next ==> s.counters[j] == 0
    {
      var counters := s.counters[0 := 0];
      DecideMeans(k.running, counters, k.priorities);
      assert k.running[i] && counters[i] == 1;
    }

    static lemma NoEvents(k: Config, s: State)
      requires Sound(k, s)
      ensures Run(k, s, []) == s
    {
    }

    /** The guests that never ran, by pid. */
    ghost function NeverRan(): set<nat>
      reads hyp.cpu`cur, hyp.cpu`tasks, hyp.cpu.tasks`cont
    {
      set i: nat | 0 < i < |hyp.cpu.tasks| && i != hyp.cpu.cur && hyp.cpu.tasks[i].cont.Fresh?
    }

    /** The guests for whose image there are frames, and heap pages for the tables it needs. */
    ghost function Room(blk: Blk.VirtioBlk, va: nat): set<int>
      reads hyp`guests, hyp.mem`nextFree, hyp.mem`owner, hyp.mem`use, hyp.mem.heapMap
    {
      set i | 0 <= i < |hyp.guests| &&
              Loader.Enough(hyp.mem, hyp.guests[i], va, Loader.PageCount(Blk.Sectors(blk.config)))
    }

    /** Every byte that a guest (the first of the pair) finds at an address (the second). */
    ghost function Bytes(): imap<(nat, nat), Option<nat>>
      reads hyp`guests, hyp.mem.heap, hyp.mem.user, hyp.guests
    {
      imap p: (nat, nat) | p.0 < |hyp.guests| :: hyp.GuestByte(p.0, p.1)
    }

    /**
     The CPU has gone to a task. A guest that never ran starts at its entry, in EL1h with all
     interrupts masked, and finds its image; everything else of the guests is as it was.
     */
    ghost predicate WentTo(next: nat, priv0: seq<Vcpu.Private>, fresh0: set<nat>, bytes0: imap<(nat, nat), Option<nat>>,
                           blk: Blk.VirtioBlk, disk0: seq<seq<nat>>, image: Image, input: bool)
      reads hyp`guests, hyp.mem.heap, hyp.mem.user, hyp.guests, hyp.cpu`cur, hyp.cpu`mode, hyp.cpu`priv, hyp.cpu`hcr
    {
      && hyp.cpu.cur == next < |priv0| == |hyp.cpu.priv|
      && (if next == Vcpu.INIT then hyp.cpu.mode == Vcpu.Hyp(Vcpu.InitLoop)
          else hyp.cpu.mode.Guest? && (Bits.Bit(hyp.cpu.hcr, 7) == 1 <==> input))
      && if next in fresh0 then
           && 0 < next <= |hyp.guests| && Blk.Sectors(blk.config) <= |disk0| && Blk.DiskOk(disk0)
           && hyp.cpu.priv[next] == priv0[next].(pc := image.entry, pstate := hyp.cpu.priv[next].pstate)
           && hyp.cpu.priv[next].pstate % 0x40 == 5 && hyp.cpu.priv[next].pstate / 0x40 == 15
           && hyp.ImageAt(next - 1, image.va, disk0, Blk.Sectors(blk.config))
           && (forall i :: 0 <= i < |priv0| && i != next ==> hyp.cpu.priv[i] == priv0[i])
           && (forall p :: p in bytes0 && p.0 != next - 1 ==> p in Bytes() && Bytes()[p] == bytes0[p])
         else hyp.cpu.priv == priv0 && Bytes() == bytes0
    }

    /** The CPU goes to a task. If it never ran it loads its image; blk is the queue that the loader sets up. */
    method SwitchTo(next: nat, blk: Blk.VirtioBlk, image: Image, input: bool) returns (ok: bool)
      requires hyp.Linked() && hyp.cpu.mode.Hyp? && !hyp.cpu.mode.k.Fresh? && next < |hyp.cpu.tasks|
      requires blk.Quiet() && Loader.Apart(hyp.mem, blk) && image.va < Bits.WORD
      modifies hyp.cpu, hyp.cpu.tasks, hyp.guests
      modifies hyp.mem`use, hyp.mem`nextFree, hyp.mem`owner
      modifies hyp.mem.heapMap, hyp.mem.heap, hyp.mem.userMap, hyp.mem.user
      modifies blk, blk.descs, blk.availRing, blk.usedRing, blk.data
      ensures ok <==> next !in old(NeverRan()) ||
                      (next - 1 in old(Room(blk, image.va)) &&
                       !Loader.Fails(blk.oracle, old(blk.transfers), old(blk.transfers) + Blk.Sectors(blk.config)))
      ensures ok ==> hyp.Linked()
      ensures ok ==> WentTo(next, old(hyp.cpu.priv), old(NeverRan()), old(Bytes()), blk, old(blk.disk), image, input)
    {
      hide Hypervisor.Linked, Vcpu.Machine.Valid, Loader.Enough, Loader.Fails, Blk.VirtioBlk.Quiet, Loader.Apart;
      hide Hypervisor.ImageAt, Hypervisor.GuestByte, Loader.PageCount, Blk.DiskOk, Blk.Sectors;
      hyp.Unlink();
      hyp.Places();
      hyp.SwitchTaskTo(next);
      if hyp.cpu.mode.k.Fresh? {
        ok := hyp.StartGuest(blk, image.va, image.entry, image.stack, input);
      } else {
        hyp.Resume(input);
        ok := true;
      }
    }

    // Decisions of the scheduler.

    /** After event e the scheduler's task is on the CPU, where a guest executes. */
    ghost predicate Decided(e: Event, events0: seq<Event>, ran0: seq<nat>, priv0: seq<Vcpu.Private>, fresh0: set<nat>,
                            bytes0: imap<(nat, nat), Option<nat>>, blk: Blk.VirtioBlk, disk0: seq<seq<nat>>,
                            image: Image, input: bool)
      reads this, hyp, hyp.mem, hyp.mem.heapMap, hyp.mem.heap, hyp.mem.userMap, hyp.mem.user, hyp.mem.tasks, hyp.guests
      reads hyp.cpu, hyp.cpu.tasks, sched, sched.tsks, sched.tasks
    {
      && Valid() && events == events0 + [e] && ran == ran0 + [hyp.cpu.cur]
      && WentTo(sched.cur.pid, priv0, fresh0, bytes0, blk, disk0, image, input)
    }

    lemma Parts()
      requires Valid()
      ensures hyp.Linked() && sched.Valid()
      ensures |sched.all| == |hyp.guests| + 1 && sched.cur.pid == hyp.cpu.cur < |hyp.cpu.tasks| == |hyp.cpu.priv|
      ensures hyp.cpu.mode.Guest? || hyp.cpu.mode == Vcpu.Hyp(Vcpu.InitLoop)
      ensures hyp.cpu.mode.Guest? ==> hyp.cpu.cur != Vcpu.INIT
      ensures Led(sched.Fixed(), start, events, ran, sched.Now())
    {
      hide Hypervisor.Linked, Sched.Valid, Led;
      Bounds();
      hyp.Unlink();
    }

    lemma Assemble()
      requires hyp.Linked() && sched.Valid()
      requires |sched.all| == |hyp.guests| + 1 && sched.cur.pid == hyp.cpu.cur
      requires if hyp.cpu.cur == Vcpu.INIT then hyp.cpu.mode == Vcpu.Hyp(Vcpu.InitLoop) else hyp.cpu.mode.Guest?
      requires Led(sched.Fixed(), start, events, ran, sched.Now())
      ensures Valid()
    {
    }

    lemma Bounds()
      requires hyp.Linked() && sched.Valid() && |sched.all| == |hyp.guests| + 1
      ensures 0 <= sched.cur.pid < |hyp.cpu.tasks| == |hyp.cpu.priv| && hyp.cpu.cur < |hyp.cpu.tasks|
    {
      hyp.Unlink();
    }

    static lemma Extend(k: Config, start: State, events: seq<Event>, ran: seq<nat>, s0: State, e: Event)
      requires Led(k, start, events, ran, s0)
      ensures Sound(k, s0) && Led(k, start, events + [e], ran + [Step(k, s0, e).cur], Step(k, s0, e))
    {
      hide Step, Sound, InRange, Equals;
      var es := events + [e];
      assert es[..|events|] == events && es[..|es|] == es;
      forall n | 0 <= n < |events| ensures ran[n] == Run(k, start, es[..n + 1]).cur {
        assert es[..n + 1] == events[..n + 1];
      }
    }

    /** What follows the scheduler's decision on e in state s0. */
    method GoOn(ghost e: Event, ghost s0: State, blk: Blk.VirtioBlk, image: Image, input: bool) returns (ok: bool)
      requires hyp.Linked() && sched.Valid() && blk.Quiet() && Loader.Apart(hyp.mem, blk)
      requires |sched.all| == |hyp.guests| + 1 && hyp.cpu.mode.Hyp? && !hyp.cpu.mode.k.Fresh?
      requires Led(sched.Fixed(), start, events, ran, s0) && sched.Now() == Step(sched.Fixed(), s0, e)
      requires image.va < Bits.WORD
      modifies `events, `ran, hyp.cpu, hyp.cpu.tasks, hyp.guests
      modifies hyp.mem`use, hyp.mem`nextFree, hyp.mem`owner
      modifies hyp.mem.heapMap, hyp.mem.heap, hyp.mem.userMap, hyp.mem.user
      modifies blk, blk.descs, blk.availRing, blk.usedRing, blk.data
      ensures var next := sched.cur.pid;
              ok <==> next !in old(NeverRan()) ||
                      (next - 1 in old(Room(blk, image.va)) &&
                       !Loader.Fails(blk.oracle, old(blk.transfers), old(blk.transfers) + Blk.Sectors(blk.config)))
      ensures ok ==> Decided(e, old(events), old(ran), old(hyp.cpu.priv), old(NeverRan()), old(Bytes()),
                             blk, old(blk.disk), image, input)
    {
      hide *;
      Bounds();
      ghost var events0, ran0 := events, ran;
      ok := SwitchTo(sched.cur.pid, blk, image, input);
      if ok {
        events, ran := events + [e], ran + [hyp.cpu.cur];
        WentThere(sched.cur.pid, old(hyp.cpu.priv), old(NeverRan()), old(Bytes()), blk, old(blk.disk), image, input);
        Traces(e, s0, events0, ran0);
        Assemble();
        Concluded(e, events0, ran0, old(hyp.cpu.priv), old(NeverRan()), old(Bytes()), blk, old(blk.disk), image, input);
      }
    }

    lemma Traces(e: Event, s0: State, events0: seq<Event>, ran0: seq<nat>)
      requires sched.Valid() && Led(sched.Fixed(), start, events0, ran0, s0)
      requires sched.Now() == Step(sched.Fixed(), s0, e) && sched.cur.pid == hyp.cpu.cur
      requires events == events0 + [e] && ran == ran0 + [hyp.cpu.cur]
      ensures Led(sched.Fixed(), start, events, ran, sched.Now())
    {
      hide Sched.Valid, Step, Led;
      Extend(sched.Fixed(), start, events0, ran0, s0, e);
    }

    lemma Concluded(e: Event, events0: seq<Event>, ran0: seq<nat>, priv0: seq<Vcpu.Private>, fresh0: set<nat>,
                    bytes0: imap<(nat, nat), Option<nat>>, blk: Blk.VirtioBlk, disk0: seq<seq<nat>>,
                    image: Image, input: bool)
      requires Valid() && events == events0 + [e] && ran == ran0 + [hyp.cpu.cur] && sched.cur.pid >= 0
      requires WentTo(sched.cur.pid, priv0, fresh0, bytes0, blk, disk0, image, input)
      ensures Decided(e, events0, ran0, priv0, fresh0, bytes0, blk, disk0, image, input)
    {
    }

    /** Where the CPU went. */
    lemma WentThere(next: nat, priv0: seq<Vcpu.Private>, fresh0: set<nat>, bytes0: imap<(nat, nat), Option<nat>>,
                    blk: Blk.VirtioBlk, disk0: seq<seq<nat>>, image: Image, input: bool)
      requires WentTo(next, priv0, fresh0, bytes0, blk, disk0, image, input)
      ensures hyp.cpu.cur == next
      ensures if next == Vcpu.INIT then hyp.cpu.mode == Vcpu.Hyp(Vcpu.InitLoop) else hyp.cpu.mode.Guest?
    {
    }

    /** The scheduler decides on e, once the hypervisor is entered. */
    method Handle(e: Event, blk: Blk.VirtioBlk, image: Image, input: bool) returns (ok: bool)
      requires hyp.Linked() && sched.Valid() && blk.Quiet() && Loader.Apart(hyp.mem, blk)
      requires |sched.all| == |hyp.guests| + 1 && hyp.cpu.mode.Hyp? && !hyp.cpu.mode.k.Fresh?
      requires Led(sched.Fixed(), start, events, ran, sched.Now()) && image.va < Bits.WORD
      modifies `events, `ran, sched`cur, sched`counters, sched.tasks`counter, hyp.cpu, hyp.cpu.tasks, hyp.guests
      modifies hyp.mem`use, hyp.mem`nextFree, hyp.mem`owner
      modifies hyp.mem.heapMap, hyp.mem.heap, hyp.mem.userMap, hyp.mem.user
      modifies blk, blk.descs, blk.availRing, blk.usedRing, blk.data
      ensures var next := sched.cur.pid;
              ok <==> next !in old(NeverRan()) ||
                      (next - 1 in old(Room(blk, image.va)) &&
                       !Loader.Fails(blk.oracle, old(blk.transfers), old(blk.transfers) + Blk.Sectors(blk.config)))
      ensures ok ==> Decided(e, old(events), old(ran), old(hyp.cpu.priv), old(NeverRan()), old(Bytes()),
                             blk, old(blk.disk), image, input)
    {
      hide *;
      ghost var s0 := sched.Now();
      match e {
        case Timer => sched.SchedTimerHandler();
        case Yield => sched.Schedule();
      }
      ok := GoOn(e, s0, blk, image, input);
    }

    /** The scheduler's timer interrupts a guest or the idle loop. */
    method TimerInterrupt(blk: Blk.VirtioBlk, image: Image, input: bool) returns (ok: bool)
      requires Valid() && image.va < Bits.WORD && blk.Quiet() && Loader.Apart(hyp.mem, blk)
      modifies `events, `ran, sched`cur, sched`counters, sched.tasks`counter, hyp.cpu, hyp.cpu.tasks, hyp.guests
      modifies hyp.mem`use, hyp.mem`nextFree, hyp.mem`owner
      modifies hyp.mem.heapMap, hyp.mem.heap, hyp.mem.userMap, hyp.mem.user
      modifies blk, blk.descs, blk.availRing, blk.usedRing, blk.data
      ensures var next := sched.cur.pid;
              ok <==> next !in old(NeverRan()) ||
                      (next - 1 in old(Room(blk, image.va)) &&
                       !Loader.Fails(blk.oracle, old(blk.transfers), old(blk.transfers) + Blk.Sectors(blk.config)))
      ensures ok ==> Decided(Timer, old(events), old(ran), old(hyp.cpu.priv), old(NeverRan()), old(Bytes()),
                             blk, old(blk.disk), image, input)
    {
      hide *;
      Parts();
      hyp.Interrupt();
      ok := Handle(Timer, blk, image, input);
    }

    /** A guest's WFI or WFE: it is emulated once, and the guest gives up the rest of its time. */
    method TrapWfx(blk: Blk.VirtioBlk, image: Image, input: bool) returns (ok: bool)
      requires Valid() && hyp.cpu.mode.Guest? && image.va < Bits.WORD
      requires blk.Quiet() && Loader.Apart(hyp.mem, blk)
      modifies `events, `ran, sched`cur, sched`counters, sched.tasks`counter, hyp.cpu, hyp.cpu.tasks, hyp.guests
      modifies hyp.mem`use, hyp.mem`nextFree, hyp.mem`owner
      modifies hyp.mem.heapMap, hyp.mem.heap, hyp.mem.userMap, hyp.mem.user
      modifies blk, blk.descs, blk.availRing, blk.usedRing, blk.data
      ensures old(hyp.cpu.cur) < |old(hyp.cpu.priv)|
      ensures var next := sched.cur.pid;
              ok <==> next !in old(NeverRan()) ||
                      (next - 1 in old(Room(blk, image.va)) &&
                       !Loader.Fails(blk.oracle, old(blk.transfers), old(blk.transfers) + Blk.Sectors(blk.config)))
      ensures ok ==> Decided(Yield, old(events), old(ran),
                             old(hyp.cpu.priv[hyp.cpu.cur := hyp.cpu.priv[hyp.cpu.cur].(
                                   pc := (hyp.cpu.priv[hyp.cpu.cur].pc + 4) % 0x1_0000_0000_0000_0000,
                                   wfxTraps := hyp.cpu.priv[hyp.cpu.cur].wfxTraps + 1)]),
                             old(NeverRan()), old(Bytes()), blk, old(blk.disk), image, input)
    {
      hide *;
      Parts();
      hyp.TrapWfx();
      ok := Handle(Yield, blk, image, input);
    }

    /** The idle loop of KernelMain. */
    method Idle(blk: Blk.VirtioBlk, image: Image, input: bool) returns (ok: bool)
      requires Valid() && hyp.cpu.mode == Vcpu.Hyp(Vcpu.InitLoop) && image.va < Bits.WORD
      requires blk.Quiet() && Loader.Apart(hyp.mem, blk)
      modifies `events, `ran, sched`cur, sched`counters, sched.tasks`counter, hyp.cpu, hyp.cpu.tasks, hyp.guests
      modifies hyp.mem`use, hyp.mem`nextFree, hyp.mem`owner
      modifies hyp.mem.heapMap, hyp.mem.heap, hyp.mem.userMap, hyp.mem.user
      modifies blk, blk.descs, blk.availRing, blk.usedRing, blk.data
      ensures var next := sched.cur.pid;
              ok <==> next !in old(NeverRan()) ||
                      (next - 1 in old(Room(blk, image.va)) &&
                       !Loader.Fails(blk.oracle, old(blk.transfers), old(blk.transfers) + Blk.Sectors(blk.config)))
      ensures ok ==> Decided(Yield, old(events), old(ran), old(hyp.cpu.priv), old(NeverRan()), old(Bytes()),
                             blk, old(blk.disk), image, input)
    {
      hide *;
      Parts();
      ok := Handle(Yield, blk, image, input);
    }

    // What else happens leaves the scheduler alone, and the guest goes on.

    method GuestExecute(sys: seq<nat>, gprs: seq<nat>, pc: nat, pstate: nat)
      requires Valid() && hyp.cpu.mode.Guest? && |gprs| == 31 && |hyp.cpu.el1| == Vcpu.REG_COUNT
      requires Vcpu.Machine.IdsReal(sys, hyp.cpu.el1[Vcpu.MIDR_EL1], hyp.cpu.el1[Vcpu.MPIDR_EL1])
      modifies hyp.cpu
      ensures Valid() && hyp.cpu.mode.Guest? && hyp.cpu.cur == old(hyp.cpu.cur)
      ensures hyp.cpu.cur < |old(hyp.cpu.priv)|
      ensures hyp.cpu.priv ==
              old(hyp.cpu.priv[hyp.cpu.cur := hyp.cpu.priv[hyp.cpu.cur].(sys := sys, x := gprs,
                                                                         pc := pc, pstate := pstate)])
    {
      hide Hypervisor.Linked, Sched.Valid, Led, Vcpu.Machine.Valid;
      hyp.GuestExecute(sys, gprs, pc, pstate);
    }

    method GuestStore(a: nat, value: nat)
      requires Valid() && hyp.cpu.mode.Guest?
      requires AccessBy(hyp.Leaf(a / 0x1000), true) == Done && IsDram(hyp.Leaf(a / 0x1000).value)
      modifies hyp.mem.user
      ensures Valid()
      ensures forall i, b: nat :: 0 <= i < |hyp.guests| ==>
                hyp.GuestByte(i, b) ==
                if i == hyp.cpu.cur - 1 && b == a then Some(value) else old(hyp.GuestByte(i, b))
    {
      hide Hypervisor.Linked, Sched.Valid, Led, Vcpu.Machine.Valid, Hypervisor.Leaf, AccessBy, Hypervisor.GuestByte;
      hyp.GuestStore(a, value);
    }

    /** A data abort of the executing guest because of instruction i at ipa, up to where it goes on. */
    method DataAbort(far: nat, ghost ipa: nat, ghost i: Instruction, esr: nat, answer: nat, input: bool)
      returns (ok: bool, asked: seq<Request>)
      requires Valid() && hyp.cpu.mode.Guest? && far < Bits.WORD
      requires Reports(esr, AccessBy(hyp.Leaf(ipa / 0x1000), i.stores), i)
      modifies hyp.cpu, hyp.cpu.tasks, hyp.guests, hyp`strays
      modifies hyp.mem`use, hyp.mem`nextFree, hyp.mem`owner
      modifies hyp.mem.heapMap, hyp.mem.heap, hyp.mem.userMap, hyp.mem.user
      ensures var access := old(AccessBy(hyp.Leaf(ipa / 0x1000), i.stores));
              && (ok <==> access.Forbidden? || (access.Untranslated? && old(hyp.Handles(far))))
              && (ok ==> Valid() && hyp.cpu.mode.Guest? && hyp.cpu.cur == old(hyp.cpu.cur) <= |hyp.guests|)
              && (ok ==> (Bits.Bit(hyp.cpu.hcr, 7) == 1 <==> input))
              && (ok && access.Untranslated? ==> hyp.cpu.priv == old(hyp.cpu.priv))
              && (ok && access.Untranslated? ==> forall stores ::
                    AccessBy(hyp.Leaf(ipa / 0x1000), stores) == if Cured(far, ipa) then Done else Untranslated)
              && (access.Forbidden? ==>
                    Hypervisor.Replaced(old(hyp.cpu.priv), hyp.cpu.priv, hyp.cpu.cur,
                                        hyp.cpu.tasks[hyp.cpu.cur].base + 0x1000, asked, far, ipa, i, answer))
      ensures ok ==> forall j, a: nat :: 0 <= j < |hyp.guests| ==>
                hyp.GuestByte(j, a) ==
                if old(AccessBy(hyp.Leaf(ipa / 0x1000), i.stores)).Untranslated?
                   && j == hyp.cpu.cur - 1 && Cured(far, a)
                then Some(0) else old(hyp.GuestByte(j, a))
    {
      hide *;
      Parts();
      ok, asked := hyp.ServeAbort(far, ipa, i, esr, answer, input);
      if ok {
        Assemble();
      }
    }

    /** An interrupt that is not the scheduler's. */
    method OtherInterrupt(input: bool)
      requires Valid()
      modifies hyp.cpu, hyp.cpu.tasks
      ensures Valid() && hyp.cpu.cur == old(hyp.cpu.cur) && hyp.cpu.priv == old(hyp.cpu.priv)
      ensures hyp.cpu.cur != Vcpu.INIT ==> hyp.cpu.mode.Guest? && (Bits.Bit(hyp.cpu.hcr, 7) == 1 <==> input)
    {
      hide *;
      Parts();
      hyp.Interrupt();
      hyp.Resume(input);
      Assemble();
    }

    /**
     Whatever happened and wherever one starts to count: of any 2n + 1 decisions in a row, n
     being the number of guests, each guest was on the CPU after one.
     */
    lemma EveryGuestRuns(from: nat, to: nat, i: nat)
      requires Valid() && from + 2 * |hyp.guests| + 1 <= to <= |events| && i <= |hyp.guests|
      ensures |ran| == |events| && i in ran[from..to]
    {
      hide Hypervisor.Linked, Run, Decisions, Chosen, Runners;
      var k, s, es := sched.Fixed(), Run(sched.Fixed(), start, events[..from]), events[from..to];
      AllDecide(k, s, es);
      AllRun(k);
      BoundedWaiting(k, s, es, i);
      var n := SomewhereChosen(k, s, es, i);
      RunJoin(k, start, events[..from], es[..n + 1]);
      assert events[..from] + es[..n + 1] == events[..from + n + 1];
      assert ran[from + n] == Run(k, start, events[..from + n + 1]).cur;
      assert ran[from..to][n] == i;
    }
  }

  // Runs of tasks that are all RUNNING with priority 1.

  ghost predicate Equals(k: Config) {
    |k.running| == |k.priorities| &&
    forall i :: 0 <= i < |k.running| ==> k.running[i] && k.priorities[i] == 1
  }

  /** Nobody has time for a second tick. */
  lemma {:induction false} AllDecide(k: Config, s: State, es: seq<Event>)
    requires Sound(k, s) && Equals(k)
    ensures Decisions(k, s, es) == |es|
  {
    if es != [] {
      AllDecide(k, s, es[..|es| - 1]);
      var before := Run(k, s, es[..|es| - 1]);
      assert before.counters[before.cur] < 2 * k.priorities[before.cur];
    }
  }

  lemma {:induction false} AllRun(k: Config)
    requires Equals(k)
    ensures |Runners(k)| == |k.running| && forall i :: 0 <= i < |k.running| ==> i in Runners(k)
    decreases |k.running|
  {
    var n := |k.running| - 1;
    if n >= 0 {
      var k' := Config(k.running[..n], k.priorities[..n]);
      AllRun(k');
      assert Runners(k) == Runners(k') + {n};
    }
  }

  lemma {:induction false} RunJoin(k: Config, s: State, a: seq<Event>, b: seq<Event>)
    requires Sound(k, s)
    ensures Run(k, s, a + b) == Run(k, Run(k, s, a), b)
  {
    hide Step, InRange;
    if b == [] {
      assert a + b == a;
    } else {
      RunJoin(k, s, a, b[..|b| - 1]);
      assert (a + b)[..|a + b| - 1] == a + b[..|b| - 1];
    }
  }

  /** A task that is selected is current then. */
  lemma {:induction false} SomewhereChosen(k: Config, s: State, es: seq<Event>, i: nat) returns (n: nat)
    requires Sound(k, s) && Chosen(k, s, es, i) >= 1
    ensures n < |es| && Run(k, s, es[..n + 1]).cur == i
  {
    hide Decide, InRange;
    n := |es| - 1;
    assert es[..n + 1] == es;
    if Run(k, s, es).cur != i {
      n := SomewhereChosen(k, s, es[..|es| - 1], i);
      assert es[..|es| - 1][..n + 1] == es[..n + 1];
    }
  }
}
