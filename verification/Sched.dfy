/**
 The task scheduler (src/kernel/sched/sched_core.cc). The class follows the code; Scan and
 Decide say what one scheduling decision is, and the lemmas at the end are about runs of
 any length with a fixed set of RUNNING tasks.
 */
module Sched {
  const NR_TASKS: nat := 8

  datatype TaskState = RUNNING | WAITTING | ZOMBIE | DEAD

  // One decision, on the counters and states of all tasks.

  /** c and next describe the first of the tasks below n with the greatest counter that are RUNNING. */
  ghost predicate IsFirstGreatest(running: seq<bool>, counters: seq<int>, n: nat, c: int, next: nat)
    requires n <= |running| == |counters|
  {
    if c < 0 then c == -1 && next == 0 && forall j :: 0 <= j < n ==> !running[j]
    else
      && next < n && running[next] && counters[next] == c
      && (forall j :: 0 <= j < n && running[j] ==> counters[j] <= c)
      && (forall j :: 0 <= j < next && running[j] ==> counters[j] < c)
  }

  datatype Best = Best(c: int, next: nat)

  ghost function Scan(running: seq<bool>, counters: seq<int>, n: nat): (b: Best)
    requires n <= |running| == |counters|
    requires forall j :: 0 <= j < |counters| ==> counters[j] >= 0
    ensures IsFirstGreatest(running, counters, n, b.c, b.next)
  {
    if n == 0 then Best(-1, 0)
    else
      var b := Scan(running, counters, n - 1);
      if running[n - 1] && counters[n - 1] > b.c then Best(counters[n - 1], n - 1) else b
  }

  /** A long shifted right by one. */
  function Half(x: int): (h: int)
    ensures x == 2 * h || x == 2 * h + 1
  {
    x / 2
  }

  ghost function Recharged(counters: seq<int>, priorities: seq<int>): (r: seq<int>)
    requires |counters| == |priorities|
    ensures |r| == |counters| && forall i :: 0 <= i < |r| ==> r[i] == Half(counters[i]) + priorities[i]
  {
    seq(|counters|, i requires 0 <= i < |counters| => Half(counters[i]) + priorities[i])
  }

  /** Counters stay between 0 and twice the priority less one, and priorities are positive. */
  ghost predicate InRange(counters: seq<int>, priorities: seq<int>) {
    |counters| == |priorities| && forall i :: 0 <= i < |counters| ==> 0 <= counters[i] < 2 * priorities[i]
  }

  lemma RechargeInRange(counters: seq<int>, priorities: seq<int>)
    requires InRange(counters, priorities)
    ensures InRange(Recharged(counters, priorities), priorities)
  {
  }

  datatype Decision = Decision(next: nat, counters: seq<int>, recharged: bool)

  /** The decision of ScheduleInternal: a recharge only if the greatest counter is 0, and then only one. */
  ghost function Decide(running: seq<bool>, counters: seq<int>, priorities: seq<int>): (d: Decision)
    requires |running| == |counters| && InRange(counters, priorities)
    ensures |d.counters| == |counters| && InRange(d.counters, priorities)
    ensures |counters| > 0 ==> d.next < |counters|
  {
    var b := Scan(running, counters, |running|);
    if b.c != 0 then Decision(b.next, counters, false)
    else
      var again := Recharged(counters, priorities);
      var b2 := Scan(running, again, |running|);
      Decision(b2.next, again, true)
  }

  ghost predicate SomeRunning(running: seq<bool>) {
    exists j :: 0 <= j < |running| && running[j]
  }

  /**
   What is decided: the lowest-index RUNNING task of greatest counter, which has time left; the
   recharge comes first when none has.
   */
  lemma DecideMeans(running: seq<bool>, counters: seq<int>, priorities: seq<int>)
    requires |running| == |counters| && InRange(counters, priorities)
    ensures var d := Decide(running, counters, priorities);
            && d.counters == (if d.recharged then Recharged(counters, priorities) else counters)
            && (d.recharged <==>
                SomeRunning(running) && forall j :: 0 <= j < |running| && running[j] ==> counters[j] == 0)
            && (SomeRunning(running) ==> running[d.next] && d.counters[d.next] > 0)
            && (SomeRunning(running) ==> IsFirstGreatest(running, d.counters, |running|, d.counters[d.next], d.next))
            && (!SomeRunning(running) ==> d.next == 0)
  {
  }

  /**
   A decision, said outright: with a RUNNING task that has time, or none RUNNING, the counters
   stay; otherwise each task gets half of what it has left and its priority. Then the first of
   the RUNNING tasks with most time is chosen, task 0 if there is none.
   */
  ghost predicate Chooses(running: seq<bool>, priorities: seq<int>, before: seq<int>, after: seq<int>, next: int)
    requires |running| == |priorities| == |before| == |after|
  {
    && (if (exists j :: 0 <= j < |running| && running[j]) &&
           (forall j :: 0 <= j < |running| && running[j] ==> before[j] == 0)
        then forall i :: 0 <= i < |after| ==> after[i] == before[i] / 2 + priorities[i]
        else after == before)
    && if exists j :: 0 <= j < |running| && running[j] then
         && 0 <= next < |running| && running[next] && after[next] > 0
         && (forall j :: 0 <= j < |running| && running[j] ==> after[j] <= after[next])
         && (forall j :: 0 <= j < next && running[j] ==> after[j] < after[next])
       else next == 0
  }

  lemma DecideChooses(running: seq<bool>, counters: seq<int>, priorities: seq<int>)
    requires |running| == |counters| && InRange(counters, priorities)
    ensures var d := Decide(running, counters, priorities);
            Chooses(running, priorities, counters, d.counters, d.next)
  {
    DecideMeans(running, counters, priorities);
    hide Decide, Scan;
  }

  /** A scan that ends the loop is the decision, and the scan after a recharge does. */
  lemma Conclude(running: seq<bool>, counters: seq<int>, priorities: seq<int>, rounds: nat, b: Best)
    requires |running| == |counters| > 0 && InRange(counters, priorities) && rounds <= 1
    requires rounds == 1 ==> Scan(running, counters, |running|).c == 0
    requires InRange(if rounds == 0 then counters else Recharged(counters, priorities), priorities)
    requires b == Scan(running, if rounds == 0 then counters else Recharged(counters, priorities), |running|)
    ensures rounds == 1 ==> b.c != 0
    ensures b.c != 0 ==> b.next < |running| && Decide(running, counters, priorities) ==
                         Decision(b.next, if rounds == 0 then counters else Recharged(counters, priorities),
                                  rounds == 1)
  {
  }

  // The loop of ScheduleInternal ends if and only if a recharge can change its outcome.

  ghost function Recharges(counters: seq<int>, priorities: seq<int>, n: nat): (r: seq<int>)
    requires |counters| == |priorities|
    ensures |r| == |counters|
  {
    if n == 0 then counters else Recharged(Recharges(counters, priorities, n - 1), priorities)
  }

  /** The scan of the loop's round n, after n recharges, ends the loop. */
  ghost predicate EndsAt(running: seq<bool>, counters: seq<int>, priorities: seq<int>, n: nat)
    requires |running| == |counters| == |priorities|
  {
    var after := Recharges(counters, priorities, n);
    (forall j :: 0 <= j < |running| ==> !running[j]) || exists j :: 0 <= j < |running| && running[j] && after[j] > 0
  }

  /**
   With priorities from 0 on: the loop ends at all if and only if it ends within one recharge, which
   is when some RUNNING task has a counter or a priority.
   */
  lemma EndsIff(running: seq<bool>, counters: seq<int>, priorities: seq<int>)
    requires |running| == |counters| == |priorities|
    requires forall i :: 0 <= i < |counters| ==> counters[i] >= 0 && priorities[i] >= 0
    ensures (exists n: nat :: EndsAt(running, counters, priorities, n)) <==>
            (forall j :: 0 <= j < |running| ==> !running[j]) ||
            exists j :: 0 <= j < |running| && running[j] && (counters[j] > 0 || priorities[j] > 0)
    ensures (exists n: nat :: EndsAt(running, counters, priorities, n)) <==>
            EndsAt(running, counters, priorities, 0) || EndsAt(running, counters, priorities, 1)
  {
    if n: nat :| EndsAt(running, counters, priorities, n) {
      if forall j :: 0 <= j < |running| && running[j] ==> counters[j] == 0 && priorities[j] == 0 {
        StaysZero(running, counters, priorities, n);
      }
    }
    if j :| 0 <= j < |running| && running[j] && (counters[j] > 0 || priorities[j] > 0) {
      if counters[j] > 0 {
        assert Recharges(counters, priorities, 0)[j] > 0;
        assert EndsAt(running, counters, priorities, 0);
      } else {
        assert Recharges(counters, priorities, 1) == Recharged(Recharges(counters, priorities, 0), priorities);
        assert Recharges(counters, priorities, 1)[j] > 0;
        assert EndsAt(running, counters, priorities, 1);
      }
    } else if forall j :: 0 <= j < |running| ==> !running[j] {
      assert EndsAt(running, counters, priorities, 0);
    }
  }

  lemma {:induction false} StaysZero(running: seq<bool>, counters: seq<int>, priorities: seq<int>, n: nat)
    requires |running| == |counters| == |priorities|
    requires forall j :: 0 <= j < |running| && running[j] ==> counters[j] == 0 && priorities[j] == 0
    ensures forall j :: 0 <= j < |running| && running[j] ==> Recharges(counters, priorities, n)[j] == 0
  {
    if n > 0 {
      StaysZero(running, counters, priorities, n - 1);
    }
  }

  // The scheduler as a machine over counters and the current task, for a fixed set of tasks.

  datatype Config = Config(running: seq<bool>, priorities: seq<int>)

  datatype State = State(counters: seq<int>, cur: nat)

  /** Schedule() called by the current task, or the timer interrupt. */
  datatype Event = Yield | Timer

  ghost predicate Sound(k: Config, s: State) {
    |k.running| == |s.counters| && InRange(s.counters, k.priorities) && s.cur < |s.counters|
  }

  ghost function Choice(k: Config, s: State): (d: Decision)
    requires Sound(k, s)
    ensures Sound(k, State(d.counters, d.next))
  {
    assert InRange(s.counters[s.cur := 0], k.priorities);
    Decide(k.running, s.counters[s.cur := 0], k.priorities)
  }

  /** The timer decides only when the current task's time is used up. */
  ghost predicate IsDecision(s: State, e: Event)
    requires s.cur < |s.counters|
  {
    e.Yield? || s.counters[s.cur] <= 1
  }

  ghost function Step(k: Config, s: State, e: Event): (r: State)
    requires Sound(k, s)
    ensures Sound(k, r)
  {
    if IsDecision(s, e) then
      var d := Choice(k, s);
      State(d.counters, d.next)
    else
      s.(counters := s.counters[s.cur := s.counters[s.cur] - 1])
  }

  // The scheduler.

  class Tcb {
    var pid: int
    var priority: int
    var counter: int
    var state: TaskState

    constructor (priority: int, counter: int)
      ensures this.priority == priority && this.counter == counter && state == RUNNING
    {
      this.pid, this.priority, this.counter, this.state := 0, priority, counter, RUNNING;
    }
  }

  class Sched {
    const tsks: array<Tcb?>
    var cur: Tcb
    var count: nat
    // The registered tasks in order of their pid, with what their blocks hold.
    ghost var all: seq<Tcb>
    ghost var tasks: set<Tcb>
    ghost var running: seq<bool>
    ghost var counters: seq<int>
    ghost var priorities: seq<int>

    ghost predicate Registered()
      reads this`all, this`tasks, this`cur, this`count, tsks, tasks`pid
    {
      && tsks.Length == NR_TASKS && 1 <= count == |all| <= NR_TASKS
      && (forall i :: 0 <= i < count ==> all[i] in tasks && tsks[i] == all[i] && all[i].pid == i)
      && cur in tasks && forall t :: t in tasks ==> 0 <= t.pid < |all| && all[t.pid] == t
    }

    ghost predicate Recorded()
      reads this`all, this`tasks, this`running, this`counters, this`priorities, tasks
    {
      && |all| == |running| == |counters| == |priorities|
      && forall t :: t in tasks ==>
           && 0 <= t.pid < |all| && (running[t.pid] <==> t.state == RUNNING)
           && counters[t.pid] == t.counter && priorities[t.pid] == t.priority
    }

    ghost predicate Valid()
      reads this, tsks, tasks
    {
      Registered() && Recorded() && InRange(counters, priorities)
    }

    /** Sched::Init: the init task alone, current, RUNNING, with priority 1 and no time left. */
    constructor ()
      ensures Valid() && fresh(tsks) && fresh(cur) && all == [cur] && cur.pid == 0
      ensures counters == [0] && priorities == [1] && running == [true]
    {
      var init := new Tcb(1, 0);
      tsks := new Tcb?[NR_TASKS](i => if i == 0 then init else null);
      cur := init;
      count := 1;
      all, tasks, running, counters, priorities := [init], {init}, [true], [0], [1];
      new;
      cur.pid := 0;
    }

    /** The next free slot; the source does not check that there is one. */
    method AddTask(tsk: Tcb) returns (pid: int)
      requires Valid() && count < NR_TASKS && tsk !in tasks
      requires 0 <= tsk.counter < 2 * tsk.priority
      modifies this, tsks, tsk`pid
      ensures Valid() && all == old(all) + [tsk] && pid == old(count) && cur == old(cur)
      ensures counters == old(counters) + [tsk.counter] && priorities == old(priorities) + [tsk.priority]
      ensures running == old(running) + [tsk.state == RUNNING]
    {
      hide Registered;
      pid := Register(tsk);
      running := running + [tsk.state == RUNNING];
      counters, priorities := counters + [tsk.counter], priorities + [tsk.priority];
    }

    /** The task's place in the table, which is its pid. */
    method Register(tsk: Tcb) returns (pid: int)
      requires Registered() && count < NR_TASKS && tsk !in tasks
      modifies this`count, this`all, this`tasks, tsks, tsk`pid
      ensures Registered() && all == old(all) + [tsk] && tasks == old(tasks) + {tsk}
      ensures pid == tsk.pid == old(count) == |old(all)|
    {
      pid := count;
      count := count + 1;
      tsks[pid] := tsk;
      tsk.pid := pid;
      all, tasks := all + [tsk], tasks + {tsk};
    }

    /** The scan of all tasks for the greatest counter. */
    method PickNext() returns (c: int, next: nat)
      requires Valid()
      ensures Best(c, next) == Scan(running, counters, |all|)
      ensures |running| == |counters| == |all|
      ensures c >= 0 ==> && next < |all| && running[next] && counters[next] == c
                         && (forall j :: 0 <= j < |all| && running[j] ==> counters[j] <= c)
                         && (forall j :: 0 <= j < next && running[j] ==> counters[j] < c)
      ensures c < 0 ==> c == -1 && next == 0 && forall j :: 0 <= j < |all| ==> !running[j]
    {
      c, next := -1, 0;
      var i := 0;
      while i < count
        invariant i <= count && Best(c, next) == Scan(running, counters, i)
      {
        var task := tsks[i];
        if task != null && task.state == RUNNING && task.counter > c {
          c := task.counter;
          next := i;
        }
        i := i + 1;
      }
    }

    /** Every task gets half of what it has left and its priority. */
    method Recharge()
      requires Valid()
      modifies this`counters, tasks`counter
      ensures Valid() && counters == Recharged(old(counters), priorities)
    {
      RechargeInRange(counters, priorities);
      assert |counters| == |priorities| == count;
      hide Half, InRange, Recharged;
      var i := 0;
      while i < count
        modifies tasks`counter
        invariant i <= count
        invariant forall t :: t in tasks ==>
                    t.counter == if t.pid < i then Half(counters[t.pid]) + priorities[t.pid] else counters[t.pid]
      {
        var task := tsks[i];
        if task != null {
          task.counter := Half(task.counter) + task.priority;
        }
        i := i + 1;
      }
      counters := Recharged(counters, priorities);
    }

    ghost function Fixed(): Config
      reads this`running, this`priorities
    {
      Config(running, priorities)
    }

    ghost function Now(): (s: State)
      requires Valid()
      reads this, tsks, tasks
      ensures Sound(Fixed(), s)
    {
      State(counters, cur.pid)
    }

    /** The loop of ScheduleInternal: scan, and recharge until the scan finds time left. */
    method FindNext() returns (next: nat)
      requires Valid()
      modifies this`counters, tasks`counter
      ensures Valid() && next < count
      ensures next == Decide(running, old(counters), priorities).next
      ensures counters == Decide(running, old(counters), priorities).counters
    {
      ghost var counters0, rounds := counters, 0;
      assert |all| == |running| == |counters| == |priorities| && forall j :: 0 <= j < |all| ==> counters[j] >= 0;
      hide Scan, Decide, Recharged, IsFirstGreatest, Recorded, Registered;
      next := 0;
      while true
        invariant Valid() && rounds <= 1
        invariant counters == if rounds == 0 then counters0 else Recharged(counters0, priorities)
        invariant rounds == 1 ==> Scan(running, counters0, |all|).c == 0
        decreases 1 - rounds
      {
        var c;
        c, next := PickNext();
        Conclude(running, counters0, priorities, rounds, Best(c, next));
        if c != 0 {
          break;
        }
        Recharge();
        rounds := rounds + 1;
      }
      assert next < |running|;
    }

    method ScheduleInternal()
      requires Valid()
      modifies this`cur, this`counters, tasks`counter
      ensures Valid() && counters == Decide(running, old(counters), priorities).counters
      ensures cur.pid == Decide(running, old(counters), priorities).next
      ensures |running| == |priorities| == |old(counters)| == |counters|
      ensures Chooses(running, priorities, old(counters), counters, cur.pid)
    {
      DecideChooses(running, counters, priorities);
      hide Decide, InRange, Chooses;
      var next := FindNext();
      SwitchTaskTo(tsks[next]);
    }

    method SwitchTaskTo(next: Tcb)
      modifies this`cur
      ensures cur == next
    {
      if cur == next {
        return;
      }
      cur := next;
    }

    /** The current task gives up the rest of its time. */
    method Schedule()
      requires Valid()
      modifies this`cur, this`counters, tasks`counter
      ensures Valid() && Now() == Step(Fixed(), old(Now()), Yield)
      ensures 0 <= old(cur.pid) < |old(counters)| == |running| == |priorities| == |counters|
      ensures Chooses(running, priorities, old(counters[cur.pid := 0]), counters, cur.pid)
    {
      hide Decide, Chooses;
      cur.counter := 0;
      counters := counters[cur.pid := 0];
      ScheduleInternal();
    }

    method SchedTimerHandler()
      requires Valid()
      modifies this`cur, this`counters, tasks`counter
      ensures Valid() && Now() == Step(Fixed(), old(Now()), Timer)
      ensures 0 <= old(cur.pid) < |old(counters)| == |running| == |priorities| == |counters|
      ensures if old(counters[cur.pid]) > 1
              then cur == old(cur) && counters == old(counters[cur.pid := counters[cur.pid] - 1])
              else Chooses(running, priorities, old(counters[cur.pid := 0]), counters, cur.pid)
    {
      hide Decide, IsFirstGreatest, Scan, Recharged, Chooses;
      ghost var k, s := Fixed(), Now();
      assert s.counters[s.cur] == cur.counter;
      cur.counter := cur.counter - 1;
      if cur.counter > 0 {
        counters := counters[cur.pid := cur.counter];
        assert !IsDecision(s, Timer);
        return;
      }
      cur.counter := 0;
      counters := counters[cur.pid := 0];
      ScheduleInternal();
      assert Now() == State(Choice(k, s).counters, Choice(k, s).next);
    }

    /** The task is a zombie from now on, and the current task yields. */
    method ExitTask(tsk: Tcb)
      requires Valid()
      modifies this`cur, this`counters, this`running, tasks`counter, tasks`state
      ensures Valid()
      ensures running == if tsk in tasks then old(running)[tsk.pid := false] else old(running)
      ensures Now() == Step(Fixed(), old(Now()), Yield)
      ensures 0 <= old(cur.pid) < |old(counters)| == |running| == |priorities| == |counters|
      ensures Chooses(running, priorities, old(counters[cur.pid := 0]), counters, cur.pid)
    {
      hide Chooses;
      var i := 0;
      while i < count && tsks[i] != tsk
        invariant i <= count && forall j :: 0 <= j < i ==> tsks[j] != tsk
      {
        i := i + 1;
      }
      if i < count {
        tsk.state := ZOMBIE;
        running := running[i := false];
      }
      Schedule();
    }
  }

  // Runs.

  ghost function Run(k: Config, s: State, es: seq<Event>): (r: State)
    requires Sound(k, s)
    ensures Sound(k, r)
  {
    if es == [] then s else Step(k, Run(k, s, es[..|es| - 1]), es[|es| - 1])
  }

  /** How often task i was selected. */
  ghost function Chosen(k: Config, s: State, es: seq<Event>, i: nat): (n: nat)
    requires Sound(k, s)
  {
    if es == [] then 0
    else
      var before := Run(k, s, es[..|es| - 1]);
      var last := es[|es| - 1];
      Chosen(k, s, es[..|es| - 1], i) + (if IsDecision(before, last) && Choice(k, before).next == i then 1 else 0)
  }

  ghost function Decisions(k: Config, s: State, es: seq<Event>): (n: nat)
    requires Sound(k, s)
  {
    if es == [] then 0
    else
      Decisions(k, s, es[..|es| - 1]) + (if IsDecision(Run(k, s, es[..|es| - 1]), es[|es| - 1]) then 1 else 0)
  }

  ghost function RechargeCount(k: Config, s: State, es: seq<Event>): (n: nat)
    requires Sound(k, s)
  {
    if es == [] then 0
    else
      var before := Run(k, s, es[..|es| - 1]);
      var last := es[|es| - 1];
      RechargeCount(k, s, es[..|es| - 1]) + (if IsDecision(before, last) && Choice(k, before).recharged then 1 else 0)
  }

  ghost function Runners(k: Config): set<nat> {
    set j: nat | j < |k.running| && k.running[j]
  }

  /** RUNNING tasks that still have their turn before the next recharge. */
  ghost function Pending(k: Config, s: State): set<nat>
    requires Sound(k, s)
  {
    set j: nat | j < |k.running| && k.running[j] && j != s.cur && s.counters[j] > 0
  }

  /** A decision serves a pending task; when there is none it recharges, and all the others become pending. */
  lemma ChoiceServes(k: Config, s: State)
    requires Sound(k, s) && Runners(k) != {}
    ensures var d := Choice(k, s);
            && d.next in Runners(k) && (d.recharged <==> Pending(k, s) == {})
            && Pending(k, State(d.counters, d.next)) == (if d.recharged then Runners(k) else Pending(k, s)) - {d.next}
            && (!d.recharged ==> d.next in Pending(k, s))
  {
    var counters := s.counters[s.cur := 0];
    var i :| i in Runners(k);
    assert k.running[i];
    DecideMeans(k.running, counters, k.priorities);
    hide Decide, IsFirstGreatest;
    var d := Choice(k, s);
    assert k.running[d.next] && d.counters[d.next] > 0;
    if d.recharged {
      assert forall j :: 0 <= j < |counters| ==> d.counters[j] == Half(counters[j]) + k.priorities[j] > 0;
    } else {
      assert d.counters == counters;
      var j :| 0 <= j < |k.running| && k.running[j] && counters[j] != 0;
      assert j in Pending(k, s) && d.next in Pending(k, s);
    }
  }

  /**
   From a moment at which nothing is pending: every RUNNING task was selected once for every
   recharge, but for its turn if that is still due.
   */
  lemma {:induction false} SelectedOncePerRecharge(k: Config, s: State, es: seq<Event>, i: nat)
    requires Sound(k, s) && Pending(k, s) == {} && i in Runners(k)
    ensures Chosen(k, s, es, i) + (if i in Pending(k, Run(k, s, es)) then 1 else 0) == RechargeCount(k, s, es)
  {
    if es != [] {
      var rest, last := es[..|es| - 1], es[|es| - 1];
      SelectedOncePerRecharge(k, s, rest, i);
      var before := Run(k, s, rest);
      if IsDecision(before, last) {
        ChoiceServes(k, before);
      } else {
        assert Pending(k, Step(k, before, last)) == Pending(k, before);
      }
    }
  }

  /** Counts taken from a recharge never differ by more than one. */
  lemma FairCounts(k: Config, s: State, es: seq<Event>, i: nat, j: nat)
    requires Sound(k, s) && Pending(k, s) == {} && i in Runners(k) && j in Runners(k)
    ensures -1 <= Chosen(k, s, es, i) - Chosen(k, s, es, j) <= 1
  {
    SelectedOncePerRecharge(k, s, es, i);
    SelectedOncePerRecharge(k, s, es, j);
  }

  /** Between two consecutive recharges every RUNNING task is selected exactly once. */
  lemma OncePerEpoch(k: Config, s: State, es: seq<Event>, i: nat)
    requires Sound(k, s) && Pending(k, s) == {} && i in Runners(k)
    requires RechargeCount(k, s, es) == 1 && Pending(k, Run(k, s, es)) == {}
    ensures Chosen(k, s, es, i) == 1
  {
    SelectedOncePerRecharge(k, s, es, i);
  }

  /** Decisions until task i has surely been selected. */
  ghost function Wait(k: Config, s: State, i: nat): nat
    requires Sound(k, s)
  {
    |Pending(k, s)| + if i in Pending(k, s) then 0 else |Runners(k)|
  }

  lemma WaitBounds(k: Config, s: State, i: nat)
    requires Sound(k, s) && i in Runners(k)
    ensures 1 <= Wait(k, s, i) <= 2 * |Runners(k)| - 1
  {
    if i in Pending(k, s) {
      Smaller({i}, Pending(k, s));
      Smaller(Pending(k, s), Runners(k));
    } else {
      Smaller(Pending(k, s), Runners(k) - {i});
      Smaller({i}, Runners(k));
    }
  }

  lemma {:induction false} Smaller(a: set<nat>, b: set<nat>)
    requires a <= b
    ensures |a| <= |b|
  {
    if a != {} {
      var x :| x in a;
      Smaller(a - {x}, b - {x});
    }
  }

  lemma {:induction false} WaitDrops(k: Config, s: State, es: seq<Event>, i: nat)
    requires Sound(k, s) && i in Runners(k) && Chosen(k, s, es, i) == 0
    ensures Wait(k, Run(k, s, es), i) + Decisions(k, s, es) <= Wait(k, s, i)
  {
    if es != [] {
      var rest, last := es[..|es| - 1], es[|es| - 1];
      WaitDrops(k, s, rest, i);
      var before := Run(k, s, rest);
      if IsDecision(before, last) {
        ChoiceServes(k, before);
        assert Choice(k, before).next != i;
      } else {
        assert Pending(k, Step(k, before, last)) == Pending(k, before);
      }
    }
  }

  /** From any state every RUNNING task is selected within 2N-1 decisions, N being the number of RUNNING tasks. */
  lemma BoundedWaiting(k: Config, s: State, es: seq<Event>, i: nat)
    requires Sound(k, s) && i in Runners(k) && Decisions(k, s, es) >= 2 * |Runners(k)| - 1
    ensures Chosen(k, s, es, i) >= 1
  {
    if Chosen(k, s, es, i) == 0 {
      WaitDrops(k, s, es, i);
      WaitBounds(k, s, i);
      WaitBounds(k, Run(k, s, es), i);
    }
  }
}
