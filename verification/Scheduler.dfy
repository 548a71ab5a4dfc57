/** The scheduler (kernel/sched.c): schedule, the counter part of do_timer, and sys_nice. */
module Scheduler {

  const NR_TASKS: nat := 64

  datatype Task = Task(present: bool, running: bool, counter: int, priority: int)

  type Tasks = s: seq<Task> | |s| == NR_TASKS witness seq(NR_TASKS, _ => Task(false, false, 0, 1))

  predicate Eligible(t: Task) {
    t.present && t.running
  }

  /** The largest counter found and the task it belongs to. */
  datatype Pick = Pick(c: int, next: nat)

  /** One pass over the tasks from the last down to task i. */
  function Scan(ts: Tasks, i: nat): (r: Pick)
    requires 1 <= i <= NR_TASKS
    decreases NR_TASKS - i
  {
    if i == NR_TASKS then Pick(-1, 0)
    else
      var r := Scan(ts, i + 1);
      if Eligible(ts[i]) && ts[i].counter > r.c then Pick(ts[i].counter, i) else r
  }

  function Recharged(t: Task): Task {
    if t.present then t.(counter := t.counter / 2 + t.priority) else t
  }

  /** New counters for every task but task 0. */
  function Recharge(ts: Tasks): Tasks {
    seq(NR_TASKS, i requires 0 <= i < NR_TASKS => if i == 0 then ts[0] else Recharged(ts[i]))
  }

  datatype Choice = Choice(tasks: Tasks, next: nat, recharged: bool)

  /** schedule: a second pass only after a recharge. */
  function Schedule(ts: Tasks): Choice {
    var r := Scan(ts, 1);
    if r.c != 0 then Choice(ts, r.next, false)
    else Choice(Recharge(ts), Scan(Recharge(ts), 1).next, true)
  }

  predicate Sane(t: Task) {
    t.counter >= 0 && t.priority >= 1
  }

  ghost predicate AllSane(ts: Tasks) {
    forall i :: 0 <= i < NR_TASKS ==> Sane(ts[i])
  }

  /** A pass finds an eligible task with the largest counter, or that there is none. */
  lemma {:induction false} ScanFindsLargest(ts: Tasks, i: nat)
    requires AllSane(ts) && 1 <= i <= NR_TASKS
    ensures var r := Scan(ts, i);
            && (forall k :: i <= k < NR_TASKS && Eligible(ts[k]) ==> ts[k].counter <= r.c)
            && (if r.c == -1 then r.next == 0
                else i <= r.next < NR_TASKS && Eligible(ts[r.next]) && ts[r.next].counter == r.c)
            && r.c >= -1
    decreases NR_TASKS - i
  {
    if i == NR_TASKS {
    } else {
      ScanFindsLargest(ts, i + 1);
    }
  }

  /** What schedule promises: it stops after at most two passes with a runnable task whose counter
      is positive and largest, or with task 0 if nothing else can run; it recharges exactly when
      tasks can run but all of them have used up their time. */
  lemma ScheduleChooses(ts: Tasks)
    requires AllSane(ts)
    ensures var ch := Schedule(ts);
            && AllSane(ch.tasks) && ch.next < NR_TASKS && Scan(ch.tasks, 1).c != 0 && Scan(ch.tasks, 1).next == ch.next
            && (ch.next == 0 <==> forall k :: 1 <= k < NR_TASKS ==> !Eligible(ts[k]))
            && (ch.next != 0 ==>
                && Eligible(ch.tasks[ch.next]) && ch.tasks[ch.next].counter > 0
                && forall k :: 1 <= k < NR_TASKS && Eligible(ch.tasks[k]) ==>
                      ch.tasks[k].counter <= ch.tasks[ch.next].counter)
            && (ch.recharged <==>
                && (exists k :: 1 <= k < NR_TASKS && Eligible(ts[k]))
                && forall k :: 1 <= k < NR_TASKS && Eligible(ts[k]) ==> ts[k].counter == 0)
  {
    ScanFindsLargest(ts, 1);
    var ts' := Recharge(ts);
    assert AllSane(ts');
    ScanFindsLargest(ts', 1);
    var r := Scan(ts, 1);
    if r.c == 0 {
      assert ts'[r.next] == Recharged(ts[r.next]);
    }
  }

  // ---------- counters stay below twice the priority ----------

  ghost predicate Bounded(ts: Tasks) {
    forall i :: 0 <= i < NR_TASKS && ts[i].present ==> 0 <= ts[i].counter < 2 * ts[i].priority
  }

  lemma ScheduleBounded(ts: Tasks)
    requires Bounded(ts)
    ensures Bounded(Schedule(ts).tasks)
  {
  }

  // ---------- the clock ----------

  /** Since the last recharge each task has had `given` ticks, `over` of them when its counter was
      already zero. */
  datatype Cpu = Cpu(tasks: Tasks, current: nat, given: seq<nat>, over: seq<nat>)

  predicate Counting(s: Cpu) {
    s.current < NR_TASKS == |s.given| == |s.over|
  }

  /** do_timer: count down the current task and schedule when it has used up its time, unless the
      kernel was interrupted. */
  function CountDown(ts: Tasks, current: nat, user: bool): Choice
    requires current < NR_TASKS
  {
    var t := ts[current];
    if t.counter > 1 then Choice(ts[current := t.(counter := t.counter - 1)], current, false)
    else
      var spent := ts[current := t.(counter := 0)];
      if user then Schedule(spent) else Choice(spent, current, false)
  }

  function Tick(s: Cpu, user: bool): Cpu
    requires Counting(s)
  {
    var ch := CountDown(s.tasks, s.current, user);
    if ch.recharged then Cpu(ch.tasks, ch.next, seq(NR_TASKS, _ => 0), seq(NR_TASKS, _ => 0))
    else
      Cpu(ch.tasks, ch.next, s.given[s.current := s.given[s.current] + 1],
          s.over[s.current := s.over[s.current] + if s.tasks[s.current].counter > 0 then 0 else 1])
  }

  lemma TickBounded(s: Cpu, user: bool)
    requires Counting(s) && Bounded(s.tasks)
    ensures Bounded(Tick(s, user).tasks)
  {
    var t := s.tasks[s.current];
    var ts := s.tasks[s.current := t.(counter := 0)];
    assert Bounded(ts);
    ScheduleBounded(ts);
  }

  /** Tasks fall asleep, are woken, exit, or begin with their priority as their counter. */
  ghost predicate Regrouped(ts: Tasks, ts': Tasks) {
    forall i :: 0 <= i < NR_TASKS && ts'[i].present ==>
      || (ts[i].present && ts'[i].counter == ts[i].counter && ts'[i].priority == ts[i].priority)
      || ts'[i].counter == ts'[i].priority >= 1
  }

  /** What can happen next: a tick, a call of schedule, or a change of who can run. */
  ghost predicate MayFollow(s: Cpu, s': Cpu) {
    || s'.tasks == Schedule(s.tasks).tasks
    || Regrouped(s.tasks, s'.tasks)
    || exists user :: Counting(s) && s' == Tick(s, user)
  }

  /** Over any run of ticks, recharges and changes of who can run, counters stay below twice the
      priorities. */
  lemma {:induction false} RunBounded(cpus: seq<Cpu>, n: nat)
    requires n < |cpus| && Bounded(cpus[0].tasks) && forall i :: 0 <= i < n ==> MayFollow(cpus[i], cpus[i + 1])
    ensures Bounded(cpus[n].tasks)
  {
    if n == 0 {
    } else {
      RunBounded(cpus, n - 1);
      FollowBounded(cpus[n - 1], cpus[n]);
    }
  }

  lemma FollowBounded(s: Cpu, s': Cpu)
    requires Bounded(s.tasks) && MayFollow(s, s')
    ensures Bounded(s'.tasks)
  {
    if s'.tasks == Schedule(s.tasks).tasks {
      ScheduleBounded(s.tasks);
    } else if !Regrouped(s.tasks, s'.tasks) {
      var user :| Counting(s) && s' == Tick(s, user);
      TickBounded(s, user);
    }
  }

  /** Every runnable task has had its priority less its counter since the last recharge, and what it
      overran. */
  ghost predicate Round(s: Cpu) {
    && AllSane(s.tasks) && Counting(s) && 1 <= s.current && Eligible(s.tasks[s.current])
    && forall i :: 1 <= i < NR_TASKS && Eligible(s.tasks[i]) ==>
         s.given[i] == s.tasks[i].priority - s.tasks[i].counter + s.over[i]
  }

  /** The task on the processor has time left: it does, unless the clock has interrupted the kernel. */
  predicate Charged(s: Cpu)
    requires s.current < NR_TASKS
  {
    s.tasks[s.current].counter > 0
  }

  /** A recharge happens on a user tick that leaves no runnable task any time. */
  ghost predicate Recharges(s: Cpu)
    requires s.current < NR_TASKS
  {
    && s.tasks[s.current].counter <= 1
    && forall i :: 1 <= i < NR_TASKS && i != s.current && Eligible(s.tasks[i]) ==> s.tasks[i].counter == 0
  }

  /** A tick that does not recharge takes one from the counter of the current task, if it has any. */
  lemma TickInRound(s: Cpu, user: bool)
    requires Round(s) && !(user && Recharges(s))
    ensures var s' := Tick(s, user);
            var t := s.tasks[s.current];
            && Round(s') && (user ==> Charged(s'))
            && s'.given == s.given[s.current := s.given[s.current] + 1]
            && s'.tasks == s.tasks[s.current := t.(counter := if t.counter > 0 then t.counter - 1 else 0)]
            && s'.over == s.over[s.current := s.over[s.current] + if t.counter > 0 then 0 else 1]
  {
    if s.tasks[s.current].counter <= 1 && user {
      SwitchTick(s.tasks, s.current);
    }
  }

  /** The current task is out of time and another one is not. */
  lemma SwitchTick(ts: Tasks, current: nat)
    requires AllSane(ts) && 1 <= current < NR_TASKS && ts[current].counter <= 1
    requires exists k :: 1 <= k < NR_TASKS && k != current && Eligible(ts[k]) && ts[k].counter != 0
    ensures var ch := CountDown(ts, current, true);
            && ch.tasks == ts[current := ts[current].(counter := 0)] && !ch.recharged && 1 <= ch.next < NR_TASKS
            && Eligible(ch.tasks[ch.next]) && ch.tasks[ch.next].counter > 0
  {
    var spent := ts[current := ts[current].(counter := 0)];
    var k :| 1 <= k < NR_TASKS && k != current && Eligible(ts[k]) && ts[k].counter != 0;
    assert Eligible(spent[k]) && spent[k].counter != 0;
    ScheduleChooses(spent);
  }

  /** The same tasks are runnable after schedule, with the same priorities. */
  ghost predicate SameTasks(ts: Tasks, ts': Tasks) {
    forall i :: 0 <= i < NR_TASKS ==> Eligible(ts'[i]) == Eligible(ts[i]) && ts'[i].priority == ts[i].priority
  }

  lemma ScheduleKeeps(ts: Tasks)
    ensures SameTasks(ts, Schedule(ts).tasks)
  {
  }

  lemma SpentRecharges(s: Cpu, ts: Tasks)
    requires Round(s) && Recharges(s) && ts == s.tasks[s.current := s.tasks[s.current].(counter := 0)]
    ensures AllSane(ts) && Schedule(ts).recharged
  {
    assert Eligible(ts[s.current]);
    assert forall k :: 1 <= k < NR_TASKS && Eligible(ts[k]) ==> ts[k].counter == 0;
    ScheduleChooses(ts);
  }

  lemma TickRecharges(s: Cpu)
    requires Round(s) && Recharges(s)
    ensures var s' := Tick(s, true);
            && Round(s') && Charged(s') && SameTasks(s.tasks, s'.tasks)
            && s'.given == seq(NR_TASKS, _ => 0) && s'.over == seq(NR_TASKS, _ => 0)
  {
    var ts := s.tasks[s.current := s.tasks[s.current].(counter := 0)];
    var none := seq(NR_TASKS, _ => 0);
    SpentRecharges(s, ts);
    ScheduleKeeps(ts);
    RechargeStartsRound(ts, none);
    assert Tick(s, true) == Cpu(Schedule(ts).tasks, Schedule(ts).next, none, none);
  }

  /** FAIRNESS.  While a fixed set of tasks stays runnable, each of them has had its priority less its
      counter, and what it overran, at every tick of the user or the kernel; so the tick that
      recharges finds that each has had exactly its priority and what it overran.  No user tick
      finds a task without time. */
  lemma TickRound(s: Cpu, user: bool)
    requires Round(s)
    ensures Round(Tick(s, user)) && (user ==> Charged(Tick(s, user)))
    ensures SameTasks(s.tasks, Tick(s, user).tasks)
    ensures user && Recharges(s) ==> forall i :: 1 <= i < NR_TASKS && Eligible(s.tasks[i]) ==>
              && s.given[i] + (if i == s.current && Charged(s) then 1 else 0) == s.tasks[i].priority + s.over[i]
              && Tick(s, user).given[i] == 0 == Tick(s, user).over[i]
    ensures !(user && Recharges(s)) ==>
              && Tick(s, user).given == s.given[s.current := s.given[s.current] + 1]
              && (Charged(s) ==> Tick(s, user).over == s.over)
  {
    hide Tick;
    if user && Recharges(s) {
      TickRecharges(s);
    } else {
      TickInRound(s, user);
    }
  }

  // ---------- the length of a round ----------

  /** The time runnable tasks have left. */
  function Left(ts: Tasks, i: nat): int
    requires 1 <= i <= NR_TASKS
    decreases NR_TASKS - i
  {
    if i == NR_TASKS then 0 else (if Eligible(ts[i]) then ts[i].counter else 0) + Left(ts, i + 1)
  }

  lemma {:induction false} LeftAtLeast(ts: Tasks, i: nat)
    requires AllSane(ts) && 1 <= i <= NR_TASKS
    ensures Left(ts, i) >= 0
    ensures Left(ts, i) == 0 <==> forall k :: i <= k < NR_TASKS && Eligible(ts[k]) ==> ts[k].counter == 0
    decreases NR_TASKS - i
  {
    if i == NR_TASKS {
    } else {
      LeftAtLeast(ts, i + 1);
    }
  }

  lemma {:induction false} LeftChanges(ts: Tasks, ts': Tasks, current: nat, i: nat)
    requires 1 <= i <= NR_TASKS && current < NR_TASKS && Eligible(ts[current])
    requires ts' == ts[current := ts[current].(counter := ts[current].counter - 1)]
    ensures Left(ts', i) == Left(ts, i) - (if i <= current then 1 else 0)
    decreases NR_TASKS - i
  {
    if i == NR_TASKS {
    } else {
      LeftChanges(ts, ts', current, i + 1);
    }
  }

  /** A round is not over while more than one tick is left in it. */
  lemma RechargesAtLast(s: Cpu)
    requires Round(s) && Charged(s)
    ensures Left(s.tasks, 1) >= 1
    ensures Recharges(s) <==> Left(s.tasks, 1) == 1
  {
    hide Left;
    var t := s.tasks[s.current];
    var spent := s.tasks[s.current := t.(counter := t.counter - 1)];
    assert AllSane(spent);
    LeftChanges(s.tasks, spent, s.current, 1);
    LeftAtLeast(spent, 1);
    assert spent[s.current].counter == t.counter - 1;
    assert forall k :: 1 <= k < NR_TASKS && k != s.current ==> spent[k] == s.tasks[k];
    assert Recharges(s) <==> forall k :: 1 <= k < NR_TASKS && Eligible(spent[k]) ==> spent[k].counter == 0;
  }

  lemma RoundShrinks(s: Cpu)
    requires Round(s) && Charged(s) && !Recharges(s)
    ensures var s' := Tick(s, true); Round(s') && Charged(s') && Left(s'.tasks, 1) == Left(s.tasks, 1) - 1
  {
    TickInRound(s, true);
    LeftChanges(s.tasks, Tick(s, true).tasks, s.current, 1);
  }

  /** Every round comes to its recharge: after exactly as many user ticks as the runnable tasks had
      left, less the last one. */
  lemma {:induction false} RoundEnds(s: Cpu)
    requires Round(s) && Charged(s)
    ensures var n := Left(s.tasks, 1); n >= 1 && Round(UserTicks(s, n - 1)) && Recharges(UserTicks(s, n - 1))
    decreases Left(s.tasks, 1)
  {
    RechargesAtLast(s);
    if Recharges(s) {
    } else {
      RoundShrinks(s);
      RoundEnds(Tick(s, true));
    }
  }

  ghost function UserTicks(s: Cpu, n: nat): Cpu
    requires Round(s)
    decreases n
  {
    if n == 0 then s else TickRound(s, true); UserTicks(Tick(s, true), n - 1)
  }

  /** The state after ticks of the user and of the kernel, as `user` says. */
  ghost function Ticks(s: Cpu, user: seq<bool>): Cpu
    requires Round(s)
    decreases |user|
  {
    if user == [] then s else TickRound(s, user[0]); Ticks(Tick(s, user[0]), user[1..])
  }

  /** The round goes on for ever: after any ticks the same tasks are runnable, and every one of them
      has had its priority less its counter, and what it overran, since the last recharge. */
  lemma {:induction false} TicksRound(s: Cpu, user: seq<bool>)
    requires Round(s)
    ensures Round(Ticks(s, user)) && SameTasks(s.tasks, Ticks(s, user).tasks)
    decreases |user|
  {
    if user == [] {
    } else {
      TickRound(s, user[0]);
      TicksRound(Tick(s, user[0]), user[1..]);
    }
  }

  /** With user ticks alone nothing is overrun: every task has had exactly its priority less its
      counter. */
  lemma {:induction false} UserTicksFair(s: Cpu, n: nat)
    requires Round(s) && Charged(s) && forall i :: 0 <= i < NR_TASKS ==> s.over[i] == 0
    ensures var s' := UserTicks(s, n);
            && Round(s') && Charged(s') && (forall i :: 0 <= i < NR_TASKS ==> s'.over[i] == 0)
            && forall i :: 1 <= i < NR_TASKS && Eligible(s'.tasks[i]) ==>
                 s'.given[i] + s'.tasks[i].counter == s'.tasks[i].priority
    decreases n
  {
    hide Tick;
    if n == 0 {
    } else {
      TickRound(s, true);
      if Recharges(s) {
        TickRecharges(s);
      }
      UserTicksFair(Tick(s, true), n - 1);
    }
  }

  /** The first recharge starts a round, whatever happened before. */
  lemma RechargeStartsRound(ts: Tasks, none: seq<nat>)
    requires AllSane(ts) && Schedule(ts).recharged
    requires |none| == NR_TASKS && forall i :: 0 <= i < NR_TASKS ==> none[i] == 0
    ensures var s := Cpu(Schedule(ts).tasks, Schedule(ts).next, none, none); Round(s) && Charged(s)
  {
    ScheduleChooses(ts);
  }

  /** sys_nice: the priority stays positive. */
  function Nice(t: Task, increment: int): (t': Task)
    ensures t.priority >= 1 ==> t'.priority >= 1
    ensures t'.counter == t.counter
  {
    if t.priority - increment > 0 then t.(priority := t.priority - increment) else t
  }

  // ---------- the code ----------

  /** Slot i of the task table when there is only task 0. */
  function Alone(priority: int, i: nat): Task {
    if i == 0 then Task(true, true, priority, priority) else Task(false, false, 0, 1)
  }

  class Processor {
    const task: array<Task>
    var current: nat

    ghost predicate Valid()
      reads this, task
    {
      task.Length == NR_TASKS && current < NR_TASKS && AllSane(task[..])
    }

    /** Task 0 alone, on the processor. */
    constructor (priority: int)
      requires priority >= 1
      ensures Valid() && fresh(task) && current == 0
      ensures task[..] == seq(NR_TASKS, i requires 0 <= i => Alone(priority, i))
    {
      task := new Task[NR_TASKS](i requires 0 <= i => Alone(priority, i));
      current := 0;
      new;
      assert forall i :: 0 <= i < NR_TASKS ==> Sane(task[..][i]);
    }

    method ScanTasks() returns (c: int, next: nat)
      requires task.Length == NR_TASKS
      ensures Pick(c, next) == Scan(task[..], 1)
    {
      c, next := -1, 0;
      var i := NR_TASKS;
      while i > 1
        invariant 1 <= i <= NR_TASKS && Pick(c, next) == Scan(task[..], i)
      {
        i := i - 1;
        if Eligible(task[i]) && task[i].counter > c {
          c, next := task[i].counter, i;
        }
      }
    }

    method RechargeTasks()
      requires task.Length == NR_TASKS
      modifies task
      ensures task[..] == Recharge(old(task[..]))
    {
      var i := NR_TASKS;
      while i > 1
        invariant 1 <= i <= NR_TASKS
        invariant forall k :: 0 <= k < i ==> task[k] == old(task[k])
        invariant forall k :: i <= k < NR_TASKS ==> task[k] == Recharged(old(task[k]))
      {
        i := i - 1;
        if task[i].present {
          task[i] := task[i].(counter := task[i].counter / 2 + task[i].priority);
        }
      }
    }

    /** schedule proper; the loop ends in its second pass at the latest. */
    method Reschedule()
      requires Valid()
      modifies this`current, task
      ensures Valid() && task[..] == Schedule(old(task[..])).tasks && current == Schedule(old(task[..])).next
    {
      ghost var passes := 0;
      var c, next;
      ScheduleChooses(task[..]);
      while true
        invariant task.Length == NR_TASKS && 0 <= passes <= 1
        invariant passes == 0 ==> task[..] == old(task[..])
        invariant passes == 1 ==> Schedule(old(task[..])).recharged && task[..] == Recharge(old(task[..]))
        decreases 1 - passes
      {
        c, next := ScanTasks();
        if c != 0 {
          break;
        }
        RechargeTasks();
        passes := passes + 1;
      }
      current := next;
    }

    method DoTimer(user: bool)
      requires Valid()
      modifies this`current, task
      ensures Valid()
      ensures var ch := CountDown(old(task[..]), old(current), user); task[..] == ch.tasks && current == ch.next
    {
      task[current] := task[current].(counter := task[current].counter - 1);
      if task[current].counter > 0 {
        return;
      }
      task[current] := task[current].(counter := 0);
      assert task[..] == old(task[..])[current := old(task[current]).(counter := 0)];
      if !user {
        return;
      }
      Reschedule();
    }
  }
}
