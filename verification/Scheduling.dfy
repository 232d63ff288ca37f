/** The per-CPU scheduler (Kernel/lib.h: insert_task_queue; Kernel/Task.c: get_next_task, schedule;
    Kernel/Time.c: the tick) as functions of its state. Tasks are of any type. */
module Scheduling {
  import opened Sequences

  datatype State = Running | Uninterruptible | Zombie

  /** The scheduler's fields of a task_struct. */
  datatype Info = Info(pid: int, priority: int, vrun: int, state: State, need: bool)

  /** tasks: all tasks with their fields; queue: the run queue behind its sentinel; idle: the task
      of init_task_union, which is never queued; count: running_task_count; quantum:
      CPU_exec_task_jiffies. */
  datatype Sched<T(==)> = Sched(tasks: map<T, Info>, queue: seq<T>, current: T, idle: T,
                                count: int, quantum: int, switches: int)

  /** vrun_time of the sentinel, the largest long. */
  const MAX_LONG: int := 0x7fff_ffff_ffff_ffff

  /** The scheduler's own invariant. */
  ghost predicate Consistent<T>(s: Sched<T>)
  {
    && s.current in s.tasks && s.idle in s.tasks
    && Distinct(s.queue) && s.idle !in s.queue && s.current !in s.queue
    && (forall t | t in s.queue :: t in s.tasks && s.tasks[t].state == Running)
    && Sorted(s.tasks, s.queue)
    && s.count == 1 + |s.queue|
  }

  ghost predicate Sorted<T>(tasks: map<T, Info>, q: seq<T>)
    requires forall t | t in q :: t in tasks
  {
    forall i, j | 0 <= i < j < |q| :: tasks[q[i]].vrun <= tasks[q[j]].vrun
  }

  // ----- the operations -----

  /** The walk of insert_task_queue: past every queued task with a smaller vrun_time. */
  function InsertPoint<T(==)>(tasks: map<T, Info>, q: seq<T>, v: int, k: nat): (r: nat)
    requires k <= |q|
    ensures k <= r <= |q|
    decreases |q| - k
  {
    if k < |q| && q[k] in tasks && tasks[q[k]].vrun < v then InsertPoint(tasks, q, v, k + 1) else k
  }

  /** insert_task_queue: the idle task, and any task whose pid is below running_task_count, is
      silently left out. */
  function Insert<T(==)>(s: Sched<T>, t: T): (r: Sched<T>)
    requires t in s.tasks
  {
    if t == s.idle || s.tasks[t].pid < s.count then s
    else
      var k := InsertPoint(s.tasks, s.queue, s.tasks[t].vrun, 0);
      s.(queue := s.queue[..k] + [t] + s.queue[k..], count := s.count + 1)
  }

  function NextTask<T(==)>(s: Sched<T>): (r: T)
  {
    if s.queue == [] then s.idle else s.queue[0]
  }

  /** get_next_task also takes the task off the queue. */
  function Dequeue<T(==)>(s: Sched<T>): (r: Sched<T>)
  {
    if s.queue == [] then s else s.(queue := s.queue[1..], count := s.count - 1)
  }

  /** The quantum is set only when it is exactly zero; C's division. */
  function Refill<T(==)>(s: Sched<T>, priority: int): (r: Sched<T>)
    requires s.count > 0
  {
    if s.quantum != 0 then s
    else s.(quantum := if priority == 0 || priority == 1 then 4 / s.count else 4 / s.count * 3)
  }

  function SetNeed<T(==)>(s: Sched<T>, t: T, need: bool): (r: Sched<T>)
    requires t in s.tasks
  {
    s.(tasks := s.tasks[t := s.tasks[t].(need := need)])
  }

  function Schedule<T(==)>(s: Sched<T>): (r: Sched<T>)
    requires Consistent(s)
  {
    var c := s.current;
    var s0 := SetNeed(s, c, false);
    var t := NextTask(s0);
    var s1 := Dequeue(s0);
    var s2 := if s.tasks[c].vrun > s.tasks[t].vrun || s.tasks[c].state != Running
              then (if s.tasks[c].state == Running then Insert(s1, c) else s1)
              else Insert(s1, t);
    var s3 := Refill(s2, s.tasks[t].priority);
    if s.tasks[c].vrun > s.tasks[t].vrun || s.tasks[c].state != Running
    then s3.(current := t, switches := s3.switches + 1)
    else s3
  }

  /** What a tick costs a task of this priority. */
  function Cost(priority: int): (r: int)
  {
    if priority == 0 || priority == 1 then 1 else 2
  }

  /** APIC_Timer_handler (and HPET_handler, which does the same). */
  function Tick<T(==)>(s: Sched<T>): (r: Sched<T>)
    requires s.current in s.tasks
  {
    var i := s.tasks[s.current];
    var q := s.quantum - Cost(i.priority);
    s.(quantum := q, tasks := s.tasks[s.current := i.(vrun := i.vrun + Cost(i.priority), need := i.need || q <= 0)])
  }

  /** The timer interrupt: the handler, then schedule if the current task is marked. */
  function TimerInterrupt<T(==)>(s: Sched<T>): (r: Sched<T>)
    requires Consistent(s)
  {
    TickKeeps(s);
    var s1 := Tick(s);
    if s1.tasks[s1.current].need then Schedule(s1) else s1
  }

  // ----- what they keep -----

  lemma TickKeeps<T>(s: Sched<T>)
    requires Consistent(s)
    ensures Consistent(Tick(s))
    ensures Tick(s).tasks[s.current].vrun + Tick(s).quantum == s.tasks[s.current].vrun + s.quantum
  {
  }

  /** Priorities 0 and 1 are charged one, all others two; the task is marked as soon as the quantum is
      used up, and stays marked; nothing else changes. */
  lemma TickCharges<T>(s: Sched<T>)
    requires s.current in s.tasks
    ensures var r := Tick(s); var i, j := s.tasks[s.current], r.tasks[s.current];
      && j.vrun == i.vrun + (if i.priority == 0 || i.priority == 1 then 1 else 2)
      && (j.need <==> i.need || r.quantum <= 0)
      && j.(vrun := i.vrun, need := i.need) == i && r.(tasks := s.tasks, quantum := s.quantum) == s
      && r.tasks.Keys == s.tasks.Keys && forall t | t in s.tasks && t != s.current :: r.tasks[t] == s.tasks[t]
  {
  }

  lemma {:induction false} PlaceFacts<T>(tasks: map<T, Info>, q: seq<T>, v: int, k: nat)
    requires k <= |q| && (forall t | t in q :: t in tasks) && Sorted(tasks, q)
    requires forall i | 0 <= i < k :: tasks[q[i]].vrun < v
    ensures var r := InsertPoint(tasks, q, v, k);
      && (forall i | 0 <= i < r :: tasks[q[i]].vrun < v)
      && (forall i | r <= i < |q| :: v <= tasks[q[i]].vrun)
    decreases |q| - k
  {
    if k < |q| && tasks[q[k]].vrun < v {
      PlaceFacts(tasks, q, v, k + 1);
    }
  }

  /** Inserting a running task that is neither queued nor current keeps the queue sorted and
      counted; the task is queued exactly when it is not the idle task and its pid is not below
      running_task_count. */
  lemma InsertKeeps<T>(s: Sched<T>, t: T)
    requires Consistent(s.(current := s.idle)) && t in s.tasks && (t == s.idle || s.tasks[t].state == Running) && t !in s.queue
    ensures Consistent(Insert(s, t).(current := s.idle))
    ensures t in Insert(s, t).queue <==> t != s.idle && s.tasks[t].pid >= s.count
    ensures forall u | u != t :: u in Insert(s, t).queue <==> u in s.queue
    ensures Insert(s, t).(queue := s.queue, count := s.count) == s
  {
    if t != s.idle && s.tasks[t].pid >= s.count {
      var k := InsertPoint(s.tasks, s.queue, s.tasks[t].vrun, 0);
      PlaceFacts(s.tasks, s.queue, s.tasks[t].vrun, 0);
      InsertSorted(s, t, k);
    }
  }

  lemma InsertSorted<T>(s: Sched<T>, t: T, k: nat)
    requires Consistent(s.(current := s.idle)) && t in s.tasks && t !in s.queue && k <= |s.queue|
    requires forall i | 0 <= i < k :: s.tasks[s.queue[i]].vrun < s.tasks[t].vrun
    requires forall i | k <= i < |s.queue| :: s.tasks[t].vrun <= s.tasks[s.queue[i]].vrun
    ensures var q := s.queue[..k] + [t] + s.queue[k..];
      && Distinct(q) && (forall u :: u in q <==> u == t || u in s.queue) && Sorted(s.tasks, q)
  {
    assert forall u | u in s.queue :: u in s.tasks;
    InsertMembers(s.queue, k, t);
    SortedInsert(s.tasks, s.queue, k, t);
  }

  lemma InsertMembers<T>(q: seq<T>, k: nat, t: T)
    requires k <= |q| && Distinct(q) && t !in q
    ensures Distinct(q[..k] + [t] + q[k..]) && forall u :: u in q[..k] + [t] + q[k..] <==> u == t || u in q
  {
  }

  lemma SortedInsert<T>(tasks: map<T, Info>, q: seq<T>, k: nat, t: T)
    requires k <= |q| && t in tasks && (forall u | u in q :: u in tasks) && Sorted(tasks, q)
    requires forall i | 0 <= i < k :: tasks[q[i]].vrun <= tasks[t].vrun
    requires forall i | k <= i < |q| :: tasks[t].vrun <= tasks[q[i]].vrun
    ensures (forall u | u in q[..k] + [t] + q[k..] :: u in tasks) && Sorted(tasks, q[..k] + [t] + q[k..])
  {
  }

  /** t competes for the CPU: queued, or current and running. */
  predicate Runnable<T(==)>(s: Sched<T>, t: T)
  {
    t in s.queue || (t == s.current && t in s.tasks && s.tasks[t].state == Running)
  }

  /** schedule switches away from the current task. */
  predicate Switches<T(==)>(s: Sched<T>)
    requires s.current in s.tasks && NextTask(s) in s.tasks
  {
    s.tasks[s.current].vrun > s.tasks[NextTask(s)].vrun || s.tasks[s.current].state != Running
  }

  lemma DequeueKeeps<T>(s: Sched<T>)
    requires Consistent(s)
    ensures NextTask(s) in s.tasks && Consistent(Dequeue(s).(current := s.idle))
    ensures s.queue != [] ==> NextTask(s) != s.idle && NextTask(s) != s.current && NextTask(s) !in Dequeue(s).queue
    ensures s.queue == [] ==> NextTask(s) == s.idle
    ensures forall t | t in Dequeue(s).queue :: t in s.queue && s.tasks[NextTask(s)].vrun <= s.tasks[t].vrun
    ensures forall t | t in s.queue :: t == NextTask(s) || t in Dequeue(s).queue
  {
  }

  lemma NeedKeeps<T>(s: Sched<T>, t: T, need: bool)
    requires Consistent(s) && t in s.tasks
    ensures Consistent(SetNeed(s, t, need)) && NextTask(SetNeed(s, t, need)) == NextTask(s)
    ensures forall u | u in s.tasks :: u in SetNeed(s, t, need).tasks && SetNeed(s, t, need).tasks[u].(need := s.tasks[u].need) == s.tasks[u]
  {
  }

  /** The task schedule puts back, if any: the current one when it switches, else the candidate. */
  function PutBack<T(==)>(s: Sched<T>): (r: T)
    requires s.current in s.tasks && NextTask(s) in s.tasks
  {
    if Switches(s) then s.current else NextTask(s)
  }

  predicate PutsBack<T(==)>(s: Sched<T>)
    requires s.current in s.tasks && NextTask(s) in s.tasks
  {
    s.tasks[s.current].state == Running
  }

  /** schedule in three moves: take the candidate, put one task back, set the quantum. */
  lemma ScheduleShape<T>(s: Sched<T>)
    requires Consistent(s)
    ensures NextTask(s) in s.tasks
    ensures var s0 := SetNeed(s, s.current, false);
      var s1 := Dequeue(s0);
      var s2 := if PutsBack(s) then Insert(s1, PutBack(s)) else s1;
      && Consistent(s1.(current := s.idle)) && s1.count > 0 && s2.count > 0
      && Schedule(s) == Refill(s2, s.tasks[NextTask(s)].priority)
            .(current := if Switches(s) then NextTask(s) else s.current,
              switches := if Switches(s) then s.switches + 1 else s.switches)
  {
    NeedKeeps(s, s.current, false);
    DequeueKeeps(SetNeed(s, s.current, false));
  }

  /** The queue between the second and the third move. */
  lemma AfterPutBack<T>(s: Sched<T>) returns (s1: Sched<T>, s2: Sched<T>)
    requires Consistent(s)
    ensures NextTask(s) in s.tasks && s1 == Dequeue(SetNeed(s, s.current, false))
    ensures s2 == if PutsBack(s) then Insert(s1, PutBack(s)) else s1
    ensures s1.idle == s.idle && s1.tasks == SetNeed(s, s.current, false).tasks && s1.count == Dequeue(s).count
    ensures s1.queue == Dequeue(s).queue && s1.current == s.current && s1.quantum == s.quantum
    ensures Consistent(s2.(current := s.idle)) && s2.(queue := s1.queue, count := s1.count) == s1
    ensures PutsBack(s) ==> (PutBack(s) in s2.queue <==> PutBack(s) != s.idle && s.tasks[PutBack(s)].pid >= s1.count)
    ensures forall u | !PutsBack(s) || u != PutBack(s) :: u in s2.queue <==> u in s1.queue
  {
    ScheduleShape(s);
    NeedKeeps(s, s.current, false);
    var s0 := SetNeed(s, s.current, false);
    DequeueKeeps(s0);
    DequeueKeeps(s);
    s1 := Dequeue(s0);
    s2 := if PutsBack(s) then Insert(s1, PutBack(s)) else s1;
    hide InsertPoint;
    if PutsBack(s) {
      InsertKeeps(s1, PutBack(s));
    }
  }

  /** After schedule the invariant holds, and nobody's accounting has changed. */
  lemma ScheduleKeeps<T>(s: Sched<T>)
    requires Consistent(s)
    ensures var r := Schedule(s); Consistent(r) && r.idle == s.idle && r.tasks == SetNeed(s, s.current, false).tasks
  {
    ScheduleShape(s);
    DequeueKeeps(s);
    var s1, s2 := AfterPutBack(s);
    hide Insert;
  }

  /** schedule clears the mark of the task that called it, and touches no other field of any task. */
  lemma ScheduleClears<T>(s: Sched<T>)
    requires Consistent(s)
    ensures var r := Schedule(s);
      && r.tasks.Keys == s.tasks.Keys && !r.tasks[s.current].need
      && r.tasks[s.current].(need := s.tasks[s.current].need) == s.tasks[s.current]
      && forall t | t in s.tasks && t != s.current :: r.tasks[t] == s.tasks[t]
  {
    ScheduleKeeps(s);
    hide Schedule;
  }

  /** The current task keeps the CPU exactly if it is running and nobody queued, or the idle task if
      nobody is, has a smaller vrun_time; else the least one gets it, and the switch is counted. */
  lemma ScheduleSwitches<T>(s: Sched<T>)
    requires Consistent(s)
    ensures var r, c := Schedule(s), s.tasks[s.current];
      var stays := c.state == Running
        && if s.queue == [] then c.vrun <= s.tasks[s.idle].vrun else forall t | t in s.queue :: c.vrun <= s.tasks[t].vrun;
      && r.switches == (if stays then s.switches else s.switches + 1)
      && (stays ==> r.current == s.current)
      && (!stays ==> if s.queue == [] then r.current == s.idle
                     else r.current in s.queue && forall t | t in s.queue :: s.tasks[r.current].vrun <= s.tasks[t].vrun)
  {
    ScheduleShape(s);
    DequeueKeeps(s);
    hide Insert, Refill;
    assert s.queue != [] ==> NextTask(s) in s.queue;
  }

  /** The chosen task has the least vrun_time of all that are queued. */
  lemma ScheduleChoosesLeast<T>(s: Sched<T>)
    requires Consistent(s)
    ensures var r := Schedule(s);
      forall t | t in r.queue :: r.current in r.tasks && t in r.tasks && r.tasks[r.current].vrun <= r.tasks[t].vrun
  {
    ScheduleKeeps(s);
    ScheduleShape(s);
    DequeueKeeps(s);
    var s1, s2 := AfterPutBack(s);
    hide Insert;
    var r := Schedule(s);
    forall t | t in r.queue ensures r.tasks[r.current].vrun <= r.tasks[t].vrun {
      assert t in s1.queue || t == PutBack(s);
    }
  }

  /** A task other than idle loses the CPU for good exactly if it is the one to be put back and its
      pid is below running_task_count; and no task comes to compete that did not before. */
  lemma ScheduleLosesIff<T>(s: Sched<T>, t: T)
    requires Consistent(s) && t in s.tasks && t != s.idle
    ensures NextTask(s) in s.tasks
    ensures Runnable(Schedule(s), t) ==> Runnable(s, t)
    ensures Runnable(s, t) && !Runnable(Schedule(s), t)
      <==> PutsBack(s) && t == PutBack(s) && s.tasks[t].pid < Dequeue(s).count
  {
    ScheduleKeeps(s);
    ScheduleShape(s);
    DequeueKeeps(s);
    var s1, s2 := AfterPutBack(s);
    hide Insert;
    assert Schedule(s).queue == s2.queue;
  }

  // ----- a task can be lost -----

  /** Three runnable tasks are enough: with pids 1, 2, 3 the task with pid 1 is dropped when its
      turn ends, and no queue holds it any more. */
  lemma LostTask()
    ensures var s := Sched(map[0 := Info(0, 2, 0, Running, false), 1 := Info(1, 2, 10, Running, true),
                               2 := Info(2, 2, 4, Running, false), 3 := Info(3, 2, 6, Running, false)],
                           [2, 3], 1, 0, 3, 0, 0);
      Consistent(s) && Runnable(s, 1) && Schedule(s).current == 2 && !Runnable(Schedule(s), 1)
  {
  }

  // ----- how far the running task can get ahead -----

  datatype SchedOp = OnTick | OnSchedule

  function Do<T(==)>(s: Sched<T>, op: SchedOp): (r: Sched<T>)
    requires Consistent(s)
  {
    match op
    case OnTick => TimerInterrupt(s)
    case OnSchedule => Schedule(s)
  }

  /** start: the running task's vrun_time when it was last chosen. What it has used since and what
      is left of the quantum add up to at most 12; a task charged by twos has used an even number;
      and unless it has just been chosen, some quantum is left. */
  ghost predicate Ahead<T>(s: Sched<T>, start: int)
  {
    && Consistent(s)
    && (forall t | t in s.queue :: start <= s.tasks[t].vrun)
    && var i := s.tasks[s.current];
       && start <= i.vrun && i.vrun - start + s.quantum <= 12
       && (Cost(i.priority) == 2 ==> (i.vrun - start) % 2 == 0)
       && (s.quantum > 0 || i.vrun == start)
  }

  lemma RefillBounded<T>(s: Sched<T>, priority: int)
    requires s.count > 0
    ensures s.quantum != 0 ==> Refill(s, priority).quantum == s.quantum
    ensures s.quantum == 0 ==> 0 <= Refill(s, priority).quantum <= 12
    ensures Refill(s, priority).(quantum := s.quantum) == s
  {
  }

  lemma ScheduleResets<T>(s: Sched<T>)
    requires Consistent(s) && s.quantum <= 12
    ensures Ahead(Schedule(s), Schedule(s).tasks[Schedule(s).current].vrun)
  {
    ScheduleKeeps(s);
    ScheduleChoosesLeast(s);
    ScheduleShape(s);
    var s1, s2 := AfterPutBack(s);
    RefillBounded(s2, s.tasks[NextTask(s)].priority);
    hide Insert, Refill;
  }

  /** Even between the handler and schedule, at the end of the longest slice, the running task is
      at most 12 ahead of every queued one. */
  lemma TickStaysNear<T>(s: Sched<T>, start: int)
    requires Ahead(s, start)
    ensures var r := Tick(s);
      && (forall t | t in r.queue :: t in r.tasks && r.tasks[r.current].vrun <= r.tasks[t].vrun + 12)
      && (!r.tasks[r.current].need ==> Ahead(r, start)) && r.quantum <= 12 && Consistent(r)
  {
  }

  lemma DoKeeps<T>(s: Sched<T>, op: SchedOp)
    requires Consistent(s)
    ensures Consistent(Do(s, op))
  {
    TickKeeps(s);
    ScheduleKeeps(s);
    ScheduleKeeps(Tick(s));
  }

  /** A run of ticks and schedules. */
  function RunAll<T(==)>(s: Sched<T>, ops: seq<SchedOp>): (r: Sched<T>)
    requires Consistent(s)
    ensures Consistent(r)
    decreases |ops|
  {
    if ops == [] then s
    else
      DoKeeps(s, ops[0]);
      RunAll(Do(s, ops[0]), ops[1..])
  }

  /** In any run of ticks and schedules in which nobody is inserted from outside, the running task
      never gets more than 12 ahead of the least queued vrun_time. */
  lemma {:induction false} NeverFarAhead<T>(s: Sched<T>, start: int, ops: seq<SchedOp>)
    requires Ahead(s, start)
    ensures var r := RunAll(s, ops);
      forall t | t in r.queue :: t in r.tasks && r.tasks[r.current].vrun <= r.tasks[t].vrun + 12
    decreases |ops|
  {
    if ops == [] {
      assert RunAll(s, ops) == s;
    } else {
      var s1, start1 := StepNear(s, start, ops[0]);
      assert RunAll(s, ops) == RunAll(s1, ops[1..]);
      NeverFarAhead(s1, start1, ops[1..]);
    }
  }

  lemma StepNear<T>(s: Sched<T>, start: int, op: SchedOp) returns (r: Sched<T>, start': int)
    requires Ahead(s, start)
    ensures r == Do(s, op) && Ahead(r, start')
  {
    TickStaysNear(s, start);
    var s1 := if op.OnTick? then Tick(s) else s;
    if op.OnTick? && !s1.tasks[s1.current].need {
      r, start' := s1, start;
    } else {
      ScheduleResets(s1);
      r, start' := Schedule(s1), Schedule(s1).tasks[Schedule(s1).current].vrun;
    }
  }

  // ----- the quantum -----

  /** running_task_count after schedule, from what is known before it: the candidate is off the queue,
      and the task put back counts unless it is the idle task or has too small a pid. */
  function CountAfter<T(==)>(s: Sched<T>): (r: int)
    requires s.current in s.tasks && NextTask(s) in s.tasks
  {
    var n := Dequeue(s).count;
    if PutsBack(s) && PutBack(s) != s.idle && s.tasks[PutBack(s)].pid >= n then n + 1 else n
  }

  lemma CountsAfter<T>(s: Sched<T>)
    requires Consistent(s)
    ensures NextTask(s) in s.tasks && Schedule(s).count == CountAfter(s) >= 1
  {
    ScheduleShape(s);
    var s1, s2 := AfterPutBack(s);
    hide Consistent, InsertPoint;
  }

  /** schedule gives a new quantum exactly when the old one is zero and at most four tasks compete:
      with five or more the new one is zero again. */
  lemma RefillIff<T>(s: Sched<T>)
    requires Consistent(s)
    ensures NextTask(s) in s.tasks
    ensures s.quantum != 0 ==> Schedule(s).quantum == s.quantum
    ensures s.quantum == 0 ==> 0 <= Schedule(s).quantum <= 12 && (Schedule(s).quantum > 0 <==> CountAfter(s) <= 4)
    ensures s.quantum == 0 && CountAfter(s) <= 4 ==>
      Schedule(s).quantum == 4 / CountAfter(s) * if Cost(s.tasks[NextTask(s)].priority) == 1 then 1 else 3
  {
    CountsAfter(s);
    ScheduleShape(s);
    var s1, s2 := AfterPutBack(s);
    hide Insert, Consistent, CountAfter;
    Quarter(s2.count);
  }

  lemma Quarter(n: int)
    requires n >= 1
    ensures 4 / n == if n == 1 then 4 else if n == 2 then 2 else if n <= 4 then 1 else 0
  {
  }

  /** n ticks of the running task, with nothing in between. */
  function Ticks<T(==)>(s: Sched<T>, n: nat): (r: Sched<T>)
    requires s.current in s.tasks
    ensures r.current == s.current && r.tasks.Keys == s.tasks.Keys
  {
    if n == 0 then s else Tick(Ticks(s, n - 1))
  }

  lemma {:induction false} TicksCharge<T>(s: Sched<T>, n: nat)
    requires s.current in s.tasks
    ensures Ticks(s, n).tasks[s.current].priority == s.tasks[s.current].priority
    ensures Ticks(s, n).quantum == s.quantum - n * Cost(s.tasks[s.current].priority)
    decreases n
  {
    if n > 0 { TicksCharge(s, n - 1); }
  }

  /** Ticks alone bring the quantum to zero exactly if the running task's charge divides it. */
  lemma SliceEnds<T>(s: Sched<T>)
    requires s.current in s.tasks && s.quantum >= 0
    ensures var c := Cost(s.tasks[s.current].priority);
      (exists n :: n > 0 && Ticks(s, n).quantum == 0) <==> s.quantum > 0 && s.quantum % c == 0
    ensures exists n :: n > 0 && Ticks(s, n).quantum <= 0
  {
    hide Ticks;
    var c, q := Cost(s.tasks[s.current].priority), s.quantum;
    var n := if q > 0 && q % c == 0 then q / c else q + 1;
    TicksCharge(s, n);
    forall k | k > 0 && Ticks(s, k).quantum == 0 ensures q > 0 && q % c == 0 { TicksCharge(s, k); }
    assert n > 0 && Ticks(s, n).quantum <= 0;
  }

  lemma RunsIn<T>(s: Sched<T>)
    requires Consistent(s)
    ensures s.current in s.tasks && s.idle in s.tasks
  {
  }

  /** The slice that begins when schedule finds the quantum used up is used up itself, so that the
      next one can begin, exactly if at most two tasks compete, or at most four and the one that runs
      is charged by ones. Otherwise the quantum is below zero after some ticks without having been
      zero after any. */
  lemma SliceEndsIff<T>(s: Sched<T>)
    requires Consistent(s) && s.quantum == 0
    ensures Consistent(Schedule(s)) && NextTask(s) in s.tasks
    ensures var r := Schedule(s); var c := Cost(r.tasks[r.current].priority);
      && ((exists n :: n > 0 && Ticks(r, n).quantum == 0) <==> CountAfter(s) <= 2 || (CountAfter(s) <= 4 && c == 1))
      && (exists n :: n > 0 && Ticks(r, n).quantum <= 0)
  {
    hide Schedule, Consistent, CountAfter, NextTask, Ticks;
    RunsIn(s);
    RefillIff(s);
    CountsAfter(s);
    ScheduleKeeps(s);
    RunsIn(Schedule(s));
    Quarter(CountAfter(s));
    SliceEnds(Schedule(s));
  }

  /** A quantum of one and a task charged by twos: the quantum passes zero without meeting it. From
      then on it is never set again, in any run, and every timer interrupt reschedules. */
  lemma {:induction false} OnceNegativeForEver<T>(s: Sched<T>, ops: seq<SchedOp>)
    requires Consistent(s) && s.quantum < 0
    ensures var r := RunAll(s, ops); r.quantum <= s.quantum && Tick(r).tasks[r.current].need
    decreases |ops|
  {
    if ops != [] {
      TickKeeps(s);
      DoKeeps(s, ops[0]);
      RefillIff(s);
      RefillIff(Tick(s));
      OnceNegativeForEver(Do(s, ops[0]), ops[1..]);
    }
  }

  /** With three or four tasks competing, the very slice that schedule hands to a task charged by
      twos ends that way: after two ticks the quantum is -1. */
  lemma SliceOfThreeDies<T>(s: Sched<T>)
    requires Consistent(s) && s.quantum == 0 && (s.count == 3 || s.count == 4)
    requires s.queue != [] && s.tasks[s.current].state == Running && s.tasks[s.current].vrun <= s.tasks[s.queue[0]].vrun
    requires Cost(s.tasks[s.current].priority) == 2 && Cost(s.tasks[s.queue[0]].priority) == 2
    requires s.tasks[s.queue[0]].pid >= s.count - 1
    ensures var r := Schedule(s);
      r.current == s.current && r.quantum == 3 && Consistent(r) && Tick(Tick(r)).quantum == -1
  {
    ScheduleKeeps(s);
    ScheduleShape(s);
    var s1, s2 := AfterPutBack(s);
    assert s.queue[0] in s.queue;
  }
}
