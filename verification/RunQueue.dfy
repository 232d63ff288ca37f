/** The kernel's circular lists and the run queue built on them (Kernel/lib.h: List_Init,
    List_Insert_After, List_Insert_Before, List_Del, List_is_empty, insert_task_queue; Kernel/Task.c: get_next_task,
    schedule; Kernel/Time.c: the tick), with the links as they are. */
module RunQueue {
  import opened Sequences
  import opened Scheduling

  /** A task_struct: its list links and the fields the scheduler uses. */
  class Task {
    var prev: Task
    var next: Task
    const pid: int
    const priority: int
    var vrun: int
    var state: State
    var need: bool

    /** List_Init */
    constructor (pid: int, priority: int, vrun: int, state: State)
      ensures prev == this && next == this
      ensures Fields() == Info(pid, priority, vrun, state, false)
    {
      prev, next := this, this;
      this.pid, this.priority, this.vrun, this.state, need := pid, priority, vrun, state, false;
    }

    function Fields(): Info
      reads this`vrun, this`state, this`need
    {
      Info(pid, priority, vrun, state, need)
    }
  }

  // ----- lists -----

  function After(i: nat, n: nat): (r: nat)
  {
    if i + 1 == n then 0 else i + 1
  }

  /** q[i] and the one behind it point at each other. */
  ghost predicate Linked(q: seq<Task>, i: nat)
    requires i < |q|
    reads (set t | t in q)`prev, (set t | t in q)`next
  {
    q[i].next == q[After(i, |q|)] && q[After(i, |q|)].prev == q[i]
  }

  /** The tasks of q, in this order, form one ring: next leads on, prev leads back. */
  ghost predicate Ring(q: seq<Task>)
    reads (set t | t in q)`prev, (set t | t in q)`next
  {
    q != [] && Distinct(q) && forall i | 0 <= i < |q| :: Linked(q, i)
  }

  /** List_is_empty, for the head of a ring. */
  method IsEmpty(head: Task, ghost q: seq<Task>) returns (r: bool)
    requires Ring(q) && q[0] == head
    ensures r <==> |q| == 1
  {
    assert Linked(q, 0) && Linked(q, |q| - 1);
    r := head == head.next && head.prev == head;
  }

  lemma DistinctInsert<T>(q: seq<T>, k: nat, x: T)
    requires Distinct(q) && k <= |q| && x !in q
    ensures Distinct(q[..k] + [x] + q[k..])
  {
  }

  lemma DistinctRemove<T>(q: seq<T>, k: nat)
    requires Distinct(q) && k < |q|
    ensures Distinct(q[..k] + q[k + 1..]) && q[k] !in q[..k] + q[k + 1..]
  {
  }

  /** List_Insert_Before: newer comes right before entry, which for the head of the ring is the end. */
  method InsertBefore(entry: Task, newer: Task, ghost q: seq<Task>, ghost k: nat)
    requires Ring(q) && 0 < k <= |q| && newer !in q && entry == q[if k == |q| then 0 else k]
    modifies newer`prev, newer`next, (set t | t in q)`prev, (set t | t in q)`next
    ensures Ring(q[..k] + [newer] + q[k..])
  {
    assert Linked(q, k - 1);
    assert entry.prev == q[k - 1] && q[k - 1] in q;
    newer.next := entry;
    entry.prev.next := newer;
    newer.prev := entry.prev;
    entry.prev := newer;
    ghost var r := q[..k] + [newer] + q[k..];
    DistinctInsert(q, k, newer);
    assert forall i | 0 <= i < |r| :: r[i] == if i < k then q[i] else if i == k then newer else q[i - 1];
    forall i | 0 <= i < |r| ensures Linked(r, i) {
      if i < k - 1 {
        assert old(Linked(q, i));
      } else if i > k {
        assert old(Linked(q, i - 1));
      }
    }
  }

  /** List_Insert_After */
  method InsertAfter(entry: Task, newer: Task, ghost q: seq<Task>, ghost k: nat)
    requires Ring(q) && k < |q| && newer !in q && entry == q[k]
    modifies newer`prev, newer`next, (set t | t in q)`prev, (set t | t in q)`next
    ensures Ring(q[..k + 1] + [newer] + q[k + 1..])
  {
    assert Linked(q, k);
    assert entry.next == q[After(k, |q|)] && q[After(k, |q|)] in q;
    newer.next := entry.next;
    newer.prev := entry;
    newer.next.prev := newer;
    entry.next := newer;
    ghost var r := q[..k + 1] + [newer] + q[k + 1..];
    DistinctInsert(q, k + 1, newer);
    assert forall i | 0 <= i < |r| :: r[i] == if i <= k then q[i] else if i == k + 1 then newer else q[i - 1];
    forall i | 0 <= i < |r| ensures Linked(r, i) {
      if i < k {
        assert old(Linked(q, i));
      } else if i > k + 1 {
        assert old(Linked(q, i - 1));
      }
    }
  }

  /** List_Del of an entry that is not the head; its own links stay. */
  method Delete(entry: Task, ghost q: seq<Task>, ghost k: nat)
    requires Ring(q) && 0 < k < |q| && q[k] == entry
    modifies (set t | t in q)`prev, (set t | t in q)`next
    ensures Ring(q[..k] + q[k + 1..])
  {
    assert Linked(q, k - 1) && Linked(q, k);
    assert entry.prev == q[k - 1] && entry.next == q[After(k, |q|)];
    assert q[k - 1] in q && q[After(k, |q|)] in q;
    entry.prev.next := entry.next;
    entry.next.prev := entry.prev;
    ghost var r := q[..k] + q[k + 1..];
    DistinctRemove(q, k);
    assert forall i | 0 <= i < |r| :: r[i] == if i < k then q[i] else q[i + 1];
    forall i | 0 <= i < |r| ensures Linked(r, i) {
      if i < k - 1 {
        assert old(Linked(q, i));
      } else if i > k - 1 {
        assert old(Linked(q, i + 1));
      }
    }
  }

  lemma InsertCounts<T>(s: Sched<T>, t: T)
    requires t in s.tasks
    ensures Insert(s, t).count >= s.count
  {
  }

  lemma QueueFacts<T>(s: Sched<T>)
    requires Consistent(s)
    ensures s.idle !in s.queue && s.current !in s.queue && s.count == 1 + |s.queue|
  {
  }

  /** schedule as the sequence of the methods below. */
  lemma ScheduleMoves<T>(s: Sched<T>)
    requires Consistent(s)
    ensures Consistent(Schedule(s)) && NextTask(s) in s.tasks && NextTask(SetNeed(s, s.current, false)) == NextTask(s)
    ensures Dequeue(SetNeed(s, s.current, false)).(queue := [], count := 0) == SetNeed(s, s.current, false).(queue := [], count := 0)
    ensures s.current !in Dequeue(SetNeed(s, s.current, false)).queue && Dequeue(SetNeed(s, s.current, false)).count > 0
    ensures var c, t := s.tasks[s.current], s.tasks[NextTask(s)]; var leaves := c.vrun > t.vrun || c.state != Running;
      var s1 := Dequeue(SetNeed(s, s.current, false));
      var s2 := if c.state == Running then Insert(s1, if leaves then s.current else NextTask(s)) else s1;
      && s2.count > 0
      && Schedule(s) == Refill(s2, t.priority).(current := if leaves then NextTask(s) else s.current,
           switches := s.switches + if leaves then 1 else 0)
  {
    ScheduleKeeps(s);
    ScheduleShape(s);
    NeedKeeps(s, s.current, false);
    DequeueKeeps(SetNeed(s, s.current, false));
    hide Insert, Refill;
  }

  // ----- one CPU's schedule_struct -----

  class Cpu {
    /** The list head inside schedule_struct, a task_struct of its own with the largest vrun_time. */
    const sentinel: Task
    const idle: Task
    var current: Task
    var count: int
    var quantum: int
    var switches: int
    /** The tasks in the ring behind the sentinel, and all tasks there are. */
    ghost var queue: seq<Task>
    ghost var all: set<Task>

    /** Init_schedule: an empty queue, one running task, a quantum of 4. */
    constructor (idle: Task)
      ensures Valid() && fresh(sentinel) && this.idle == idle
      ensures View().(tasks := map[]) == Sched(map[], [], idle, idle, 1, 4, 0) && View().tasks.Keys == {idle}
    {
      sentinel := new Task(0, 0, MAX_LONG, Running);
      this.idle, current, count, quantum, switches := idle, idle, 1, 4, 0;
      queue, all := [], {idle};
    }

    ghost predicate Valid()
      reads this, sentinel, all
    {
      && sentinel !in all && current in all && idle in all && (forall t | t in queue :: t in all)
      && sentinel.vrun == MAX_LONG
      && (forall t | t in [sentinel] + queue :: t in all + {sentinel})
      && Ring([sentinel] + queue)
    }

    ghost function View(): Sched<Task>
      reads this, all
    {
      Sched(map t | t in all :: t.Fields(), queue, current, idle, count, quantum, switches)
    }

    /** The walk of insert_task_queue; it ends at the sentinel at the latest. */
    method FindPlace(v: int) returns (tmp: Task, ghost k: nat)
      requires Valid() && v <= MAX_LONG
      ensures k == InsertPoint(View().tasks, queue, v, 0) && k <= |queue|
      ensures var p := InsertPoint(View().tasks, queue, v, 0); tmp == if p == |queue| then sentinel else queue[p]
    {
      ghost var s, ring := View(), [sentinel] + queue;
      assert Linked(ring, 0);
      tmp := sentinel.next;
      k := 0;
      var empty := IsEmpty(sentinel, ring);
      if !empty {
        while tmp.vrun < v
          invariant k <= |queue| && tmp == ring[if k == |queue| then 0 else k + 1]
          invariant InsertPoint(s.tasks, queue, v, 0) == InsertPoint(s.tasks, queue, v, k)
          decreases |queue| - k
        {
          assert tmp == queue[k] && tmp in queue;
          assert Linked(ring, k + 1);
          tmp := tmp.next;
          k := k + 1;
        }
      }
    }

    /** The splice and the count. */
    method Splice(tmp: Task, tsk: Task, ghost k: nat)
      requires Valid() && tsk in all && tsk !in queue && k <= |queue|
      requires tmp == if k == |queue| then sentinel else queue[k]
      modifies this`count, this`queue, sentinel`prev, sentinel`next, all`prev, all`next
      ensures Valid() && queue == old(queue)[..k] + [tsk] + old(queue)[k..] && count == old(count) + 1
    {
      ghost var ring := [sentinel] + queue;
      InsertBefore(tmp, tsk, ring, k + 1);
      queue := queue[..k] + [tsk] + queue[k..];
      assert ring[..k + 1] + [tsk] + ring[k + 1..] == [sentinel] + queue;
      count := count + 1;
    }

    /** insert_task_queue */
    method InsertTaskQueue(tsk: Task)
      requires Valid() && tsk in all && tsk !in queue && tsk.vrun <= MAX_LONG
      modifies this`count, this`queue, sentinel`prev, sentinel`next, all`prev, all`next
      ensures Valid() && View() == Insert(old(View()), tsk)
    {
      if tsk == idle || tsk.pid < count { return; }
      var tmp, k := FindPlace(tsk.vrun);
      hide InsertPoint, Ring;
      Splice(tmp, tsk, k);
    }

    /** List_Del of the first task, and the count. */
    method Unlink(t: Task)
      requires Valid() && queue != [] && t == queue[0]
      modifies this`count, this`queue, sentinel`prev, sentinel`next, all`prev, all`next
      ensures Valid() && queue == old(queue)[1..] && count == old(count) - 1 && t !in queue
    {
      ghost var ring := [sentinel] + queue;
      Delete(t, ring, 1);
      DistinctRemove(ring, 1);
      assert ring[..1] + ring[2..] == [sentinel] + queue[1..];
      queue := queue[1..];
      count := count - 1;
    }

    /** get_next_task takes the first task off the queue. */
    method GetNextTask() returns (t: Task)
      requires Valid() && idle !in queue
      modifies this`count, this`queue, sentinel`prev, sentinel`next, all`prev, all`next
      ensures Valid() && t == NextTask(old(View())) && View() == Dequeue(old(View())) && t in all && t !in queue
    {
      assert Linked([sentinel] + queue, 0);
      var empty := IsEmpty(sentinel, [sentinel] + queue);
      if empty { return idle; }
      t := sentinel.next;
      assert t == queue[0] && t in queue;
      hide Ring;
      Unlink(t);
    }

    /** The quantum is set only when it is zero. */
    method RefillQuantum(priority: int)
      requires Valid() && count > 0
      modifies this`quantum
      ensures Valid() && View() == Refill(old(View()), priority)
    {
      if quantum == 0 {
        match priority
        case 0 => quantum := 4 / count;
        case 1 => quantum := 4 / count;
        case _ => quantum := 4 / count * 3;
      }
    }

    method SwitchTo(t: Task)
      requires Valid() && t in all
      modifies this`current, this`switches
      ensures Valid() && View() == old(View()).(current := t, switches := old(switches) + 1)
    {
      switches := switches + 1;
      current := t;
    }

    /** The rest of schedule, once t has been taken off the queue: one of the two tasks is put back,
        the quantum set, and switch_to makes the chosen task the current one. */
    method PutBackAndSwitch(t: Task)
      requires Valid() && t in all && t !in queue && current !in queue && t.vrun <= MAX_LONG && current.vrun <= MAX_LONG
      requires count > 0
      modifies this`count, this`queue, this`current, this`quantum, this`switches
      modifies sentinel`prev, sentinel`next, all`prev, all`next
      ensures var s := old(View()); var c := old(current); var leaves := c.vrun > t.vrun || c.state != Running;
        var s2 := if c.state == Running then Insert(s, if leaves then c else t) else s;
        && Valid() && s2.count > 0
        && View() == Refill(s2, t.priority).(current := if leaves then t else c, switches := s.switches + if leaves then 1 else 0)
    {
      hide Ring, Refill, Insert;
      InsertCounts(View(), current);
      InsertCounts(View(), t);
      if current.vrun > t.vrun || current.state != Running {
        if current.state == Running { InsertTaskQueue(current); }
        RefillQuantum(t.priority);
        SwitchTo(t);
      } else {
        InsertTaskQueue(t);
        RefillQuantum(t.priority);
      }
    }

    /** The current task's NEED_SCHEDULE flag. */
    method Mark(need: bool)
      requires Valid()
      modifies current`need
      ensures Valid() && View() == SetNeed(old(View()), current, need)
    {
      current.need := need;
      assert View().tasks == SetNeed(old(View()), current, need).tasks;
    }

    /** schedule */
    method Reschedule()
      requires Valid() && Consistent(View()) && forall t | t in all :: t.vrun <= MAX_LONG
      modifies this`count, this`queue, this`current, this`quantum, this`switches, sentinel`prev, sentinel`next, all
      ensures Valid() && View() == Schedule(old(View())) && Consistent(View())
    {
      hide Ring, Insert, Refill, Consistent, Schedule, Dequeue, NextTask;
      QueueFacts(View());
      ScheduleMoves(View());
      Mark(false);
      var t := GetNextTask();
      PutBackAndSwitch(t);
    }

    /** APIC_Timer_handler, HPET_handler */
    method OnTick()
      requires Valid()
      modifies this`quantum, current`vrun, current`need
      ensures Valid() && View() == Tick(old(View()))
    {
      hide Ring;
      var cost := if current.priority == 0 || current.priority == 1 then 1 else 2;
      quantum, current.vrun := quantum - cost, current.vrun + cost;
      if quantum <= 0 { current.need := true; }
      assert View().tasks == Tick(old(View())).tasks;
    }
  }
}
