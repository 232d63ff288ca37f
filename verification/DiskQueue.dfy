/** The disk request queue and the wait queues as the kernel runs them (Kernel/keyboard.c: AHCI_REQ,
    AHCI_PostCMD, AHCI_handler; Kernel/lib.h: sleep, wakeup), over one CPU's run queue. */
module DiskQueue {
  import opened Words
  import opened Scheduling
  import opened WaitProtocol
  import opened RunQueue

  const MAX_SECTORS: int := 2048

  class Waiting {
    const cpu: Cpu
    /** AHCI_queue: in_using, node_count and the list of request nodes. */
    var inUsing: Option<Req<Task>>
    var nodeCount: int
    var pending: seq<Req<Task>>
    /** The wait queues, each a list of its waiters. */
    var waiters: map<nat, seq<Task>>
    var serial: nat
    ghost var posted: seq<Req<Task>>
    ghost var completed: seq<Req<Task>>
    ghost var place: map<Task, Place>

    constructor (cpu: Cpu)
      requires cpu.Valid()
      ensures Valid() && this.cpu == cpu && View() == World(cpu.View(), [], None, 0, map[], [], [], map[])
    {
      this.cpu := cpu;
      inUsing, nodeCount, pending, waiters, serial, posted, completed, place := None, 0, [], map[], 0, [], [], map[];
    }

    ghost predicate Valid()
      reads this, cpu, cpu.sentinel, cpu.all
    {
      cpu.Valid() && serial == |posted|
    }

    ghost function View(): World<Task>
      reads this, cpu, cpu.all
    {
      World(cpu.View(), pending, inUsing, nodeCount, waiters, posted, completed, place)
    }

    /** AHCI_PostCMD */
    method PostCMD()
      requires Valid() && pending != []
      modifies this`inUsing, this`pending, this`nodeCount
      ensures Valid() && View() == PostCmd(old(View()))
    {
      inUsing := Some(pending[0]);
      pending := pending[1..];
      nodeCount := nodeCount - 1;
    }

    /** The current task gives up the CPU in the state TASK_UNINTERRUPTIBLE. */
    method Block()
      requires Valid() && Consistent(cpu.View()) && forall t | t in cpu.all :: t.vrun <= MAX_LONG
      modifies cpu, cpu.sentinel, cpu.all
      ensures Valid() && cpu.View() == Leave(old(cpu.View()), Uninterruptible) && cpu.all == old(cpu.all)
    {
      CurrentStateFree(cpu.View(), Uninterruptible);
      hide Schedule, Consistent, Ring;
      cpu.current.state := Uninterruptible;
      assert cpu.View().tasks == SetState(old(cpu.View()), cpu.current, Uninterruptible).tasks;
      cpu.Reschedule();
    }

    /** A waiting task becomes runnable. */
    method Unblock(t: Task)
      requires Valid() && t in cpu.all && t !in cpu.queue && t.vrun <= MAX_LONG
      modifies cpu`count, cpu`queue, cpu.sentinel, cpu.all
      ensures Valid() && cpu.View() == Wake(old(cpu.View()), t)
    {
      hide Ring, Insert;
      t.state := Running;
      assert cpu.View().tasks == SetState(old(cpu.View()), t, Running).tasks;
      cpu.InsertTaskQueue(t);
      cpu.Mark(true);
    }

    /** AHCI_REQ. A request for too many sectors is refused. Of a polled request's wait, which loops on
        a register of the controller, only that the caller stays the current task is shown here. */
    method AhciReq(sectors: int, schedual: bool)
      requires Valid() && Consistent(cpu.View()) && forall t | t in cpu.all :: t.vrun <= MAX_LONG
      modifies this, cpu, cpu.sentinel, cpu.all
      ensures Valid() && View() == if sectors > MAX_SECTORS then old(View()) else Request(old(View()), schedual)
    {
      hide Leave, Consistent;
      if sectors > MAX_SECTORS { return; }
      var id := serial;
      Enqueue(schedual);
      if inUsing.value.flag {
        place := place[cpu.current := ForRequest(id)];
        Block();
      }
    }

    /** The node of a new request goes to the end of the list, and to the disk if that is idle. */
    method Enqueue(schedual: bool)
      requires Valid()
      modifies this`inUsing, this`pending, this`nodeCount, this`serial, this`posted
      ensures Valid() && cpu.View() == old(cpu.View()) && inUsing.Some?
      ensures View() == Posted(old(View()), schedual)
    {
      var node := Req(serial, cpu.current, schedual);
      pending := pending + [node];
      nodeCount := nodeCount + 1;
      serial := serial + 1;
      posted := posted + [node];
      if inUsing == None { PostCMD(); }
    }

    /** AHCI_handler */
    method AhciHandler()
      requires Valid() && inUsing.Some? && inUsing.value.task in cpu.all
      requires nodeCount == |pending|
      requires inUsing.value.flag ==> inUsing.value.task !in cpu.queue && inUsing.value.task.vrun <= MAX_LONG
      modifies this, cpu`count, cpu`queue, cpu.sentinel, cpu.all
      ensures Valid() && View() == Complete(old(View()))
    {
      hide Wake;
      if inUsing.value.flag {
        Unblock(inUsing.value.task);
        place := place - {inUsing.value.task};
      }
      completed := completed + [inUsing.value];
      inUsing := None;
      if nodeCount != 0 { PostCMD(); }
    }

    /** sleep */
    method SleepOn(q: nat)
      requires Valid() && Consistent(cpu.View()) && forall t | t in cpu.all :: t.vrun <= MAX_LONG
      modifies this, cpu, cpu.sentinel, cpu.all
      ensures Valid() && View() == Sleep(old(View()), q)
    {
      hide Leave, Consistent;
      place := place[cpu.current := InQueue(q)];
      waiters := waiters[q := (if q in waiters then waiters[q] else []) + [cpu.current]];
      Block();
    }

    /** wakeup, for TASK_UNINTERRUPTIBLE */
    method WakeFirst(q: nat)
      requires Valid()
      requires q in waiters && waiters[q] != [] ==>
        waiters[q][0] in cpu.all && (waiters[q][0].state == Uninterruptible ==> waiters[q][0] !in cpu.queue && waiters[q][0].vrun <= MAX_LONG)
      modifies this, cpu`count, cpu`queue, cpu.sentinel, cpu.all
      ensures Valid() && View() == Wakeup(old(View()), q)
    {
      hide Wake;
      if q !in waiters || waiters[q] == [] { return; }
      var t := waiters[q][0];
      if t.state == Uninterruptible {
        waiters := waiters[q := waiters[q][1..]];
        place := place - {t};
        Unblock(t);
      }
    }
  }
}
