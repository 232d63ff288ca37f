/** Blocking and waking: the AHCI request queue (Kernel/keyboard.c: AHCI_REQ, AHCI_PostCMD,
    AHCI_handler) and the wait queues (Kernel/lib.h: sleep, wakeup) over the scheduler. Each kernel
    operation is one step, as interrupts are masked while it runs. */
module WaitProtocol {
  import opened Words
  import opened Sequences
  import opened Scheduling

  /** A posted request: its number in posting order, its task, its schedual flag. */
  datatype Req<T> = Req(id: nat, task: T, flag: bool)

  /** Where a blocked task waits: for a request, or in a wait queue. */
  datatype Place = ForRequest(id: nat) | InQueue(q: nat)

  /** pending, inUsing and nodeCount are the fields of AHCI_queue; waiters holds the wait queues.
      posted and completed record the requests so far, and place where each blocked task went. */
  datatype World<T(==)> = World(s: Sched<T>, pending: seq<Req<T>>, inUsing: Option<Req<T>>, nodeCount: int,
                                waiters: map<nat, seq<T>>, posted: seq<Req<T>>, completed: seq<Req<T>>,
                                place: map<T, Place>)

  // ----- the operations -----

  function SetState<T(==)>(s: Sched<T>, t: T, state: State): (r: Sched<T>)
    requires t in s.tasks
  {
    s.(tasks := s.tasks[t := s.tasks[t].(state := state)])
  }

  lemma CurrentStateFree<T>(s: Sched<T>, state: State)
    requires Consistent(s)
    ensures Consistent(SetState(s, s.current, state))
  {
  }

  /** The current task changes its state and gives up the CPU. */
  function Leave<T(==)>(s: Sched<T>, state: State): (r: Sched<T>)
    requires Consistent(s)
  {
    CurrentStateFree(s, state);
    Schedule(SetState(s, s.current, state))
  }

  /** A waiting task becomes runnable, and the current one is marked for rescheduling. */
  function Wake<T(==)>(s: Sched<T>, t: T): (r: Sched<T>)
    requires t in s.tasks && s.current in s.tasks
  {
    SetNeed(Insert(SetState(s, t, Running), t), s.current, true)
  }

  /** AHCI_PostCMD: the head of the queue goes to the disk. */
  function PostCmd<T(==)>(w: World<T>): (r: World<T>)
    requires w.pending != []
  {
    w.(inUsing := Some(w.pending[0]), pending := w.pending[1..], nodeCount := w.nodeCount - 1)
  }

  /** The first half of AHCI_REQ: a node at the end of the list; if the disk is idle it gets one. */
  function Posted<T(==)>(w: World<T>, flag: bool): (r: World<T>)
    ensures r.inUsing.Some? && r.s == w.s
  {
    var req := Req(|w.posted|, w.s.current, flag);
    var w1 := w.(pending := w.pending + [req], nodeCount := w.nodeCount + 1, posted := w.posted + [req]);
    if w1.inUsing == None then PostCmd(w1) else w1
  }

  /** AHCI_REQ. The flag tested at the end is that of the request being served. */
  function Request<T(==)>(w: World<T>, flag: bool): (r: World<T>)
    requires Consistent(w.s)
  {
    var w1 := Posted(w, flag);
    if w1.inUsing.value.flag
    then w1.(s := Leave(w1.s, Uninterruptible), place := w1.place[w.s.current := ForRequest(|w.posted|)])
    else w1
  }

  /** AHCI_handler: the request being served is done. */
  function Complete<T(==)>(w: World<T>): (r: World<T>)
    requires w.inUsing.Some? && w.inUsing.value.task in w.s.tasks && w.s.current in w.s.tasks
  {
    var req := w.inUsing.value;
    var w1 := w.(s := if req.flag then Wake(w.s, req.task) else w.s, inUsing := None,
                 completed := w.completed + [req], place := if req.flag then w.place - {req.task} else w.place);
    if w1.nodeCount != 0 && w1.pending != [] then PostCmd(w1) else w1
  }

  /** The wait queue q, empty as wait_queue_init leaves it until somebody waits. */
  function QueueAt<T>(waiters: map<nat, seq<T>>, q: nat): (r: seq<T>)
  {
    if q in waiters then waiters[q] else []
  }

  function Waiters<T(==)>(w: World<T>, q: nat): (r: seq<T>) { QueueAt(w.waiters, q) }

  function Sleep<T(==)>(w: World<T>, q: nat): (r: World<T>)
    requires Consistent(w.s)
  {
    w.(waiters := w.waiters[q := Waiters(w, q) + [w.s.current]], s := Leave(w.s, Uninterruptible),
       place := w.place[w.s.current := InQueue(q)])
  }

  /** wakeup(queue, TASK_UNINTERRUPTIBLE): the first waiter, if it is blocked. */
  function Wakeup<T(==)>(w: World<T>, q: nat): (r: World<T>)
    requires w.s.current in w.s.tasks
  {
    var ts := Waiters(w, q);
    if ts == [] || ts[0] !in w.s.tasks || w.s.tasks[ts[0]].state != Uninterruptible then w
    else w.(waiters := w.waiters[q := ts[1..]], s := Wake(w.s, ts[0]), place := w.place - {ts[0]})
  }

  // ----- the invariant -----

  function InService<T>(w: World<T>): (r: seq<Req<T>>)
  {
    if w.inUsing.Some? then [w.inUsing.value] else []
  }

  /** One request at the disk while there is any, the others in posting order behind it; what was
      posted is what is done, in service, and pending, in this order. Those that are not done have
      one flag. */
  ghost predicate QueueInv<T>(w: World<T>)
  {
    && w.nodeCount == |w.pending|
    && (w.inUsing == None ==> w.pending == [])
    && w.posted == w.completed + InService(w) + w.pending
    && (forall i | 0 <= i < |w.posted| :: w.posted[i].id == i)
    && (forall i | |w.completed| <= i < |w.posted| :: w.posted[i].flag == w.posted[|w.completed|].flag)
  }

  /** The flag of a new request is that of the one in service. */
  predicate Agrees<T>(w: World<T>, flag: bool)
  {
    w.inUsing.Some? ==> w.inUsing.value.flag == flag
  }

  /** The requests that are not done are requests of tasks. */
  ghost predicate OfTasks<T>(s: Sched<T>, posted: seq<Req<T>>, done: nat)
  {
    forall i | done <= i < |posted| :: posted[i].task in s.tasks
  }

  /** The task of each outstanding scheduled request waits for that request and no other, and each
      task in a wait queue waits there, once; nobody else waits. The first `done` requests are not
      outstanding. */
  ghost predicate Places<T>(waiters: map<nat, seq<T>>, posted: seq<Req<T>>, done: nat, place: map<T, Place>)
  {
    && (forall i | done <= i < |posted| && posted[i].flag :: posted[i].task in place && place[posted[i].task] == ForRequest(i))
    && (forall q | q in waiters :: QueuePlaced(waiters[q], q, place))
    && (forall t | t in place :: WaitsThere(waiters, posted, done, t, place[t]))
  }

  ghost predicate QueuePlaced<T>(ts: seq<T>, q: nat, place: map<T, Place>)
  {
    Distinct(ts) && forall t | t in ts :: t in place && place[t] == InQueue(q)
  }

  ghost predicate WaitsThere<T>(waiters: map<nat, seq<T>>, posted: seq<Req<T>>, done: nat, t: T, p: Place)
  {
    match p
    case ForRequest(i) => done <= i < |posted| && posted[i].task == t && posted[i].flag
    case InQueue(q) => q in waiters && t in waiters[q]
  }

  ghost predicate PlacesInv<T>(w: World<T>)
  {
    Places(w.waiters, w.posted, |w.completed|, w.place)
  }

  /** The blocked tasks are exactly those that wait; the current and the idle task run. */
  ghost predicate BlockedInv<T>(s: Sched<T>, place: map<T, Place>)
  {
    && (forall t | t in place :: t in s.tasks)
    && (forall t | t in s.tasks :: s.tasks[t].state == Uninterruptible <==> t in place)
    && s.current in s.tasks && s.tasks[s.current].state == Running
    && s.idle in s.tasks && s.tasks[s.idle].state == Running
  }

  ghost predicate WorldInv<T>(w: World<T>)
  {
    Consistent(w.s) && QueueInv(w) && PlacesInv(w) && BlockedInv(w.s, w.place) && OfTasks(w.s, w.posted, |w.completed|)
  }

  // ----- leaving and waking -----

  /** The blocking task is in no run queue, another one runs, and nobody else changed state. */
  lemma LeaveKeeps<T>(s: Sched<T>, place: map<T, Place>, p: Place)
    requires Consistent(s) && BlockedInv(s, place) && s.current != s.idle
    ensures var r := Leave(s, Uninterruptible);
      && Consistent(r) && BlockedInv(r, place[s.current := p])
      && r.current != s.current && s.current !in r.queue && r.idle == s.idle && r.tasks.Keys == s.tasks.Keys
      && r.tasks[s.current] == s.tasks[s.current].(state := Uninterruptible, need := false)
      && (forall t | t in s.tasks && t != s.current :: r.tasks[t] == s.tasks[t])
      && (if s.queue == [] then r.current == s.idle
          else r.current in s.queue && forall t | t in s.queue :: s.tasks[r.current].vrun <= s.tasks[t].vrun)
  {
    CurrentStateFree(s, Uninterruptible);
    var s0 := SetState(s, s.current, Uninterruptible);
    ScheduleKeeps(s0);
    ScheduleShape(s0);
    DequeueKeeps(s0);
    hide Insert, Refill;
    var r := Schedule(s0);
    assert r.current == NextTask(s0);
    assert s0.queue != [] ==> NextTask(s0) in s0.queue;
  }

  /** All a wake-up of t does to the fields of tasks: t runs, and the current task is marked, so that
      schedule runs when the interrupt or the call ends. */
  ghost predicate AsksFor<T>(s: Sched<T>, r: Sched<T>, t: T)
    requires s.current in s.tasks && t in s.tasks
  {
    && s.tasks.Keys <= r.tasks.Keys && r.tasks[s.current].need && r.tasks[t].state == Running
    && (forall u | u in s.tasks && u != s.current && u != t :: r.tasks[u] == s.tasks[u])
    && r.tasks[s.current].(need := s.tasks[s.current].need, state := s.tasks[s.current].state) == s.tasks[s.current]
    && (t != s.current ==> r.tasks[t].(state := s.tasks[t].state) == s.tasks[t])
    && r.quantum == s.quantum && r.switches == s.switches
  }

  /** Waking puts the task in the running state, and on the run queue exactly when its pid is not
      below running_task_count, and the current task is marked for rescheduling. */
  lemma WakeKeeps<T>(s: Sched<T>, place: map<T, Place>, t: T)
    requires Consistent(s) && BlockedInv(s, place) && t in place
    ensures var r := Wake(s, t);
      && Consistent(r) && BlockedInv(r, place - {t}) && r.current == s.current && r.idle == s.idle
      && r.tasks.Keys == s.tasks.Keys && r.tasks[t].state == Running
      && (t in r.queue <==> s.tasks[t].pid >= s.count) && AsksFor(s, r, t)
      && (forall u | u in s.tasks && u != t :: r.tasks[u].state == s.tasks[u].state && (u in r.queue <==> u in s.queue))
  {
    var s0 := SetState(s, t, Running);
    InsertKeeps(s0, t);
    hide Insert;
    var s1 := Insert(s0, t);
    NeedKeeps(s1, s.current, true);
  }

  // ----- the steps -----

  datatype Step<T> = TimerStep | RequestStep(flag: bool) | CompleteStep | SleepStep(q: nat) | WakeupStep(q: nat) | ForkStep(t: T, info: Info)

  /** When a step can happen: the idle task never blocks, a request has the flag of the one in service,
      the disk completes only what it serves, and a forked task is new. */
  ghost predicate Possible<T>(w: World<T>, st: Step<T>)
  {
    match st
    case TimerStep => true
    case RequestStep(flag) => (flag ==> w.s.current != w.s.idle) && Agrees(w, flag)
    case SleepStep(_) => w.s.current != w.s.idle
    case CompleteStep => w.inUsing.Some?
    case WakeupStep(_) => true
    case ForkStep(t, info) => t !in w.s.tasks && info.state == Running
  }

  /** do_fork's last lines: the new task is queued and the current one marked. */
  function Admit<T(==)>(s: Sched<T>, t: T, info: Info): (r: Sched<T>)
    requires s.current in s.tasks
  {
    SetNeed(Insert(s.(tasks := s.tasks[t := info]), t), s.current, true)
  }

  function Perform<T(==)>(w: World<T>, st: Step<T>): (r: World<T>)
    requires Consistent(w.s) && (w.inUsing.Some? ==> w.inUsing.value.task in w.s.tasks)
  {
    match st
    case TimerStep => w.(s := TimerInterrupt(w.s))
    case RequestStep(flag) => Request(w, flag)
    case CompleteStep => if w.inUsing.Some? then Complete(w) else w
    case SleepStep(q) => Sleep(w, q)
    case WakeupStep(q) => Wakeup(w, q)
    case ForkStep(t, info) => w.(s := Admit(w.s, t, info))
  }

  /** The next task to run is running. */
  lemma NextRuns<T>(s: Sched<T>, place: map<T, Place>)
    requires Consistent(s) && BlockedInv(s, place)
    ensures NextTask(s) in s.tasks && s.tasks[NextTask(s)].state == Running
  {
  }

  lemma ScheduleRuns<T>(s: Sched<T>)
    requires Consistent(s)
    ensures Schedule(s).current == s.current || Schedule(s).current == NextTask(s)
  {
    hide Consistent, Schedule, Insert, Refill, Dequeue;
    ScheduleShape(s);
  }

  lemma ScheduleKeepsBlocked<T>(s: Sched<T>, place: map<T, Place>)
    requires Consistent(s) && BlockedInv(s, place)
    ensures var r := Schedule(s);
      Consistent(r) && BlockedInv(r, place) && r.tasks == SetNeed(s, s.current, false).tasks
  {
    hide Consistent, Schedule, NextTask;
    ScheduleKeeps(s);
    ScheduleRuns(s);
    NextRuns(s, place);
  }

  lemma TimerKeepsBlocked<T>(s: Sched<T>, place: map<T, Place>)
    requires Consistent(s) && BlockedInv(s, place)
    ensures var r := TimerInterrupt(s);
      && Consistent(r) && BlockedInv(r, place) && r.tasks.Keys == s.tasks.Keys
      && forall t | t in s.tasks :: r.tasks[t].state == s.tasks[t].state
  {
    TickKeeps(s);
    hide Consistent;
    assert BlockedInv(Tick(s), place);
    ScheduleKeepsBlocked(Tick(s), place);
    hide Schedule;
  }

  lemma TimerStepKeeps<T>(w: World<T>)
    requires WorldInv(w)
    ensures WorldInv(w.(s := TimerInterrupt(w.s)))
    ensures forall t | t in w.s.tasks :: t in TimerInterrupt(w.s).tasks && TimerInterrupt(w.s).tasks[t].state == w.s.tasks[t].state
  {
    hide Consistent, BlockedInv, Places, TimerInterrupt;
    TimerKeepsBlocked(w.s, w.place);
  }

  /** Posting a request: the caller of a scheduled one is blocked, the caller of a polled one goes on. */
  lemma RequestKeeps<T>(w: World<T>, flag: bool)
    requires WorldInv(w) && (flag ==> w.s.current != w.s.idle) && Agrees(w, flag)
    ensures var r := Request(w, flag);
      && WorldInv(r) && r.posted == w.posted + [Req(|w.posted|, w.s.current, flag)] && r.completed == w.completed
      && (!flag ==> r.s == w.s)
      && (flag ==> r.s.tasks[w.s.current].state == Uninterruptible && w.s.current !in r.s.queue && w.s.current != r.s.current)
      && (forall t | t in w.s.tasks && t != w.s.current :: t in r.s.tasks && r.s.tasks[t].state == w.s.tasks[t].state)
  {
    hide Leave, Consistent, BlockedInv, Places;
    if flag { LeaveKeeps(w.s, w.place, ForRequest(|w.posted|)); }
    CurrentIsFree(w);
    RequestQueue(w, flag);
    RequestPlaces(w, flag);
  }

  lemma CurrentIsFree<T>(w: World<T>)
    requires WorldInv(w)
    ensures w.s.current !in w.place && w.s.current in w.s.tasks
  {
  }

  lemma PostedQueue<T>(w: World<T>, flag: bool)
    requires QueueInv(w) && Agrees(w, flag)
    ensures var r := Posted(w, flag);
      && QueueInv(r) && r.posted == w.posted + [Req(|w.posted|, w.s.current, flag)] && r.completed == w.completed
      && r.waiters == w.waiters && r.place == w.place && r.inUsing.value.flag == flag
  {
    var req := Req(|w.posted|, w.s.current, flag);
    if w.inUsing.Some? {
      assert w.inUsing.value == w.posted[|w.completed|];
    } else {
      assert (w.pending + [req])[0] == req && (w.pending + [req])[1..] == [];
    }
  }

  lemma RequestQueue<T>(w: World<T>, flag: bool)
    requires Consistent(w.s) && QueueInv(w) && Agrees(w, flag)
    ensures var r := Request(w, flag);
      && QueueInv(r) && r.posted == w.posted + [Req(|w.posted|, w.s.current, flag)] && r.completed == w.completed
      && r.s == (if flag then Leave(w.s, Uninterruptible) else w.s) && r.waiters == w.waiters
      && r.place == if flag then w.place[w.s.current := ForRequest(|w.posted|)] else w.place
  {
    hide Leave, Consistent, Posted;
    PostedQueue(w, flag);
  }

  lemma RequestPlaces<T>(w: World<T>, flag: bool)
    requires Consistent(w.s) && QueueInv(w) && PlacesInv(w) && w.s.current !in w.place && Agrees(w, flag)
    ensures PlacesInv(Request(w, flag))
  {
    RequestQueue(w, flag);
    DoneFirst(w);
    hide Request, QueueInv, Consistent;
    PlacePosted(w.waiters, w.posted, |w.completed|, w.place, w.s.current, flag);
  }

  lemma DoneFirst<T>(w: World<T>)
    requires QueueInv(w)
    ensures |w.completed| <= |w.posted|
  {
  }

  lemma PlacePosted<T>(waiters: map<nat, seq<T>>, posted: seq<Req<T>>, done: nat, place: map<T, Place>, c: T, flag: bool)
    requires Places(waiters, posted, done, place) && c !in place && done <= |posted|
    ensures Places(waiters, posted + [Req(|posted|, c, flag)], done, if flag then place[c := ForRequest(|posted|)] else place)
  {
  }

  /** A completion: the oldest outstanding request is the one that is done; if it was scheduled, its
      task and nobody else is woken; and the next request in posting order goes to the disk. */
  lemma CompleteKeeps<T>(w: World<T>)
    requires WorldInv(w) && w.inUsing.Some?
    ensures w.inUsing.value.task in w.s.tasks && |w.completed| < |w.posted|
    ensures var r := Complete(w); var done := w.posted[|w.completed|];
      && WorldInv(r) && r.posted == w.posted && r.completed == w.completed + [done] && done == w.inUsing.value
      && (!done.flag ==> r.s == w.s)
      && (done.flag ==>
            && w.s.tasks[done.task].state == Uninterruptible
            && done.task in r.s.tasks && r.s.tasks[done.task].state == Running && AsksFor(w.s, r.s, done.task)
            && (done.task in r.s.queue <==> w.s.tasks[done.task].pid >= w.s.count))
      && (forall t | t in w.s.tasks && t != done.task :: t in r.s.tasks && r.s.tasks[t].state == w.s.tasks[t].state)
  {
    hide Wake, Consistent, Places;
    var done := w.inUsing.value;
    assert done == w.posted[|w.completed|];
    CompleteQueue(w);
    CompletePlaces(w);
    if done.flag {
      OldestWaits(w.waiters, w.posted, |w.completed|, w.place);
      WakeKeeps(w.s, w.place, done.task);
    }
  }

  lemma OldestWaits<T>(waiters: map<nat, seq<T>>, posted: seq<Req<T>>, done: nat, place: map<T, Place>)
    requires Places(waiters, posted, done, place) && done < |posted| && posted[done].flag
    ensures posted[done].task in place
  {
  }

  lemma CompleteQueue<T>(w: World<T>)
    requires QueueInv(w) && w.inUsing.Some? && w.inUsing.value.task in w.s.tasks && w.s.current in w.s.tasks
    ensures |w.completed| < |w.posted| && w.posted[|w.completed|] == w.inUsing.value
    ensures var r := Complete(w);
      && QueueInv(r) && r.posted == w.posted && r.completed == w.completed + [w.inUsing.value]
      && r.s == (if w.inUsing.value.flag then Wake(w.s, w.inUsing.value.task) else w.s) && r.waiters == w.waiters
      && r.place == if w.inUsing.value.flag then w.place - {w.inUsing.value.task} else w.place
  {
    hide Wake;
  }

  lemma CompletePlaces<T>(w: World<T>)
    requires QueueInv(w) && PlacesInv(w) && w.inUsing.Some? && w.inUsing.value.task in w.s.tasks && w.s.current in w.s.tasks
    ensures PlacesInv(Complete(w))
  {
    CompleteQueue(w);
    hide Complete, QueueInv;
    PlaceDone(w.waiters, w.posted, |w.completed|, w.place);
  }

  lemma PlaceDone<T>(waiters: map<nat, seq<T>>, posted: seq<Req<T>>, done: nat, place: map<T, Place>)
    requires Places(waiters, posted, done, place) && done < |posted|
    ensures Places(waiters, posted, done + 1, if posted[done].flag then place - {posted[done].task} else place)
  {
  }

  /** sleep: the task is in the wait queue and in no run queue. */
  lemma SleepKeeps<T>(w: World<T>, q: nat)
    requires WorldInv(w) && w.s.current != w.s.idle
    ensures var r := Sleep(w, q);
      && WorldInv(r) && Waiters(r, q) == Waiters(w, q) + [w.s.current] && r.posted == w.posted && r.completed == w.completed
      && r.s.tasks[w.s.current].state == Uninterruptible && w.s.current !in r.s.queue && w.s.current != r.s.current
      && (forall t | t in w.s.tasks && t != w.s.current :: t in r.s.tasks && r.s.tasks[t].state == w.s.tasks[t].state)
  {
    LeaveKeeps(w.s, w.place, InQueue(q));
    hide Leave, Consistent, BlockedInv;
    SleepPlaces(w, q);
  }

  lemma SleepPlaces<T>(w: World<T>, q: nat)
    requires Consistent(w.s) && PlacesInv(w) && w.s.current !in w.place
    ensures PlacesInv(Sleep(w, q))
  {
    hide Leave, Consistent;
    PlaceQueued(w.waiters, w.posted, |w.completed|, w.place, q, w.s.current);
  }

  lemma PlaceQueued<T>(waiters: map<nat, seq<T>>, posted: seq<Req<T>>, done: nat, place: map<T, Place>, q: nat, c: T)
    requires Places(waiters, posted, done, place) && c !in place
    ensures Places(waiters[q := QueueAt(waiters, q) + [c]], posted, done, place[c := InQueue(q)])
  {
  }

  /** wakeup: the first waiter and nobody else becomes runnable. */
  lemma WakeupKeeps<T>(w: World<T>, q: nat)
    requires WorldInv(w)
    ensures var r := Wakeup(w, q); var ts := Waiters(w, q);
      && WorldInv(r) && r.posted == w.posted && r.completed == w.completed
      && (ts == [] ==> r == w)
      && (ts != [] ==>
            && ts[0] in w.s.tasks && w.s.tasks[ts[0]].state == Uninterruptible
            && ts[0] in r.s.tasks && r.s.tasks[ts[0]].state == Running && AsksFor(w.s, r.s, ts[0])
            && Waiters(r, q) == ts[1..] && (ts[0] in r.s.queue <==> w.s.tasks[ts[0]].pid >= w.s.count)
            && forall t | t in w.s.tasks && t != ts[0] :: t in r.s.tasks && r.s.tasks[t].state == w.s.tasks[t].state)
  {
    var ts := Waiters(w, q);
    if ts != [] {
      assert QueuePlaced(w.waiters[q], q, w.place);
      assert ts[0] in ts;
      WakeKeeps(w.s, w.place, ts[0]);
      hide Wake, Consistent;
      WakeupPlaces(w, q);
      hide PlacesInv;
    }
  }

  lemma WakeupPlaces<T>(w: World<T>, q: nat)
    requires PlacesInv(w) && Waiters(w, q) != [] && w.s.current in w.s.tasks
    requires Waiters(w, q)[0] in w.s.tasks && w.s.tasks[Waiters(w, q)[0]].state == Uninterruptible
    ensures PlacesInv(Wakeup(w, q))
  {
    hide Wake;
    PlaceLeft(w.waiters, w.posted, |w.completed|, w.place, q);
  }

  lemma PlaceLeft<T>(waiters: map<nat, seq<T>>, posted: seq<Req<T>>, done: nat, place: map<T, Place>, q: nat)
    requires Places(waiters, posted, done, place) && q in waiters && waiters[q] != []
    ensures Places(waiters[q := waiters[q][1..]], posted, done, place - {waiters[q][0]})
  {
  }

  lemma AdmitKeeps<T>(s: Sched<T>, place: map<T, Place>, t: T, info: Info)
    requires Consistent(s) && BlockedInv(s, place) && t !in s.tasks && info.state == Running
    ensures var r := Admit(s, t, info);
      && Consistent(r) && BlockedInv(r, place) && (t in r.queue <==> info.pid >= s.count)
      && AsksFor(s.(tasks := s.tasks[t := info]), r, t)
      && forall u | u in s.tasks :: u in r.tasks && r.tasks[u].state == s.tasks[u].state
  {
    hide Insert;
    var s0 := s.(tasks := s.tasks[t := info]);
    InsertKeeps(s0, t);
    NeedKeeps(Insert(s0, t), s.current, true);
  }

  lemma ForkKeeps<T>(w: World<T>, t: T, info: Info)
    requires WorldInv(w) && t !in w.s.tasks && info.state == Running
    ensures var r := w.(s := Admit(w.s, t, info));
      && WorldInv(r) && (t in r.s.queue <==> info.pid >= w.s.count)
      && AsksFor(w.s.(tasks := w.s.tasks[t := info]), r.s, t)
      && (forall u | u in w.s.tasks :: u in r.s.tasks && r.s.tasks[u].state == w.s.tasks[u].state)
  {
    hide Consistent, BlockedInv, Places, Admit;
    AdmitKeeps(w.s, w.place, t, info);
  }

  // ----- runs -----

  /** t was blocked and is not any more only because its own wait ended: its request, the oldest
      outstanding one, completed, or it was first in the queue that was woken. */
  ghost predicate WokenRightly<T>(w: World<T>, st: Step<T>, t: T)
  {
    match st
    case CompleteStep => |w.completed| < |w.posted| && w.posted[|w.completed|].task == t
    case WakeupStep(q) => Waiters(w, q) != [] && Waiters(w, q)[0] == t
    case _ => false
  }

  /** What every step keeps and does: the invariant; requests are posted and completed in one
      order; a blocked task is neither current nor queued; and a task stops being blocked only by
      the end of its own wait. */
  lemma StepCorrect<T>(w: World<T>, st: Step<T>)
    requires WorldInv(w) && Possible(w, st)
    ensures w.inUsing.Some? ==> w.inUsing.value.task in w.s.tasks
    ensures var r := Perform(w, st);
      && WorldInv(r) && w.posted <= r.posted && w.completed <= r.completed
      && (forall t | t in r.s.tasks && r.s.tasks[t].state == Uninterruptible :: t != r.s.current && t !in r.s.queue)
    ensures var r := Perform(w, st);
      forall t | t in w.s.tasks && w.s.tasks[t].state == Uninterruptible ::
        t in r.s.tasks && (r.s.tasks[t].state == Uninterruptible || WokenRightly(w, st, t))
  {
    hide WorldInv, Consistent, Perform, WokenRightly;
    ServedIsTask(w);
    InOrder(w);
    StepKeeps(w, st);
    BlockedAway(Perform(w, st));
    forall t | t in w.s.tasks && w.s.tasks[t].state == Uninterruptible
      ensures t in Perform(w, st).s.tasks
      ensures Perform(w, st).s.tasks[t].state == Uninterruptible || WokenRightly(w, st, t)
    {
      StaysBlocked(w, st, t);
    }
  }

  lemma StaysBlocked<T>(w: World<T>, st: Step<T>, t: T)
    requires WorldInv(w) && Possible(w, st) && t in w.s.tasks && w.s.tasks[t].state == Uninterruptible
    ensures Consistent(w.s) && (w.inUsing.Some? ==> w.inUsing.value.task in w.s.tasks)
    ensures var r := Perform(w, st); t in r.s.tasks && (r.s.tasks[t].state == Uninterruptible || WokenRightly(w, st, t))
  {
    hide WorldInv, Consistent, Request, Complete, Sleep, Wakeup, TimerInterrupt, Admit;
    ServedIsTask(w);
    InOrder(w);
    match st
    case TimerStep => TimerStepKeeps(w);
    case RequestStep(flag) => RequestKeeps(w, flag);
    case CompleteStep => CompleteKeeps(w);
    case SleepStep(q) => SleepKeeps(w, q);
    case WakeupStep(q) => WakeupKeeps(w, q);
    case ForkStep(u, info) => ForkKeeps(w, u, info);
  }

  lemma BlockedAway<T>(w: World<T>)
    requires WorldInv(w)
    ensures forall t | t in w.s.tasks && w.s.tasks[t].state == Uninterruptible :: t != w.s.current && t !in w.s.queue
  {
  }

  lemma InOrder<T>(w: World<T>)
    requires WorldInv(w)
    ensures Consistent(w.s) && w.s.current in w.s.tasks && w.s.tasks[w.s.current].state == Running
  {
  }

  lemma StepKeeps<T>(w: World<T>, st: Step<T>)
    requires WorldInv(w) && Possible(w, st)
    ensures Consistent(w.s) && (w.inUsing.Some? ==> w.inUsing.value.task in w.s.tasks)
    ensures var r := Perform(w, st); WorldInv(r) && w.posted <= r.posted && w.completed <= r.completed
  {
    hide WorldInv, Consistent, Request, Complete, Sleep, Wakeup, TimerInterrupt, Admit;
    ServedIsTask(w);
    InOrder(w);
    match st
    case TimerStep => TimerStepKeeps(w);
    case RequestStep(flag) => RequestKeeps(w, flag);
    case CompleteStep => CompleteKeeps(w);
    case SleepStep(q) => SleepKeeps(w, q);
    case WakeupStep(q) => WakeupKeeps(w, q);
    case ForkStep(t, info) => ForkKeeps(w, t, info);
  }

  lemma ServedIsTask<T>(w: World<T>)
    requires WorldInv(w)
    ensures w.inUsing.Some? ==> w.inUsing.value.task in w.s.tasks
  {
    if w.inUsing.Some? { assert w.posted[|w.completed|] == w.inUsing.value; }
  }

  ghost predicate Reaches<T>(w: World<T>, steps: seq<Step<T>>, r: World<T>)
    decreases |steps|
  {
    if steps == [] then w == r
    else
      && Consistent(w.s) && (w.inUsing.Some? ==> w.inUsing.value.task in w.s.tasks)
      && Possible(w, steps[0]) && Reaches(Perform(w, steps[0]), steps[1..], r)
  }

  /** In every reachable state: node_count is the length of the queue, in_using is empty only if the
      queue is, the completed requests are the first of the posted ones, and no blocked task is in
      a run queue. */
  lemma {:induction false} RunsKeepOrder<T>(w: World<T>, steps: seq<Step<T>>, r: World<T>)
    requires WorldInv(w) && Reaches(w, steps, r)
    ensures WorldInv(r) && r.nodeCount == |r.pending| && (r.inUsing == None ==> r.pending == [])
    ensures r.completed <= r.posted && w.completed <= r.completed && w.posted <= r.posted
    ensures forall t | t in r.s.tasks && r.s.tasks[t].state == Uninterruptible :: t !in r.s.queue && t != r.s.current
    decreases |steps|
  {
    if steps != [] {
      StepCorrect(w, steps[0]);
      hide PlacesInv, BlockedInv, Perform;
      RunsKeepOrder(Perform(w, steps[0]), steps[1..], r);
    }
  }

  // ----- mixed flags -----

  /** AHCI_REQ blocks the caller exactly when the request then in service is a scheduled one, whatever
      the caller asked for. The caller waits as it asked to exactly if its flag is that one's. */
  lemma RequestBlocksIff<T>(w: World<T>, flag: bool)
    requires Consistent(w.s) && w.s.tasks[w.s.current].state == Running
    requires w.inUsing == None ==> w.pending == []
    ensures var blocks := Request(w, flag).s.tasks[w.s.current].state == Uninterruptible;
      && (blocks <==> match w.inUsing case None => flag case Some(u) => u.flag)
      && ((blocks <==> flag) <==> Agrees(w, flag))
  {
  }

  /** What a completion then does to the scheduler: it is left in order exactly if the request was
      polled, or its task had really been blocked, or insert_task_queue drops the task. */
  lemma CompleteSafeIff<T>(w: World<T>)
    requires Consistent(w.s) && w.inUsing.Some? && w.inUsing.value.task in w.s.tasks
    ensures var t := w.inUsing.value.task;
      Consistent(Complete(w).s) <==>
        !w.inUsing.value.flag || (t != w.s.current && t !in w.s.queue) || t == w.s.idle || w.s.tasks[t].pid < w.s.count
  {
    var t := w.inUsing.value.task;
    if w.inUsing.value.flag { WakeSafeIff(w.s, t); }
    hide Wake, Consistent;
  }

  lemma WakeSafeIff<T>(s: Sched<T>, t: T)
    requires Consistent(s) && t in s.tasks
    ensures Consistent(Wake(s, t)) <==> (t != s.current && t !in s.queue) || t == s.idle || s.tasks[t].pid < s.count
  {
    var s0 := SetState(s, t, Running);
    if t != s.idle && s.tasks[t].pid >= s.count {
      if t == s.current || t in s.queue {
        InsertedTwice(s0, t);
      } else {
        InsertKeeps(s0, t);
        hide Insert;
        NeedKeeps(Insert(s0, t), s.current, true);
      }
    }
  }

  lemma InsertedTwice<T>(s: Sched<T>, t: T)
    requires t in s.tasks && s.current in s.tasks && t != s.idle && s.tasks[t].pid >= s.count && (t == s.current || t in s.queue)
    ensures !Consistent(SetNeed(Insert(s, t), s.current, true))
  {
    var q := Insert(s, t).queue;
    var k := InsertPoint(s.tasks, s.queue, s.tasks[t].vrun, 0);
    assert q == s.queue[..k] + [t] + s.queue[k..] && q[k] == t;
    if t in s.queue {
      var j :| 0 <= j < |s.queue| && s.queue[j] == t;
      assert q[if j < k then j else j + 1] == t;
    }
  }

  /** AHCI_REQ looks at the flag of the request being served, not at its own. With a polled request
      in service, a scheduled one does not block; when it completes, its task is queued although it
      is still the current one. */
  lemma MixedFlagsQueueTheCurrentTask()
    ensures var s := Sched(map[0 := Info(0, 2, 0, Running, false), 5 := Info(5, 2, 0, Running, false)], [], 5, 0, 1, 4, 0);
      var w := World(s, [], Some(Req(0, 0, false)), 0, map[], [Req(0, 0, false)], [], map[]);
      && Consistent(s)
      && var w1 := Request(w, true);
         var w2 := Complete(w1);
         var w3 := Complete(w2);
         w1.s.current == 5 && w3.s.current == 5 && 5 in w3.s.queue && !Consistent(w3.s)
  {
  }
}
