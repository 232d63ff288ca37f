/** The start of the other CPUs (Kernel/SMP.c: SMP_init on the boot processor, Start_SMP on each of
    the others), with the spin lock as the hand-off of the pointers, under every interleaving. */
module SmpBoot {

  /** The boot processor: the loop test, spin_lock (decq, cmpq), the three pointers, the start-up
      interrupt, the increment; after the loop the lock once more around two interrupts. */
  datatype Boot = Check | Lock | Spin | TaskPtr | ExmpPtr | TssPtr | Startup | Increment
    | LastLock | LastSpin | Interrupts | Unlock | Finished

  /** A started processor: it takes its stack, reads global_i and the pointers for its TSS, and
      unlocks. */
  datatype Pc = Off | ReadStack | ReadIndex | ReadTss | ReadExmp | Release | Running

  /** What it read. */
  datatype Ap = Ap(pc: Pc, stack: nat, index: nat, tss: nat, exmp: nat)

  /** lock, global_i, and for which processor the three pointers were last written. aps[k] is
      processor k, for 1 <= k < Tot_Cores. */
  datatype State = State(lock: int, boot: Boot, i: nat, task: nat, exmp: nat, tss: nat, aps: seq<Ap>)

  function Init(tot: nat): (r: State)
  {
    State(1, Check, 1, 0, 0, 0, seq(tot, _ => Ap(Off, 0, 0, 0, 0)))
  }

  function BootStep(s: State): (r: State)
    ensures |r.aps| == |s.aps|
  {
    match s.boot
    case Check => s.(boot := if s.i < |s.aps| then Lock else LastLock)
    case Lock => s.(lock := s.lock - 1, boot := if s.lock - 1 >= 0 then TaskPtr else Spin)
    case Spin => if s.lock <= 0 then s else s.(boot := Lock)
    case TaskPtr => s.(task := s.i, boot := ExmpPtr)
    case ExmpPtr => s.(exmp := s.i, boot := TssPtr)
    case TssPtr => s.(tss := s.i, boot := Startup)
    case Startup =>
      if s.i < |s.aps| && s.aps[s.i].pc == Off
      then s.(aps := s.aps[s.i := s.aps[s.i].(pc := ReadStack)], boot := Increment)
      else s.(boot := Increment)
    case Increment => s.(i := s.i + 1, boot := Check)
    case LastLock => s.(lock := s.lock - 1, boot := if s.lock - 1 >= 0 then Interrupts else LastSpin)
    case LastSpin => if s.lock <= 0 then s else s.(boot := LastLock)
    case Interrupts => s.(boot := Unlock)
    case Unlock => s.(lock := 1, boot := Finished)
    case Finished => s
  }

  function ApStep(s: State, k: nat): (r: State)
    requires k < |s.aps|
    ensures |r.aps| == |s.aps|
  {
    var a := s.aps[k];
    match a.pc
    case Off => s
    case ReadStack => s.(aps := s.aps[k := a.(stack := s.task, pc := ReadIndex)])
    case ReadIndex => s.(aps := s.aps[k := a.(index := s.i, pc := ReadTss)])
    case ReadTss => s.(aps := s.aps[k := a.(tss := s.tss, pc := ReadExmp)])
    case ReadExmp => s.(aps := s.aps[k := a.(exmp := s.exmp, pc := Release)])
    case Release => s.(aps := s.aps[k := a.(pc := Running)], lock := 1)
    case Running => s
  }

  /** Processor 0 is the boot processor. */
  function Step(s: State, k: nat): (r: State)
    requires k == 0 || k < |s.aps|
    ensures |r.aps| == |s.aps|
  {
    if k == 0 then BootStep(s) else ApStep(s, k)
  }

  function Run(s: State, who: seq<nat>): (r: State)
    requires forall j | 0 <= j < |who| :: who[j] == 0 || who[j] < |s.aps|
    ensures |r.aps| == |s.aps|
    decreases |who|
  {
    if who == [] then s else Run(Step(s, who[0]), who[1..])
  }

  // ----- the invariant -----

  /** The processor started last. */
  function Latest(s: State): (r: int)
  {
    if s.boot == Increment then s.i else s.i - 1
  }

  /** The boot processor is inside the lock. */
  predicate BootInside(b: Boot)
  {
    b == TaskPtr || b == ExmpPtr || b == TssPtr || b == Startup || b == Interrupts || b == Unlock
  }

  /** Processor m has been started and has not unlocked. */
  predicate Starting(s: State, m: int)
  {
    1 <= m < |s.aps| && s.aps[m].pc != Running
  }

  function Rank(pc: Pc): (r: nat)
  {
    match pc
    case Off => 0
    case ReadStack => 0
    case ReadIndex => 1
    case ReadTss => 2
    case ReadExmp => 3
    case Release => 4
    case Running => 5
  }

  /** What processor k has read is its own; the index may be the next one's. */
  predicate ReadOwn(a: Ap, k: nat)
  {
    && (Rank(a.pc) >= 1 ==> a.stack == k) && (Rank(a.pc) >= 2 ==> a.index == k || a.index == k + 1)
    && (Rank(a.pc) >= 3 ==> a.tss == k) && (Rank(a.pc) >= 4 ==> a.exmp == k)
  }

  /** The processors before the latest run, those behind it are off. */
  predicate InOrder(a: Ap, k: nat, m: int)
  {
    (k < m ==> a.pc == Running) && (k > m ==> a.pc == Off) && (k == m ==> a.pc != Off)
  }

  ghost predicate Inv(s: State)
  {
    var m := Latest(s);
    && 1 <= s.i && s.i <= (if |s.aps| > 1 then |s.aps| else 1)
    && (forall k | 1 <= k < |s.aps| :: InOrder(s.aps[k], k, m) && ReadOwn(s.aps[k], k))
    && BootOk(s.boot, s.i, |s.aps|, s.task, s.exmp, s.tss)
    && (if Starting(s, m)
        then !BootInside(s.boot) && s.boot != Finished && s.task == m && s.exmp == m && s.tss == m
             && s.lock == (if s.boot == Spin || s.boot == LastSpin then -1 else 0)
        else s.lock == if BootInside(s.boot) then 0 else 1)
  }

  /** How far the boot processor is with the pointers, and where the loop has ended. */
  predicate BootOk(b: Boot, i: nat, tot: nat, task: nat, exmp: nat, tss: nat)
  {
    match b
    case Check => true
    case Lock => i < tot
    case Spin => i < tot
    case TaskPtr => i < tot
    case ExmpPtr => i < tot && task == i
    case TssPtr => i < tot && task == i && exmp == i
    case Startup => i < tot && task == i && exmp == i && tss == i
    case Increment => i < tot
    case _ => i >= tot
  }

  lemma BootKeeps(s: State)
    requires Inv(s)
    ensures Inv(BootStep(s))
  {
    hide ReadOwn;
    var r := BootStep(s);
    if s.boot == Startup {
      forall k | 1 <= k < |r.aps| ensures InOrder(r.aps[k], k, Latest(r)) && ReadOwn(r.aps[k], k) {
        assert InOrder(s.aps[k], k, Latest(s)) && ReadOwn(s.aps[k], k);
        if k == s.i { Fresh(r.aps[k], k); }
      }
    } else {
      forall k | 1 <= k < |r.aps| ensures InOrder(r.aps[k], k, Latest(r)) && ReadOwn(r.aps[k], k) {
        assert InOrder(s.aps[k], k, Latest(s)) && ReadOwn(s.aps[k], k);
      }
    }
  }

  lemma Fresh(a: Ap, k: nat)
    requires a.pc == ReadStack
    ensures ReadOwn(a, k)
  {
  }

  lemma ApKeeps(s: State, k: nat)
    requires 1 <= k < |s.aps| && Inv(s)
    ensures Inv(ApStep(s, k))
  {
    var r := ApStep(s, k);
    assert InOrder(s.aps[k], k, Latest(s)) && ReadOwn(s.aps[k], k);
    forall j | 1 <= j < |r.aps| ensures InOrder(r.aps[j], j, Latest(r)) && ReadOwn(r.aps[j], j) {
      assert InOrder(s.aps[j], j, Latest(s)) && ReadOwn(s.aps[j], j);
    }
  }

  lemma {:induction false} RunKeeps(s: State, who: seq<nat>)
    requires (forall j | 0 <= j < |who| :: who[j] == 0 || who[j] < |s.aps|) && Inv(s)
    ensures Inv(Run(s, who))
    decreases |who|
  {
    hide Inv, BootStep, ApStep;
    if who != [] {
      if who[0] == 0 { BootKeeps(s); } else { ApKeeps(s, who[0]); }
      RunKeeps(Step(s, who[0]), who[1..]);
    }
  }

  // ----- what follows -----

  /** In every run every processor that has read a pointer has read the one written for it, so no two
      processors share a stack; and the boot processor is never inside the lock while a started
      processor still reads. */
  lemma HandOff(tot: nat, who: seq<nat>)
    requires forall j | 0 <= j < |who| :: who[j] == 0 || who[j] < tot
    ensures var s := Run(Init(tot), who);
      && (forall k | 1 <= k < tot :: ReadOwn(s.aps[k], k))
      && (forall k, l | 1 <= k < tot && 1 <= l < tot && k != l && Rank(s.aps[k].pc) > 0 && Rank(s.aps[l].pc) > 0 ::
            s.aps[k].stack != s.aps[l].stack)
      && (BootInside(s.boot) ==> forall k | 1 <= k < tot :: s.aps[k].pc == Off || s.aps[k].pc == Running)
      && -1 <= s.lock <= 1
  {
    assert Inv(Init(tot));
    RunKeeps(Init(tot), who);
  }

  /** No run gets stuck: until everything is done some processor can go on. */
  lemma NeverStuck(tot: nat, who: seq<nat>)
    requires forall j | 0 <= j < |who| :: who[j] == 0 || who[j] < tot
    ensures var s := Run(Init(tot), who);
      || (exists k :: (k == 0 || 0 < k < tot) && Step(s, k) != s)
      || (s.boot == Finished && forall k | 1 <= k < tot :: s.aps[k].pc == Running)
  {
    assert Inv(Init(tot));
    RunKeeps(Init(tot), who);
    var s := Run(Init(tot), who);
    var m := Latest(s);
    if Starting(s, m) {
      assert InOrder(s.aps[m], m, m);
      assert Step(s, m) != s;
    } else if s.boot != Finished {
      assert Step(s, 0) != s;
    } else {
      forall k | 1 <= k < tot ensures s.aps[k].pc == Running { assert InOrder(s.aps[k], k, m); }
    }
  }

  /** What the hand-off does not cover: a processor reads its own index exactly if the boot processor
      has not yet incremented global_i, wherever the interleaving has got to. */
  lemma IndexRightIff(tot: nat, who: seq<nat>, k: nat)
    requires (forall j | 0 <= j < |who| :: who[j] == 0 || who[j] < tot) && 1 <= k < tot
    ensures var s := Run(Init(tot), who);
      s.aps[k].pc == ReadIndex ==> (Step(s, k).aps[k].index == k <==> s.boot == Increment)
  {
    assert Inv(Init(tot));
    RunKeeps(Init(tot), who);
    var s := Run(Init(tot), who);
    assert InOrder(s.aps[k], k, Latest(s));
  }

  lemma RunFirst(s: State, k: nat, rest: seq<nat>)
    requires (k == 0 || k < |s.aps|) && forall j | 0 <= j < |rest| :: rest[j] == 0 || rest[j] < |s.aps|
    ensures Run(s, [k] + rest) == Run(Step(s, k), rest)
  {
  }

  lemma RunThree(s: State, rest: seq<nat>)
    requires forall j | 0 <= j < |rest| :: rest[j] == 0 || rest[j] < |s.aps|
    ensures Run(s, [0] + ([0] + ([0] + rest))) == Run(BootStep(BootStep(BootStep(s))), rest)
  {
    hide Run, BootStep;
    RunFirst(s, 0, [0] + ([0] + rest));
    RunFirst(BootStep(s), 0, [0] + rest);
    RunFirst(BootStep(BootStep(s)), 0, rest);
  }

  /** The boot processor's first six steps with three processors. */
  lemma FirstStarted(rest: seq<nat>)
    requires forall j | 0 <= j < |rest| :: rest[j] < 3
    ensures var a := Ap(Off, 0, 0, 0, 0);
      Run(Init(3), [0] + ([0] + ([0] + ([0] + ([0] + ([0] + rest)))))) ==
      Run(State(0, Increment, 1, 1, 1, 1, [a, a.(pc := ReadStack), a]), rest)
  {
    hide Run, ApStep, BootStep, Init;
    var a := Ap(Off, 0, 0, 0, 0);
    var s3 := State(0, ExmpPtr, 1, 1, 0, 0, [a, a, a]);
    FirstThree();
    RunThree(Init(3), [0] + ([0] + ([0] + rest)));
    RunThree(s3, rest);
  }

  lemma FirstThree()
    ensures var a := Ap(Off, 0, 0, 0, 0); var s3 := State(0, ExmpPtr, 1, 1, 0, 0, [a, a, a]);
      && |Init(3).aps| == 3 && BootStep(BootStep(BootStep(Init(3)))) == s3
      && BootStep(BootStep(BootStep(s3))) == State(0, Increment, 1, 1, 1, 1, [a, a.(pc := ReadStack), a])
  {
    var a := Ap(Off, 0, 0, 0, 0);
    assert Init(3).aps == [a, a, a];
    assert [a, a, a][1 := a.(pc := ReadStack)] == [a, a.(pc := ReadStack), a];
  }

  /** global_i is not handed off: of three processors, the first started may set up the descriptor of
      the second. */
  lemma IndexRaces()
    ensures Run(Init(3), [0, 0, 0, 0, 0, 0, 1, 1]).aps[1].index == 1
    ensures Run(Init(3), [0, 0, 0, 0, 0, 0, 0, 1, 1]).aps[1].index == 2
  {
    hide Init;
    FirstStarted([1, 1]);
    FirstStarted([0, 1, 1]);
    var a := Ap(Off, 0, 0, 0, 0);
    var s := State(0, Increment, 1, 1, 1, 1, [a, a.(pc := ReadStack), a]);
    assert [0] + ([0] + ([0] + ([0] + ([0] + ([0] + [1, 1]))))) == [0, 0, 0, 0, 0, 0, 1, 1];
    assert [0] + ([0] + ([0] + ([0] + ([0] + ([0] + [0, 1, 1]))))) == [0, 0, 0, 0, 0, 0, 0, 1, 1];
  }
}
