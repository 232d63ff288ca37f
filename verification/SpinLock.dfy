/** The spin lock (Kernel/lib.h: spin_init, spin_lock, spin_unlock) under every interleaving of the
    instructions of any number of CPUs. */
module SpinLock {

  /** Where a CPU is: outside, before the `decq`, before the `cmpq` of the inner loop, or holding. */
  datatype Pc = Out | Decrement | Compare | Holding

  datatype State = State(lock: int, cpus: seq<Pc>)

  function Init(n: nat): (r: State)
  {
    State(1, seq(n, _ => Out))
  }

  /** One instruction of CPU i. A CPU outside may start spin_lock; a holder may run spin_unlock. */
  function Step(s: State, i: nat): (r: State)
    requires i < |s.cpus|
  {
    match s.cpus[i]
    case Out => s.(cpus := s.cpus[i := Decrement])
    case Decrement => State(s.lock - 1, s.cpus[i := if s.lock - 1 >= 0 then Holding else Compare])
    case Compare => if s.lock <= 0 then s else s.(cpus := s.cpus[i := Decrement])
    case Holding => State(1, s.cpus[i := Out])
  }

  /** The first of the listed CPUs steps, then the others. */
  function Run(s: State, who: seq<nat>): (r: State)
    requires forall k | 0 <= k < |who| :: who[k] < |s.cpus|
    ensures |r.cpus| == |s.cpus|
    decreases |who|
  {
    if who == [] then s else Run(Step(s, who[0]), who[1..])
  }

  /** How many CPUs are at pc. */
  function Count(cpus: seq<Pc>, pc: Pc): (r: nat)
    ensures r <= |cpus|
  {
    if cpus == [] then 0 else (if cpus[0] == pc then 1 else 0) + Count(cpus[1..], pc)
  }

  lemma {:induction false} CountUpdate(cpus: seq<Pc>, i: nat, to: Pc, pc: Pc)
    requires i < |cpus|
    ensures Count(cpus[i := to], pc) == Count(cpus, pc) - (if cpus[i] == pc then 1 else 0) + (if to == pc then 1 else 0)
    ensures cpus[i] == pc ==> Count(cpus, pc) > 0
    decreases |cpus|
  {
    if i == 0 {
      assert cpus[i := to][1..] == cpus[1..];
    } else {
      assert cpus[i := to][1..] == cpus[1..][i - 1 := to];
      CountUpdate(cpus[1..], i - 1, to, pc);
    }
  }

  lemma {:induction false} CountTwo(cpus: seq<Pc>, p: Pc, q: Pc)
    requires p != q
    ensures Count(cpus, p) + Count(cpus, q) <= |cpus|
    decreases |cpus|
  {
    if cpus != [] { CountTwo(cpus[1..], p, q); }
  }

  lemma {:induction false} NoneAtStart(n: nat, pc: Pc)
    requires pc != Out
    ensures Count(seq(n, _ => Out), pc) == 0
    decreases n
  {
    if n > 0 {
      assert seq(n, _ => Out)[1..] == seq(n - 1, _ => Out);
      NoneAtStart(n - 1, pc);
    }
  }

  /** The word is 1 when nobody holds the lock; while somebody does it is at most 0, and below that by
      no more than one for each CPU that compares. */
  ghost predicate Inv(s: State)
  {
    var holders := Count(s.cpus, Holding);
    (holders == 0 && s.lock == 1) || (holders == 1 && 0 <= s.lock + Count(s.cpus, Compare) && s.lock <= 0)
  }

  lemma StepKeeps(s: State, i: nat)
    requires i < |s.cpus| && Inv(s)
    ensures Inv(Step(s, i))
  {
    var to := Step(s, i).cpus[i];
    assert s.cpus[i := s.cpus[i]] == s.cpus;
    CountUpdate(s.cpus, i, to, Holding);
    CountUpdate(s.cpus, i, to, Compare);
  }

  lemma {:induction false} RunKeeps(s: State, who: seq<nat>)
    requires (forall k | 0 <= k < |who| :: who[k] < |s.cpus|) && Inv(s)
    ensures Inv(Run(s, who))
    decreases |who|
  {
    if who != [] {
      StepKeeps(s, who[0]);
      RunKeeps(Step(s, who[0]), who[1..]);
    }
  }

  lemma {:induction false} TwoHolders(cpus: seq<Pc>, i: nat, j: nat)
    requires i < j < |cpus| && cpus[i] == Holding && cpus[j] == Holding
    ensures Count(cpus, Holding) >= 2
    decreases |cpus|
  {
    if i > 0 {
      TwoHolders(cpus[1..], i - 1, j - 1);
    } else {
      CountUpdate(cpus[1..], j - 1, Out, Holding);
    }
  }

  /** In every run of n CPUs at most one holds the lock, and its word stays between -(n - 1) and 1. */
  lemma MutualExclusion(n: nat, who: seq<nat>)
    requires n > 0 && forall k | 0 <= k < |who| :: who[k] < n
    ensures var s := Run(Init(n), who);
      && -(n - 1) <= s.lock <= 1
      && forall i, j | 0 <= i < n && 0 <= j < n && s.cpus[i] == Holding && s.cpus[j] == Holding :: i == j
  {
    NoneAtStart(n, Holding);
    RunKeeps(Init(n), who);
    var s := Run(Init(n), who);
    CountTwo(s.cpus, Holding, Compare);
    forall i, j | 0 <= i < j < n ensures !(s.cpus[i] == Holding && s.cpus[j] == Holding) {
      if s.cpus[i] == Holding && s.cpus[j] == Holding { TwoHolders(s.cpus, i, j); }
    }
  }

  /** The lock is never lost: whenever nobody holds it, a CPU that waits gets it by its own next one
      or two instructions. */
  lemma FreeLockIsTaken(n: nat, who: seq<nat>, i: nat)
    requires i < n && forall k | 0 <= k < |who| :: who[k] < n
    ensures var s := Run(Init(n), who);
      (forall k | 0 <= k < n :: s.cpus[k] != Holding) ==>
        && (s.cpus[i] == Decrement ==> Step(s, i).cpus[i] == Holding)
        && (s.cpus[i] == Compare ==> Step(Step(s, i), i).cpus[i] == Holding)
  {
    NoneAtStart(n, Holding);
    RunKeeps(Init(n), who);
    var s := Run(Init(n), who);
    if forall k | 0 <= k < n :: s.cpus[k] != Holding { NobodyCounts(s.cpus); }
  }

  lemma {:induction false} NobodyCounts(cpus: seq<Pc>)
    requires forall k | 0 <= k < |cpus| :: cpus[k] != Holding
    ensures Count(cpus, Holding) == 0
    decreases |cpus|
  {
    if cpus != [] { NobodyCounts(cpus[1..]); }
  }
}
