/**
 The Hoare monitor built from semaphores, run by any number of threads in any
 interleaving. A thread's program counter names the next statement it will run inside
 `cond_signal`, `cond_wait` or the entry and exit code of a monitor routine; every
 statement that touches shared data is a step of its own.
 */
module Monitors {
  import opened Counting
  import opened Semaphores

  // The semaphores of a monitor with n condition variables: mutex, next, and one per variable.
  const MUTEX: nat := 0
  const NEXT: nat := 1

  function CvSem(c: nat): nat {
    c + 2
  }

  datatype PC =
    | Outside                // enter: down(mutex)
    | Body                   // inside a routine of the monitor
    | SignalTest(c: nat)     // if cv.count > 0
    | SignalCount(c: nat)    // next_count ++
    | SignalUp(c: nat)       // up(cv.sem)
    | SignalDown             // down(next)
    | SignalDone             // next_count --
    | WaitCount(c: nat)      // cv.count ++
    | WaitTest(c: nat)       // if next_count > 0
    | WaitUpNext(c: nat)     //   up(next)
    | WaitUpMutex(c: nat)    //   else up(mutex)
    | WaitDown(c: nat)       // down(cv.sem)
    | WaitDone(c: nat)       // cv.count --
    | LeaveTest              // if next_count > 0
    | LeaveUpNext            //   up(next)
    | LeaveUpMutex           //   else up(mutex)

  /** A sleeping thread's program counter stays at the `down` it sleeps in. */
  datatype Thread = Thread(pc: PC, asleep: bool)

  datatype Mon = Mon(sem: seq<Sem>, nextCount: int, count: seq<int>, threads: seq<Thread>)

  /** What the code of a monitor routine may ask for when it is in the body. */
  datatype Call = Signal(c: nat) | Wait(c: nat) | Leave

  /** The semaphore that a thread at this point goes down on. */
  function DownOn(pc: PC): int {
    match pc
    case Outside => MUTEX
    case SignalDown => NEXT
    case WaitDown(c) => CvSem(c)
    case _ => -1
  }

  function AfterDown(pc: PC): PC {
    match pc
    case Outside => Body
    case SignalDown => SignalDone
    case WaitDown(c) => WaitDone(c)
    case _ => pc
  }

  predicate CvOk(pc: PC, n: nat) {
    match pc
    case SignalTest(c) => c < n
    case SignalCount(c) => c < n
    case SignalUp(c) => c < n
    case WaitCount(c) => c < n
    case WaitTest(c) => c < n
    case WaitUpNext(c) => c < n
    case WaitUpMutex(c) => c < n
    case WaitDown(c) => c < n
    case WaitDone(c) => c < n
    case _ => true
  }

  predicate Typed(m: Mon) {
    && |m.sem| == CvSem(|m.count|)
    && (forall t :: 0 <= t < |m.threads| ==> CvOk(m.threads[t].pc, |m.count|))
    && (forall s, j :: 0 <= s < |m.sem| && 0 <= j < |m.sem[s].queue| ==> m.sem[s].queue[j] < |m.threads|)
  }

  // ----- The steps -----

  function Goto(m: Mon, t: nat, pc: PC): Mon
    requires t < |m.threads|
  {
    m.(threads := m.threads[t := Thread(pc, false)])
  }

  /** `down(s)` by thread t: go on, or fall asleep. */
  function DownStep(m: Mon, t: nat, s: nat): Mon
    requires t < |m.threads| && s < |m.sem|
  {
    var pc := m.threads[t].pc;
    var m' := m.(sem := m.sem[s := Downed(m.sem[s], t)]);
    if m.sem[s].value > 0
    then m'.(threads := m.threads[t := Thread(AfterDown(pc), false)])
    else m'.(threads := m.threads[t := Thread(pc, true)])
  }

  /** `up(s)` by thread t, which goes on to pc: wake the first sleeper, if any. */
  function UpStep(m: Mon, t: nat, s: nat, pc: PC): Mon
    requires Typed(m)
    requires t < |m.threads| && s < |m.sem|
  {
    var q := m.sem[s].queue;
    var m' := m.(sem := m.sem[s := Upped(m.sem[s])]);
    var ths := m.threads[t := Thread(pc, false)];
    if q == [] then m'.(threads := ths)
    else m'.(threads := ths[q[0] := Thread(AfterDown(ths[q[0]].pc), false)])
  }

  /** One step of thread t; `call` is what it asks for if it is in the body. */
  function Exec(m: Mon, t: nat, call: Call): Mon
    requires Typed(m)
    requires t < |m.threads|
    requires call.Leave? || call.c < |m.count|
  {
    match m.threads[t].pc
    case Outside => DownStep(m, t, MUTEX)
    case Body =>
      (match call
       case Signal(c) => Goto(m, t, SignalTest(c))
       case Wait(c) => Goto(m, t, WaitCount(c))
       case Leave => Goto(m, t, LeaveTest))
    case SignalTest(c) => Goto(m, t, if m.count[c] > 0 then SignalCount(c) else Body)
    case SignalCount(c) => Goto(m, t, SignalUp(c)).(nextCount := m.nextCount + 1)
    case SignalUp(c) => UpStep(m, t, CvSem(c), SignalDown)
    case SignalDown => DownStep(m, t, NEXT)
    case SignalDone => Goto(m, t, Body).(nextCount := m.nextCount - 1)
    case WaitCount(c) => Goto(m, t, WaitTest(c)).(count := m.count[c := m.count[c] + 1])
    case WaitTest(c) => Goto(m, t, if m.nextCount > 0 then WaitUpNext(c) else WaitUpMutex(c))
    case WaitUpNext(c) => UpStep(m, t, NEXT, WaitDown(c))
    case WaitUpMutex(c) => UpStep(m, t, MUTEX, WaitDown(c))
    case WaitDown(c) => DownStep(m, t, CvSem(c))
    case WaitDone(c) => Goto(m, t, Body).(count := m.count[c := m.count[c] - 1])
    case LeaveTest => Goto(m, t, if m.nextCount > 0 then LeaveUpNext else LeaveUpMutex)
    case LeaveUpNext => UpStep(m, t, NEXT, Outside)
    case LeaveUpMutex => UpStep(m, t, MUTEX, Outside)
  }

  /** `monitor_init` with n condition variables, and k threads that have not entered yet. */
  function Init(n: nat, k: nat): Mon {
    Mon([Sem(1, [])] + seq(n + 1, _ => Sem(0, [])), 0, seq(n, _ => 0), seq(k, _ => Thread(Outside, false)))
  }

  /** Any thread that is awake may run next. */
  ghost predicate Next(m: Mon, m': Mon) {
    exists t: nat, call: Call ::
      && Typed(m) && t < |m.threads| && !m.threads[t].asleep
      && (call.Leave? || call.c < |m.count|)
      && m' == Exec(m, t, call)
  }

  ghost predicate IsRun(n: nat, k: nat, run: seq<Mon>) {
    && run != []
    && run[0] == Init(n, k)
    && forall i :: 0 <= i < |run| - 1 ==> Next(run[i], run[i + 1])
  }

  // ----- The invariant -----

  datatype Group =
    | Active            // running inside the monitor
    | Signaller         // between next_count ++ and next_count --
    | Waiter(c: nat)    // between cv.count ++ and cv.count --
    | Ready(s: nat)     // awake, about to down semaphore s

  predicate In(th: Thread, g: Group) {
    match g
    case Active => !th.asleep && DownOn(th.pc) < 0
    case Signaller => th.pc.SignalUp? || th.pc.SignalDown? || th.pc.SignalDone?
    case Waiter(c) =>
      (match th.pc
       case WaitTest(d) => d == c
       case WaitUpNext(d) => d == c
       case WaitUpMutex(d) => d == c
       case WaitDown(d) => d == c
       case WaitDone(d) => d == c
       case _ => false)
    case Ready(s) => !th.asleep && DownOn(th.pc) == s
  }

  function Flags(ths: seq<Thread>, g: Group): seq<bool> {
    seq(|ths|, (i: nat) requires i < |ths| => In(ths[i], g))
  }

  /** How many threads are in the group. */
  function Size(ths: seq<Thread>, g: Group): nat {
    Count(Flags(ths, g))
  }

  function Values(sem: seq<Sem>): seq<int> {
    seq(|sem|, (i: nat) requires i < |sem| => sem[i].value)
  }

  /** The permits left over in the monitor's semaphores. */
  function Permits(m: Mon): int {
    Sum(Values(m.sem))
  }

  predicate SleepsOn(th: Thread, s: nat) {
    th.asleep && DownOn(th.pc) == s
  }

  /** The queue holds exactly the threads asleep on semaphore s, each once. */
  predicate QueueOk(q: seq<nat>, ths: seq<Thread>, s: nat) {
    && (forall j :: 0 <= j < |q| ==> q[j] < |ths| && SleepsOn(ths[q[j]], s))
    && (forall j, k :: 0 <= j < k < |q| ==> q[j] != q[k])
    && (forall t :: 0 <= t < |ths| && SleepsOn(ths[t], s) ==> t in q)
  }

  /** What a thread that has looked at a counter still knows about it. */
  predicate KnowsCounters(m: Mon, pc: PC) {
    match pc
    case SignalCount(c) => c < |m.count| && m.count[c] > 0
    case SignalUp(c) => c < |m.count| && m.count[c] > 0
    case WaitUpNext(_) => m.nextCount > 0
    case LeaveUpNext => m.nextCount > 0
    case WaitUpMutex(_) => m.nextCount == 0
    case LeaveUpMutex => m.nextCount == 0
    case _ => true
  }

  /** Sleepers and queues agree. */
  ghost predicate QueuesOk(m: Mon) {
    && (forall s :: 0 <= s < |m.sem| ==> Sound(m.sem[s]) && QueueOk(m.sem[s].queue, m.threads, s))
    && (forall t :: 0 <= t < |m.threads| && m.threads[t].asleep ==> DownOn(m.threads[t].pc) >= 0)
  }

  /** One permit in all, left over or held by an active thread; the counters count what they should. */
  ghost predicate CountersOk(m: Mon) {
    && Permits(m) + Size(m.threads, Active) == 1
    && m.nextCount == Size(m.threads, Signaller)
    && (forall c :: 0 <= c < |m.count| ==> m.count[c] == Size(m.threads, Waiter(c)))
  }

  /** A permit left in `next` or in a condition variable's semaphore has a thread that will take it. */
  ghost predicate TakersOk(m: Mon) {
    forall s :: 1 <= s < |m.sem| ==> m.sem[s].value <= Size(m.threads, Ready(s))
  }

  ghost predicate KnowledgeOk(m: Mon)
    requires |m.sem| >= 2
  {
    && (forall t :: 0 <= t < |m.threads| ==> KnowsCounters(m, m.threads[t].pc))
    && (m.sem[MUTEX].value > 0 ==> m.nextCount == 0)
  }

  ghost predicate Inv(m: Mon) {
    Typed(m) && QueuesOk(m) && CountersOk(m) && TakersOk(m) && KnowledgeOk(m)
  }

  // ----- Counting threads -----

  lemma SizeUpdate(ths: seq<Thread>, t: nat, th: Thread)
    requires t < |ths|
    ensures forall g :: Size(ths[t := th], g) == Size(ths, g) - B(In(ths[t], g)) + B(In(th, g))
  {
    forall g
      ensures Size(ths[t := th], g) == Size(ths, g) - B(In(ths[t], g)) + B(In(th, g))
    {
      assert Flags(ths[t := th], g) == Flags(ths, g)[t := In(th, g)];
      CountUpdate(Flags(ths, g), t, In(th, g));
    }
  }

  lemma SizeWitness(ths: seq<Thread>, g: Group) returns (t: nat)
    requires Size(ths, g) > 0
    ensures t < |ths| && In(ths[t], g)
  {
    t := CountWitness(Flags(ths, g));
  }

  lemma SizeMember(ths: seq<Thread>, g: Group, t: nat)
    requires t < |ths| && In(ths[t], g)
    ensures Size(ths, g) >= 1
  {
    CountMember(Flags(ths, g), t);
  }

  /** When at most one thread is in a group, it is the only one. */
  lemma SizeUnique(ths: seq<Thread>, g: Group, t: nat)
    requires t < |ths| && In(ths[t], g)
    requires Size(ths, g) <= 1
    ensures forall u :: 0 <= u < |ths| && u != t ==> !In(ths[u], g)
  {
    forall u | 0 <= u < |ths| && u != t
      ensures !In(ths[u], g)
    {
      if In(ths[u], g) {
        CountTwo(Flags(ths, g), t, u);
      }
    }
  }

  lemma PermitsUpdate(sem: seq<Sem>, s: nat, x: Sem)
    requires s < |sem|
    ensures Sum(Values(sem[s := x])) == Sum(Values(sem)) - sem[s].value + x.value
  {
    assert Values(sem[s := x]) == Values(sem)[s := x.value];
    SumUpdate(Values(sem), s, x.value);
  }

  lemma PermitsAtLeast(m: Mon, s: nat)
    requires Inv(m)
    requires s < |m.sem|
    ensures 0 <= m.sem[s].value <= Permits(m) <= 1
  {
    SumAtLeast(Values(m.sem), s);
  }

  /** While a thread is active, it is the only one and no semaphore holds a permit. */
  lemma ActiveAlone(m: Mon, t: nat)
    requires Inv(m)
    requires t < |m.threads| && In(m.threads[t], Active)
    ensures forall u :: 0 <= u < |m.threads| && u != t ==> !In(m.threads[u], Active)
    ensures forall s :: 0 <= s < |m.sem| ==> m.sem[s].value == 0
    ensures Size(m.threads, Active) == 1 && Permits(m) == 0
  {
    SizeMember(m.threads, Active, t);
    SumNonNegative(Values(m.sem));
    SizeUnique(m.threads, Active, t);
    forall s | 0 <= s < |m.sem|
      ensures m.sem[s].value == 0
    {
      PermitsAtLeast(m, s);
    }
  }

  // ----- Queues -----

  lemma QueueOther(q: seq<nat>, ths: seq<Thread>, s: nat, t: nat, th: Thread)
    requires QueueOk(q, ths, s)
    requires t < |ths| && !SleepsOn(ths[t], s) && !SleepsOn(th, s)
    ensures QueueOk(q, ths[t := th], s)
  {
  }

  lemma QueuePush(q: seq<nat>, ths: seq<Thread>, s: nat, t: nat, th: Thread)
    requires QueueOk(q, ths, s)
    requires t < |ths| && !SleepsOn(ths[t], s) && SleepsOn(th, s)
    ensures QueueOk(q + [t], ths[t := th], s)
  {
    var q' := q + [t];
    assert q'[|q|] == t;
    assert forall u :: u in q ==> u in q';
  }

  lemma QueuePop(q: seq<nat>, ths: seq<Thread>, s: nat, th: Thread)
    requires QueueOk(q, ths, s)
    requires q != [] && !SleepsOn(th, s)
    ensures q[0] < |ths| && QueueOk(q[1..], ths[q[0] := th], s)
  {
    assert q == [q[0]] + q[1..];
    forall u | 0 <= u < |ths| && SleepsOn(ths[u], s) && u != q[0]
      ensures u in q[1..]
    {
      assert u in q;
    }
  }

  // ----- Every step keeps the invariant -----

  lemma InitSizes(ths: seq<Thread>, g: Group)
    requires forall t :: 0 <= t < |ths| ==> ths[t] == Thread(Outside, false)
    requires !g.Ready?
    ensures Size(ths, g) == 0
  {
    CountNone(Flags(ths, g));
  }

  lemma InitPermits(n: nat, k: nat)
    ensures Permits(Init(n, k)) == 1
  {
    assert Values(Init(n, k).sem) == seq(n + 2, _ => 0)[0 := 1];
    SumZeros(n + 2);
    SumUpdate(seq(n + 2, _ => 0), 0, 1);
  }

  lemma InitInv(n: nat, k: nat)
    ensures Inv(Init(n, k))
  {
    hide Size, Permits;
    var m := Init(n, k);
    InitPermits(n, k);
    InitSizes(m.threads, Active);
    InitSizes(m.threads, Signaller);
    forall c | 0 <= c < n
      ensures Size(m.threads, Waiter(c)) == 0
    {
      InitSizes(m.threads, Waiter(c));
    }
  }

  lemma {:induction false} SumZeros(n: nat)
    ensures Sum(seq(n, _ => 0)) == 0
  {
    if n > 0 {
      SumZeros(n - 1);
      assert seq(n, _ => 0)[..n - 1] == seq(n - 1, _ => 0);
    }
  }

  /** A step of the active thread that stays active and touches only the counters. */
  lemma LocalStepInv(m: Mon, m': Mon, t: nat, th: Thread)
    requires Inv(m)
    requires t < |m.threads| && In(m.threads[t], Active)
    requires In(th, Active) && CvOk(th.pc, |m.count|)
    requires m'.sem == m.sem && m'.threads == m.threads[t := th]
    requires |m'.count| == |m.count|
    requires m'.nextCount == m.nextCount - B(In(m.threads[t], Signaller)) + B(In(th, Signaller))
    requires forall c :: 0 <= c < |m.count| ==>
      m'.count[c] == m.count[c] - B(In(m.threads[t], Waiter(c))) + B(In(th, Waiter(c)))
    requires KnowsCounters(m', th.pc)
    ensures Inv(m')
  {
    hide Size, Permits, QueueOk, Sound;
    ActiveAlone(m, t);
    SizeUpdate(m.threads, t, th);
    assert Permits(m') == Permits(m) by { PermitsSame(m, m'); }
    forall s | 0 <= s < |m.sem|
      ensures QueueOk(m.sem[s].queue, m'.threads, s)
    {
      QueueOther(m.sem[s].queue, m.threads, s, t, th);
    }
    assert forall u :: 0 <= u < |m.threads| && u != t ==> m'.threads[u] == m.threads[u];
  }

  lemma PermitsSame(m: Mon, m': Mon)
    requires m.sem == m'.sem
    ensures Permits(m) == Permits(m')
  {
  }

  /** Going down on the semaphore of the program counter: taking the permit or falling asleep. */
  lemma DownStepInv(m: Mon, t: nat)
    requires Inv(m)
    requires t < |m.threads| && !m.threads[t].asleep && DownOn(m.threads[t].pc) >= 0
    ensures DownOn(m.threads[t].pc) < |m.sem|
    ensures Inv(DownStep(m, t, DownOn(m.threads[t].pc)))
  {
    hide QueuesOk, CountersOk, TakersOk, KnowledgeOk;
    assert CvOk(m.threads[t].pc, |m.count|);
    DownCounters(m, t);
    DownKnowledge(m, t);
    DownQueues(m, t);
    DownTakers(m, t);
  }

  lemma DownQueues(m: Mon, t: nat)
    requires Inv(m)
    requires t < |m.threads| && !m.threads[t].asleep && 0 <= DownOn(m.threads[t].pc) < |m.sem|
    ensures QueuesOk(DownStep(m, t, DownOn(m.threads[t].pc)))
  {
    hide CountersOk, TakersOk, KnowledgeOk, QueueOk, Sound;
    forall r | 0 <= r < |m.sem|
      ensures var m' := DownStep(m, t, DownOn(m.threads[t].pc));
        Sound(m'.sem[r]) && QueueOk(m'.sem[r].queue, m'.threads, r)
    {
      DownQueue(m, t, r);
    }
  }

  lemma DownTakers(m: Mon, t: nat)
    requires Inv(m)
    requires t < |m.threads| && !m.threads[t].asleep && 0 <= DownOn(m.threads[t].pc) < |m.sem|
    ensures TakersOk(DownStep(m, t, DownOn(m.threads[t].pc)))
  {
    hide Inv, Size;
    forall r | 1 <= r < |m.sem|
      ensures var m' := DownStep(m, t, DownOn(m.threads[t].pc)); m'.sem[r].value <= Size(m'.threads, Ready(r))
    {
      DownReady(m, t, r);
    }
  }

  lemma DownCounters(m: Mon, t: nat)
    requires Inv(m)
    requires t < |m.threads| && !m.threads[t].asleep && 0 <= DownOn(m.threads[t].pc) < |m.sem|
    ensures CountersOk(DownStep(m, t, DownOn(m.threads[t].pc)))
  {
    hide QueuesOk, TakersOk, KnowledgeOk, Size, Values;
    var s := DownOn(m.threads[t].pc);
    var m' := DownStep(m, t, s);
    SizeUpdate(m.threads, t, m'.threads[t]);
    PermitsUpdate(m.sem, s, m'.sem[s]);
    PermitsAtLeast(m, s);
  }

  lemma DownKnowledge(m: Mon, t: nat)
    requires Inv(m)
    requires t < |m.threads| && !m.threads[t].asleep && 0 <= DownOn(m.threads[t].pc) < |m.sem|
    ensures KnowledgeOk(DownStep(m, t, DownOn(m.threads[t].pc)))
  {
    hide CountersOk, TakersOk, QueueOk;
    var m' := DownStep(m, t, DownOn(m.threads[t].pc));
    forall u | 0 <= u < |m'.threads|
      ensures KnowsCounters(m', m'.threads[u].pc)
    {
      assert KnowsCounters(m, m.threads[u].pc);
    }
  }

  lemma DownQueue(m: Mon, t: nat, r: nat)
    requires Inv(m)
    requires t < |m.threads| && !m.threads[t].asleep && 0 <= DownOn(m.threads[t].pc) < |m.sem|
    requires r < |m.sem|
    ensures var m' := DownStep(m, t, DownOn(m.threads[t].pc));
      Sound(m'.sem[r]) && QueueOk(m'.sem[r].queue, m'.threads, r)
  {
    var s := DownOn(m.threads[t].pc);
    var m' := DownStep(m, t, s);
    var q, th := m.sem[r].queue, m'.threads[t];
    assert Sound(m.sem[r]) && QueueOk(q, m.threads, r);
    hide QueueOk;
    if r == s && m.sem[s].value <= 0 {
      QueuePush(q, m.threads, r, t, th);
    } else {
      QueueOther(q, m.threads, r, t, th);
    }
  }

  /** A permit left in a semaphore still has its taker after another thread goes down. */
  lemma DownReady(m: Mon, t: nat, r: nat)
    requires Inv(m)
    requires t < |m.threads| && !m.threads[t].asleep && 0 <= DownOn(m.threads[t].pc) < |m.sem|
    requires 1 <= r < |m.sem|
    ensures var m' := DownStep(m, t, DownOn(m.threads[t].pc));
      m'.sem[r].value <= Size(m'.threads, Ready(r))
  {
    hide Size, QueuesOk, CountersOk, KnowledgeOk;
    var s := DownOn(m.threads[t].pc);
    var m' := DownStep(m, t, s);
    assert m.sem[r].value <= Size(m.threads, Ready(r));
    SizeUpdate(m.threads, t, m'.threads[t]);
    assert Size(m'.threads, Ready(r)) == Size(m.threads, Ready(r)) - B(r == s);
    PermitsAtLeast(m, r);
  }

  /** Who will take the permit that thread t is about to give to semaphore s. */
  lemma TakerExists(m: Mon, t: nat, s: nat)
    requires Inv(m)
    requires t < |m.threads| && In(m.threads[t], Active)
    requires 1 <= s < |m.sem|
    requires m.sem[s].queue == []
    requires s == NEXT ==> m.nextCount > 0 && !In(m.threads[t], Signaller)
    requires s > NEXT ==> m.count[s - 2] > 0 && !In(m.threads[t], Waiter(s - 2))
    ensures Size(m.threads, Ready(s)) >= 1
  {
    hide Size, Permits;
    ActiveAlone(m, t);
    var g := if s == NEXT then Signaller else Waiter(s - 2);
    assert Size(m.threads, g) > 0;
    var u := SizeWitness(m.threads, g);
    assert !In(m.threads[u], Active);
    assert DownOn(m.threads[u].pc) == s;
    assert QueueOk(m.sem[s].queue, m.threads, s);
    SizeMember(m.threads, Ready(s), u);
  }

  lemma UpQueue(m: Mon, t: nat, s: nat, pc: PC, r: nat)
    requires Inv(m)
    requires t < |m.threads| && !m.threads[t].asleep
    requires s < |m.sem| && r < |m.sem|
    ensures var m' := UpStep(m, t, s, pc);
      Sound(m'.sem[r]) && QueueOk(m'.sem[r].queue, m'.threads, r)
  {
    var m' := UpStep(m, t, s, pc);
    var q := m.sem[r].queue;
    var ths := m.threads[t := Thread(pc, false)];
    assert QueueOk(m.sem[s].queue, m.threads, s);
    assert Sound(m.sem[r]) && QueueOk(q, m.threads, r);
    QueueOther(q, m.threads, r, t, Thread(pc, false));
    QueueOther(m.sem[s].queue, m.threads, s, t, Thread(pc, false));
    if m.sem[s].queue != [] {
      var u := m.sem[s].queue[0];
      var th := m'.threads[u];
      assert SleepsOn(ths[u], s);
      hide QueueOk;
      if r == s {
        QueuePop(q, ths, r, th);
      } else {
        QueueOther(q, ths, r, u, th);
      }
    }
  }

  /** Why thread t may give the permit to semaphore s now, going on to pc. */
  predicate MayUp(m: Mon, t: nat, s: nat, pc: PC)
    requires t < |m.threads|
  {
    var th, th' := m.threads[t], Thread(pc, false);
    && In(th, Active)
    && |m.sem| == CvSem(|m.count|) && s < |m.sem|
    && CvOk(pc, |m.count|) && DownOn(pc) >= 0
    && In(th', Signaller) == In(th, Signaller)
    && (forall c :: 0 <= c < |m.count| ==> In(th', Waiter(c)) == In(th, Waiter(c)))
    && (s == MUTEX ==> m.nextCount == 0)
    && (s == NEXT ==> m.nextCount > 0 && !In(th, Signaller))
    && (s > NEXT ==> m.count[s - 2] > 0 && !In(th, Waiter(s - 2)))
  }

  /** Giving the monitor's permit away: to a sleeper, or to the semaphore's value. */
  lemma UpStepInv(m: Mon, t: nat, s: nat, pc: PC)
    requires Inv(m)
    requires t < |m.threads| && MayUp(m, t, s, pc)
    ensures Inv(UpStep(m, t, s, pc))
  {
    hide QueuesOk, CountersOk, TakersOk, KnowledgeOk;
    UpQueues(m, t, s, pc);
    UpCounters(m, t, s, pc);
    UpTakers(m, t, s, pc);
    UpKnowledge(m, t, s, pc);
  }

  lemma UpQueues(m: Mon, t: nat, s: nat, pc: PC)
    requires Inv(m)
    requires t < |m.threads| && MayUp(m, t, s, pc)
    ensures QueuesOk(UpStep(m, t, s, pc))
  {
    hide CountersOk, TakersOk, KnowledgeOk, QueueOk, Sound;
    forall r | 0 <= r < |m.sem|
      ensures var m' := UpStep(m, t, s, pc); Sound(m'.sem[r]) && QueueOk(m'.sem[r].queue, m'.threads, r)
    {
      UpQueue(m, t, s, pc, r);
    }
  }

  lemma UpCounters(m: Mon, t: nat, s: nat, pc: PC)
    requires Inv(m)
    requires t < |m.threads| && MayUp(m, t, s, pc)
    ensures CountersOk(UpStep(m, t, s, pc))
  {
    hide TakersOk, KnowledgeOk, QueuesOk, Size, Values;
    UpSizes(m, t, s, pc);
    PermitsUpdate(m.sem, s, UpStep(m, t, s, pc).sem[s]);
  }

  lemma UpTakers(m: Mon, t: nat, s: nat, pc: PC)
    requires Inv(m)
    requires t < |m.threads| && MayUp(m, t, s, pc)
    ensures TakersOk(UpStep(m, t, s, pc))
  {
    hide KnowledgeOk, QueuesOk, CountersOk, Size, Values;
    ActiveAlone(m, t);
    UpSizes(m, t, s, pc);
    if s != MUTEX && m.sem[s].queue == [] {
      TakerExists(m, t, s);
    }
  }

  lemma UpKnowledge(m: Mon, t: nat, s: nat, pc: PC)
    requires Inv(m)
    requires t < |m.threads| && MayUp(m, t, s, pc)
    ensures KnowledgeOk(UpStep(m, t, s, pc))
    ensures forall u :: 0 <= u < |m.threads| ==> CvOk(UpStep(m, t, s, pc).threads[u].pc, |m.count|)
  {
    hide QueuesOk, CountersOk, TakersOk;
    ActiveAlone(m, t);
    var m' := UpStep(m, t, s, pc);
    forall u | 0 <= u < |m'.threads|
      ensures KnowsCounters(m', m'.threads[u].pc) && CvOk(m'.threads[u].pc, |m.count|)
    {
      assert KnowsCounters(m, m.threads[u].pc) && CvOk(m.threads[u].pc, |m.count|);
    }
  }

  /** What an up does to the groups: the waker leaves the active ones, the woken thread joins them. */
  lemma UpSizes(m: Mon, t: nat, s: nat, pc: PC)
    requires Inv(m)
    requires t < |m.threads| && MayUp(m, t, s, pc)
    ensures var m' := UpStep(m, t, s, pc);
      && Size(m'.threads, Active) == Size(m.threads, Active) - 1 + B(m.sem[s].queue != [])
      && Size(m'.threads, Signaller) == Size(m.threads, Signaller)
      && (forall c :: 0 <= c < |m.count| ==> Size(m'.threads, Waiter(c)) == Size(m.threads, Waiter(c)))
      && (forall r :: 1 <= r < |m.sem| ==> Size(m'.threads, Ready(r)) >= Size(m.threads, Ready(r)))
  {
    hide Size, CountersOk, TakersOk, KnowledgeOk;
    var m' := UpStep(m, t, s, pc);
    var q := m.sem[s].queue;
    var ths := m.threads[t := Thread(pc, false)];
    SizeUpdate(m.threads, t, Thread(pc, false));
    if q != [] {
      assert QueueOk(q, m.threads, s);
      assert SleepsOn(m.threads[q[0]], s) && q[0] != t;
      SizeUpdate(ths, q[0], m'.threads[q[0]]);
    }
  }

  lemma StepFacts(m: Mon, t: nat)
    requires Inv(m)
    requires t < |m.threads|
    ensures Typed(m) && |m.sem| == CvSem(|m.count|)
    ensures CvOk(m.threads[t].pc, |m.count|)
    ensures KnowsCounters(m, m.threads[t].pc)
    ensures m.nextCount >= 0
    ensures forall c :: 0 <= c < |m.count| ==> m.count[c] >= 0
  {
  }

  /** Steps that touch no semaphore. */
  predicate Local(pc: PC) {
    DownOn(pc) < 0 && UpOn(pc) < 0
  }

  /** The semaphore that a thread at this point ups. */
  function UpOn(pc: PC): int {
    match pc
    case SignalUp(c) => CvSem(c)
    case WaitUpNext(_) => NEXT
    case WaitUpMutex(_) => MUTEX
    case LeaveUpNext => NEXT
    case LeaveUpMutex => MUTEX
    case _ => -1
  }

  function AfterUp(pc: PC): PC {
    match pc
    case SignalUp(_) => SignalDown
    case WaitUpNext(c) => WaitDown(c)
    case WaitUpMutex(c) => WaitDown(c)
    case _ => Outside
  }

  lemma LocalInv(m: Mon, t: nat, call: Call)
    requires Inv(m)
    requires t < |m.threads| && !m.threads[t].asleep && Local(m.threads[t].pc)
    requires call.Leave? || call.c < |m.count|
    ensures Inv(Exec(m, t, call))
  {
    hide Inv, Exec;
    var pc := m.threads[t].pc;
    if pc.WaitCount? || pc.WaitTest? || pc.WaitDone? {
      WaitLocalInv(m, t, call);
    } else if pc.SignalTest? || pc.SignalCount? || pc.SignalDone? {
      SignalLocalInv(m, t, call);
    } else {
      EdgeLocalInv(m, t, call);
    }
  }

  lemma WaitLocalInv(m: Mon, t: nat, call: Call)
    requires Inv(m)
    requires t < |m.threads| && !m.threads[t].asleep
    requires call.Leave? || call.c < |m.count|
    requires var pc := m.threads[t].pc; pc.WaitCount? || pc.WaitTest? || pc.WaitDone?
    ensures Inv(Exec(m, t, call))
  {
    hide Inv, DownStep, UpStep, Size, Permits;
    StepFacts(m, t);
    var m' := Exec(m, t, call);
    LocalStepInv(m, m', t, m'.threads[t]);
  }

  lemma SignalLocalInv(m: Mon, t: nat, call: Call)
    requires Inv(m)
    requires t < |m.threads| && !m.threads[t].asleep
    requires call.Leave? || call.c < |m.count|
    requires var pc := m.threads[t].pc; pc.SignalTest? || pc.SignalCount? || pc.SignalDone?
    ensures Inv(Exec(m, t, call))
  {
    hide Inv, DownStep, UpStep, Size, Permits;
    StepFacts(m, t);
    var m' := Exec(m, t, call);
    LocalStepInv(m, m', t, m'.threads[t]);
  }

  lemma EdgeLocalInv(m: Mon, t: nat, call: Call)
    requires Inv(m)
    requires t < |m.threads| && !m.threads[t].asleep
    requires call.Leave? || call.c < |m.count|
    requires var pc := m.threads[t].pc; pc.Body? || pc.LeaveTest?
    ensures Inv(Exec(m, t, call))
  {
    hide Inv, DownStep, UpStep, Size, Permits;
    StepFacts(m, t);
    var m' := Exec(m, t, call);
    LocalStepInv(m, m', t, m'.threads[t]);
  }

  lemma GoDownInv(m: Mon, t: nat, call: Call)
    requires Inv(m)
    requires t < |m.threads| && !m.threads[t].asleep
    requires call.Leave? || call.c < |m.count|
    requires DownOn(m.threads[t].pc) >= 0
    ensures Inv(Exec(m, t, call))
  {
    hide Inv, DownStep, UpStep;
    DownStepInv(m, t);
  }

  lemma UpAllowed(m: Mon, t: nat)
    requires Inv(m)
    requires t < |m.threads| && !m.threads[t].asleep && UpOn(m.threads[t].pc) >= 0
    ensures MayUp(m, t, UpOn(m.threads[t].pc), AfterUp(m.threads[t].pc))
  {
    hide Inv;
    StepFacts(m, t);
  }

  lemma UpInv(m: Mon, t: nat, call: Call)
    requires Inv(m)
    requires t < |m.threads| && !m.threads[t].asleep && UpOn(m.threads[t].pc) >= 0
    requires call.Leave? || call.c < |m.count|
    ensures Inv(Exec(m, t, call))
  {
    hide Inv, UpStep, DownStep, MayUp;
    var pc := m.threads[t].pc;
    StepFacts(m, t);
    UpAllowed(m, t);
    UpStepInv(m, t, UpOn(pc), AfterUp(pc));
  }

  /** Every step of every thread keeps the invariant. */
  lemma StepInv(m: Mon, t: nat, call: Call)
    requires Inv(m)
    requires t < |m.threads| && !m.threads[t].asleep
    requires call.Leave? || call.c < |m.count|
    ensures Inv(Exec(m, t, call))
  {
    hide Inv, Exec;
    var pc := m.threads[t].pc;
    if DownOn(pc) >= 0 {
      GoDownInv(m, t, call);
    } else if UpOn(pc) >= 0 {
      UpInv(m, t, call);
    } else {
      LocalInv(m, t, call);
    }
  }

  lemma {:induction false} RunInv(n: nat, k: nat, run: seq<Mon>, i: nat)
    requires IsRun(n, k, run)
    requires i < |run|
    ensures Inv(run[i])
  {
    hide Inv, Init;
    if i == 0 {
      InitInv(n, k);
    } else {
      RunInv(n, k, run, i - 1);
      var j := i - 1;
      assert Next(run[j], run[j + 1]);
      var t: nat, call: Call :|
        Typed(run[j]) && t < |run[j].threads| && !run[j].threads[t].asleep
        && (call.Leave? || call.c < |run[j].count|) && run[j + 1] == Exec(run[j], t, call);
      StepInv(run[j], t, call);
    }
  }

  // ----- What the invariant gives for every run -----

  /** At most one thread is active in the monitor, and exactly one permit exists: left over or held. */
  lemma OneActiveThread(n: nat, k: nat, run: seq<Mon>, i: nat)
    requires IsRun(n, k, run)
    requires i < |run|
    ensures Permits(run[i]) + Size(run[i].threads, Active) == 1
    ensures forall t, u :: 0 <= t < u < |run[i].threads| ==>
      !(In(run[i].threads[t], Active) && In(run[i].threads[u], Active))
  {
    var m := run[i];
    RunInv(n, k, run, i);
    forall t, u | 0 <= t < u < |m.threads| && In(m.threads[t], Active) && In(m.threads[u], Active)
      ensures false
    {
      ActiveAlone(m, t);
    }
  }

  /** next_count and every cv.count count the suspended signallers and waiters, so they never wrap. */
  lemma CountersExact(n: nat, k: nat, run: seq<Mon>, i: nat)
    requires IsRun(n, k, run)
    requires i < |run|
    ensures run[i].nextCount == Size(run[i].threads, Signaller) <= |run[i].threads|
    ensures forall c :: 0 <= c < |run[i].count| ==>
      run[i].count[c] == Size(run[i].threads, Waiter(c)) <= |run[i].threads|
  {
    RunInv(n, k, run, i);
  }

  /** The mutex is never free, and never about to be freed, while a signaller is suspended. */
  lemma MutexWaitsForSignallers(n: nat, k: nat, run: seq<Mon>, i: nat, t: nat)
    requires IsRun(n, k, run)
    requires i < |run| && t < |run[i].threads|
    requires run[i].threads[t].pc.SignalDown?
    ensures |run[i].sem| >= 2
    ensures run[i].sem[MUTEX].value == 0
    ensures forall u :: 0 <= u < |run[i].threads| ==>
      !run[i].threads[u].pc.LeaveUpMutex? && !run[i].threads[u].pc.WaitUpMutex?
  {
    var m := run[i];
    RunInv(n, k, run, i);
    SizeMember(m.threads, Signaller, t);
    forall u | 0 <= u < |m.threads|
      ensures !m.threads[u].pc.LeaveUpMutex? && !m.threads[u].pc.WaitUpMutex?
    {
      assert KnowsCounters(m, m.threads[u].pc);
    }
  }

  /** Semaphore s holds the permit and thread t, awake, is about to go down on it. */
  ghost predicate PermitFor(m: Mon, t: nat, s: nat) {
    t < |m.threads| && s < |m.sem| && m.sem[s].value == 1 && In(m.threads[t], Ready(s))
  }

  /**
   The monitor's permit is never stranded: the mutex is free, or a thread is active, or the
   permit sits in a semaphore that some awake thread is about to go down on.
   */
  lemma PermitNeverStranded(n: nat, k: nat, run: seq<Mon>, i: nat)
    requires IsRun(n, k, run)
    requires i < |run|
    ensures |run[i].sem| >= 2
    ensures
      || run[i].sem[MUTEX].value == 1
      || (exists t :: 0 <= t < |run[i].threads| && In(run[i].threads[t], Active))
      || (exists t, s :: PermitFor(run[i], t, s))
  {
    var m := run[i];
    RunInv(n, k, run, i);
    if Size(m.threads, Active) > 0 {
      var t := SizeWitness(m.threads, Active);
    } else {
      var s := SumPositive(Values(m.sem));
      PermitsAtLeast(m, s);
      if s != MUTEX {
        var t := SizeWitness(m.threads, Ready(s));
        assert PermitFor(m, t, s);
      }
    }
  }

  /** Thread u is the only one active, back from its wait on c, and no permit is left over. */
  ghost predicate Resumed(m: Mon, u: nat, c: nat) {
    && u < |m.threads| && m.threads[u] == Thread(WaitDone(c), false)
    && (forall v :: 0 <= v < |m.threads| && v != u ==> !In(m.threads[v], Active))
    && (forall s :: 0 <= s < |m.sem| ==> m.sem[s].value == 0)
  }

  /** Nobody is active, and the permit is in c's semaphore for thread u, which is about to down it. */
  ghost predicate InFlight(m: Mon, u: nat, c: nat) {
    && u < |m.threads| && m.threads[u] == Thread(WaitDown(c), false)
    && (forall v :: 0 <= v < |m.threads| ==> !In(m.threads[v], Active))
    && (forall s :: 0 <= s < |m.sem| ==> m.sem[s].value == if s == CvSem(c) then 1 else 0)
  }

  lemma UpResumes(m: Mon, t: nat, c: nat)
    requires Inv(m)
    requires t < |m.threads| && m.threads[t] == Thread(SignalUp(c), false)
    requires c < |m.count| && m.sem[CvSem(c)].queue != []
    ensures Resumed(UpStep(m, t, CvSem(c), SignalDown), m.sem[CvSem(c)].queue[0], c)
  {
    hide Inv;
    StepFacts(m, t);
    SleeperWaits(m, CvSem(c));
    ActiveAlone(m, t);
  }

  lemma SleeperWaits(m: Mon, s: nat)
    requires Inv(m)
    requires s < |m.sem| && m.sem[s].queue != []
    ensures m.sem[s].queue[0] < |m.threads| && SleepsOn(m.threads[m.sem[s].queue[0]], s)
  {
    assert QueueOk(m.sem[s].queue, m.threads, s);
  }

  lemma UpTaker(m: Mon, t: nat, c: nat) returns (u: nat)
    requires Inv(m)
    requires t < |m.threads| && m.threads[t] == Thread(SignalUp(c), false)
    requires c < |m.count| && m.sem[CvSem(c)].queue == []
    ensures InFlight(UpStep(m, t, CvSem(c), SignalDown), u, c)
  {
    hide Inv, Size, Permits, Flags;
    StepFacts(m, t);
    ActiveAlone(m, t);
    TakerExists(m, t, CvSem(c));
    u := SizeWitness(m.threads, Ready(CvSem(c)));
    assert m.threads[u] == Thread(WaitDown(c), false);
  }

  /**
   Hoare's hand-over: when a signaller ups the condition variable's semaphore, the permit
   goes to a waiter on that variable, now or as soon as the waiter reaches its down. Nobody
   else is active and no other semaphore holds a permit, so nobody can slip in between.
   */
  lemma SignalHandsOver(m: Mon, t: nat, call: Call, c: nat)
    requires Inv(m)
    requires t < |m.threads| && m.threads[t] == Thread(SignalUp(c), false)
    requires call.Leave? || call.c < |m.count|
    ensures exists u :: Resumed(Exec(m, t, call), u, c) || InFlight(Exec(m, t, call), u, c)
  {
    StepFacts(m, t);
    hide Inv, UpStep, Resumed, InFlight;
    if m.sem[CvSem(c)].queue == [] {
      var u := UpTaker(m, t, c);
      assert InFlight(Exec(m, t, call), u, c);
    } else {
      UpResumes(m, t, c);
      assert Resumed(Exec(m, t, call), m.sem[CvSem(c)].queue[0], c);
    }
  }
}
