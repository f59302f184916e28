/**
 Counting semaphores with a FIFO wait queue. `up` hands its permit straight to the
 first waiter when there is one; `down` sleeps when there is no permit.

 A semaphore operation runs with interrupts disabled, so each is one atomic step.
 `down` is two of them: before and after the switch to another process.
 */
module Semaphores {
  import opened Process

  /** The value of a semaphore and the processes asleep on it, first come first. */
  datatype Sem = Sem(value: int, queue: seq<nat>)

  function Upped(s: Sem): Sem {
    if s.queue == [] then s.(value := s.value + 1) else s.(queue := s.queue[1..])
  }

  function Downed(s: Sem, t: nat): Sem {
    if s.value > 0 then s.(value := s.value - 1) else s.(queue := s.queue + [t])
  }

  /** What every operation keeps: permits are left over only while nobody waits. */
  predicate Sound(s: Sem) {
    s.value >= 0 && (s.value > 0 ==> s.queue == [])
  }

  datatype Op = Up | Down(t: nat)

  function Apply(s: Sem, op: Op): Sem {
    match op
    case Up => Upped(s)
    case Down(t) => Downed(s, t)
  }

  function Run(s: Sem, ops: seq<Op>): Sem
    decreases |ops|
  {
    if ops == [] then s else Run(Apply(s, ops[0]), ops[1..])
  }

  function Ups(ops: seq<Op>): nat {
    if ops == [] then 0 else Ups(ops[1..]) + if ops[0].Up? then 1 else 0
  }

  /** The processes that come down in a run, in order. */
  function Downs(ops: seq<Op>): seq<nat> {
    if ops == [] then []
    else if ops[0].Down? then [ops[0].t] + Downs(ops[1..])
    else Downs(ops[1..])
  }

  /** Permits are conserved: what is left over less what is owed counts the ups less the downs. */
  lemma {:induction false} PermitsConserved(s: Sem, ops: seq<Op>)
    requires Sound(s)
    ensures Sound(Run(s, ops))
    ensures Run(s, ops).value - |Run(s, ops).queue| == s.value - |s.queue| + Ups(ops) - |Downs(ops)|
    decreases |ops|
  {
    if ops != [] {
      PermitsConserved(Apply(s, ops[0]), ops[1..]);
    }
  }

  /**
   Waiters are never overtaken: as long as a run of operations has no more ups than there
   were waiters, exactly the first Ups(ops) of them have been woken, the others keep their
   order, and everyone who came later queues behind them.
   */
  lemma {:induction false} WaitersServedInOrder(s: Sem, ops: seq<Op>)
    requires s.value == 0
    requires Ups(ops) <= |s.queue|
    ensures Run(s, ops) == Sem(0, s.queue[Ups(ops)..] + Downs(ops))
    decreases |ops|
  {
    if ops == [] {
      assert s.queue[0..] + [] == s.queue;
    } else {
      var k, later := Ups(ops), Downs(ops[1..]);
      match ops[0] {
        case Up =>
          var s' := Sem(0, s.queue[1..]);
          WaitersServedInOrder(s', ops[1..]);
          assert s'.queue[k - 1..] == s.queue[k..];
        case Down(t) =>
          var s' := Sem(0, s.queue + [t]);
          WaitersServedInOrder(s', ops[1..]);
          assert s'.queue[k..] + later == s.queue[k..] + ([t] + later);
      }
    }
  }

  // ----- The implementation -----

  const WT_KSEM: nat := 0x100
  const WT_INTERRUPTED: nat := 0x8000_0000

  /** One process's entry in a wait queue. */
  class Wait {
    const proc: Proc
    var wakeupFlags: nat

    constructor (proc: Proc)
      ensures this.proc == proc && wakeupFlags == WT_INTERRUPTED
    {
      this.proc := proc;
      wakeupFlags := WT_INTERRUPTED;
    }
  }

  function Procs(waits: seq<Wait>): set<Proc> {
    set w | w in waits :: w.proc
  }

  function Pids(waits: seq<Wait>): seq<nat> {
    seq(|waits|, (i: nat) requires i < |waits| => waits[i].proc.pid)
  }

  function Unlinked(waits: seq<Wait>, wait: Wait): seq<Wait> {
    if waits == [] then []
    else if waits[0] == wait then waits[1..]
    else [waits[0]] + Unlinked(waits[1..], wait)
  }

  lemma {:induction false} UnlinkedAway(waits: seq<Wait>, wait: Wait)
    requires forall i, j :: 0 <= i < j < |waits| ==> waits[i] != waits[j]
    ensures wait !in Unlinked(waits, wait)
    ensures wait !in waits ==> Unlinked(waits, wait) == waits
  {
    if waits != [] && waits[0] != wait {
      UnlinkedAway(waits[1..], wait);
    }
  }

  class Semaphore {
    var value: int
    var waitQueue: seq<Wait>

    /** Everyone in the queue is a different process, asleep on a semaphore and not yet woken. */
    ghost predicate Valid()
      reads this, waitQueue, Procs(waitQueue)
    {
      && Sound(State())
      && (forall i, j :: 0 <= i < j < |waitQueue| ==> waitQueue[i].proc != waitQueue[j].proc)
      && (forall w :: w in waitQueue ==>
          w.proc.state == SLEEPING && w.proc.waitState == WT_KSEM && w.wakeupFlags == WT_INTERRUPTED)
    }

    ghost function State(): Sem
      reads this
    {
      Sem(value, Pids(waitQueue))
    }

    constructor (value: nat)
      ensures Valid()
      ensures State() == Sem(value, [])
    {
      this.value := value;
      waitQueue := [];
    }

    /** `up`: the permit goes to the first waiter, who becomes runnable, or else to the value. */
    method Up()
      requires Valid()
      modifies this, waitQueue, Procs(waitQueue)
      ensures Valid()
      ensures State() == Upped(old(State()))
      ensures old(waitQueue) == [] ==> waitQueue == []
      ensures old(waitQueue) != [] ==>
          var w := old(waitQueue)[0];
          && waitQueue == old(waitQueue)[1..]
          && w.wakeupFlags == WT_KSEM && w.proc.state == RUNNABLE && w.proc.waitState == 0
    {
      if waitQueue == [] {
        value := value + 1;
      } else {
        var wait := waitQueue[0];
        assert Pids(waitQueue)[1..] == Pids(waitQueue[1..]);
        waitQueue := waitQueue[1..];
        wait.wakeupFlags := WT_KSEM;
        wait.proc.state := RUNNABLE;
        wait.proc.waitState := 0;
        assert forall w :: w in waitQueue ==> w != wait && w.proc != wait.proc;
      }
    }

    /** The first part of `down`: take a permit, or fall asleep at the end of the queue. */
    method DownEnter(current: Proc) returns (wait: Wait?)
      requires Valid()
      requires current.state == RUNNABLE
      modifies this, current
      ensures Valid()
      ensures State() == Downed(old(State()), current.pid)
      ensures wait == null <==> old(value) > 0
      ensures wait == null ==> waitQueue == old(waitQueue) && current.state == RUNNABLE
      ensures wait != null ==> fresh(wait) && wait.proc == current && waitQueue == old(waitQueue) + [wait]
    {
      assert forall w :: w in waitQueue ==> w.proc != current;
      if value > 0 {
        value := value - 1;
        return null;
      }
      wait := new Wait(current);
      current.state := SLEEPING;
      current.waitState := WT_KSEM;
      waitQueue := waitQueue + [wait];
      assert Pids(waitQueue) == Pids(old(waitQueue)) + [current.pid];
    }

    /**
     The last part of `down`, run when the process is scheduled again: unlink the entry if
     it is still queued, and report 0 exactly when it was `up` that woke the process.
     */
    method DownResume(wait: Wait) returns (flags: nat)
      requires forall i, j :: 0 <= i < j < |waitQueue| ==> waitQueue[i] != waitQueue[j]
      modifies this`waitQueue
      ensures waitQueue == Unlinked(old(waitQueue), wait)
      ensures wait !in waitQueue
      ensures flags == if wait.wakeupFlags == WT_KSEM then 0 else wait.wakeupFlags
    {
      UnlinkedAway(waitQueue, wait);
      if wait in waitQueue {
        waitQueue := Unlinked(waitQueue, wait);
      }
      if wait.wakeupFlags != WT_KSEM {
        return wait.wakeupFlags;
      }
      return 0;
    }

    /** `try_down`: take a permit if there is one, and never sleep. */
    method TryDown() returns (ret: bool)
      requires Valid()
      modifies this
      ensures Valid()
      ensures waitQueue == old(waitQueue)
      ensures ret == (old(value) > 0)
      ensures value == old(value) - if ret then 1 else 0
    {
      ret := false;
      if value > 0 {
        value := value - 1;
        ret := true;
      }
    }
  }
}
