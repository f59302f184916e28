/**
 The dining philosophers in a monitor: one condition variable per philosopher. Philosopher
 i is thread i of the monitor; `plan` is how far its routine has come, and the monitor's
 program counter says where it is inside the entry, exit, signal and wait code.
 */
module PhilosophersMonitor {
  import opened Counting
  import opened Options
  import opened Semaphores
  import opened Table
  import M = Monitors

  datatype Plan =
    | Thinking               // next in the body: state[i] = HUNGRY
    | TakeTest               // the condition of phi_test(i)
    | TakeEat                //   state[i] = EATING, cond_signal(cv[i])
    | TakeLoop               // while state[i] != EATING, cond_wait(cv[i])
    | Eating                 // next in the body: state[i] = THINKING
    | PutTest(who: Target)   // the condition of phi_test on a neighbour
    | PutEat(who: Target)    //   state[who] = EATING, cond_signal(cv[who])
    | PutDone                // leave
    | Quit

  /** waits[i] counts the cond_wait calls of philosopher i's current or last take. */
  datatype Room = Room(m: M.Mon, state: seq<State>, plan: seq<Plan>, waits: seq<nat>)

  predicate Shaped(r: Room) {
    && |r.m.threads| >= 2
    && M.Typed(r.m)
    && |r.m.count| == |r.state| == |r.plan| == |r.waits| == |r.m.threads|
  }

  function AfterTest(who: Target): Plan {
    match who
    case Me => TakeLoop
    case LeftOne => PutTest(RightOne)
    case RightOne => PutDone
  }

  /** What one step in the body of a routine does: new states, plan and wait count, perhaps a monitor call. */
  datatype Move = Move(state: seq<State>, plan: Plan, waits: nat, call: Option<M.Call>)

  /** The next step of philosopher t in the body of phi_take_forks or phi_put_forks. */
  function Routine(state: seq<State>, t: nat, plan: Plan, waits: nat): (mv: Move)
    requires t < |state|
    ensures |mv.state| == |state|
    ensures mv.call.Some? && !mv.call.value.Leave? ==> mv.call.value.c < |state|
  {
    match plan
    case Thinking => Move(state[t := HUNGRY], TakeTest, 0, None)
    case TakeTest => Move(state, if MayEat(state, t) then TakeEat else TakeLoop, waits, None)
    case TakeEat => Move(state[t := EATING], TakeLoop, waits, Some(M.Signal(t)))
    case TakeLoop =>
      if state[t] == EATING then Move(state, Eating, waits, Some(M.Leave))
      else Move(state, TakeLoop, waits + 1, Some(M.Wait(t)))
    case Eating => Move(state[t := THINKING], PutTest(LeftOne), waits, None)
    case PutTest(who) =>
      Move(state, if MayEat(state, Who(|state|, t, who)) then PutEat(who) else AfterTest(who), waits, None)
    case PutEat(who) =>
      var e := Who(|state|, t, who);
      Move(state[e := EATING], AfterTest(who), waits, Some(M.Signal(e)))
    case PutDone => Move(state, Thinking, waits, Some(M.Leave))
    case Quit => Move(state, Quit, waits, None)
  }

  /** One step of philosopher t in the body of its routine. */
  function BodyStep(r: Room, t: nat): Room
    requires Shaped(r) && t < |r.plan|
  {
    var mv := Routine(r.state, t, r.plan[t], r.waits[t]);
    Room(if mv.call.None? then r.m else M.Exec(r.m, t, mv.call.value),
         mv.state, r.plan[t := mv.plan], r.waits[t := mv.waits])
  }

  /** One step of philosopher t; `quit` lets it stop after any number of meals. */
  function Step(r: Room, t: nat, quit: bool): Room
    requires Shaped(r) && t < |r.plan|
  {
    if r.plan[t].Quit? then r
    else if r.m.threads[t].pc.Body? then BodyStep(r, t)
    else if quit && r.m.threads[t].pc.Outside? && r.plan[t].Thinking? then r.(plan := r.plan[t := Quit])
    else r.(m := M.Exec(r.m, t, M.Leave))
  }

  function Init(n: nat): Room {
    Room(M.Init(n, n), seq(n, _ => THINKING), seq(n, _ => Thinking), seq(n, _ => 0))
  }

  ghost predicate Next(r: Room, r': Room) {
    exists t: nat, quit: bool ::
      Shaped(r) && t < |r.plan| && !r.m.threads[t].asleep && r' == Step(r, t, quit)
  }

  ghost predicate IsRun(n: nat, run: seq<Room>) {
    && n >= 2
    && run != []
    && run[0] == Init(n)
    && forall i :: 0 <= i < |run| - 1 ==> Next(run[i], run[i + 1])
  }

  // ----- The invariant -----

  /** At cond_signal's test or between it and the up: c is about to be signalled. */
  predicate Signalling(pc: M.PC, c: nat) {
    pc == M.SignalTest(c) || pc == M.SignalCount(c) || pc == M.SignalUp(c)
  }

  predicate InSignal(pc: M.PC, c: nat) {
    Signalling(pc, c) || pc.SignalDown? || pc.SignalDone?
  }

  predicate AtEdge(pc: M.PC) {
    pc.Outside? || pc.Body? || pc.LeaveTest? || pc.LeaveUpNext? || pc.LeaveUpMutex?
  }

  /** What philosopher i's plan, program counter and state have to do with each other. */
  predicate Own(state: seq<State>, i: nat, plan: Plan, th: M.Thread, waits: nat)
    requires i < |state|
  {
    match plan
    case Thinking => AtEdge(th.pc) && state[i] == THINKING
    case TakeTest => th.pc.Body? && state[i] == HUNGRY && waits == 0
    case TakeEat => th.pc.Body? && MayEat(state, i) && waits == 0
    case TakeLoop =>
      waits <= 1 &&
      (match th.pc
       case Body => if state[i] == HUNGRY then waits == 0 else state[i] == EATING
       case SignalTest(c) => c == i && state[i] == EATING
       case WaitCount(c) => c == i && state[i] == HUNGRY
       case WaitTest(c) => c == i && state[i] == HUNGRY
       case WaitUpNext(c) => c == i && state[i] == HUNGRY
       case WaitUpMutex(c) => c == i && state[i] == HUNGRY
       case WaitDown(c) => c == i && state[i] != THINKING
       case WaitDone(c) => c == i && state[i] == EATING
       case _ => false)
    case Eating => AtEdge(th.pc) && state[i] == EATING && waits <= 1
    case PutTest(who) =>
      && state[i] == THINKING
      && (th.pc.Body? || (who.RightOne? && InSignal(th.pc, Left(|state|, i)))) && !who.Me?
    case PutEat(who) => th.pc.Body? && state[i] == THINKING && MayEat(state, Who(|state|, i, who)) && !who.Me?
    case PutDone => state[i] == THINKING && (th.pc.Body? || InSignal(th.pc, Right(|state|, i)))
    case Quit => th == M.Thread(M.Outside, false) && state[i] == THINKING
  }

  /** A philosopher that is being signalled by another is eating already, and is there to take it. */
  predicate SignalsWaiter(r: Room, h: nat)
    requires Shaped(r) && h < |r.plan|
  {
    forall c :: 0 <= c < |r.plan| && c != h && Signalling(r.m.threads[h].pc, c) ==>
      r.state[c] == EATING && r.m.threads[c].pc == M.WaitDown(c)
  }

  /** A permit in philosopher j's condition variable is there because j may eat. */
  predicate PermitMeansEating(r: Room, j: nat)
    requires Shaped(r) && j < |r.plan|
  {
    r.m.sem[M.CvSem(j)].value > 0 ==> r.state[j] == EATING
  }

  /** A waiter whose state is EATING has its wake-up on the way. */
  ghost predicate WakeupComing(r: Room, j: nat)
    requires Shaped(r) && j < |r.plan|
  {
    r.m.threads[j].pc == M.WaitDown(j) && r.state[j] == EATING ==>
      || r.m.sem[M.CvSem(j)].value == 1
      || exists h :: 0 <= h < |r.plan| && Signalling(r.m.threads[h].pc, j)
  }

  /** Philosopher h is still going to test philosopher j before it leaves the monitor. */
  predicate WillTest(n: nat, h: nat, plan: Plan, j: nat)
    requires h < n
  {
    match plan
    case TakeTest => h == j
    case TakeEat => h == j
    case PutTest(who) => Who(n, h, who) == j || (who.LeftOne? && Right(n, h) == j)
    case PutEat(who) => Who(n, h, who) == j || (who.LeftOne? && Right(n, h) == j)
    case _ => false
  }

  ghost predicate Noticed(r: Room, j: nat)
    requires Shaped(r) && j < |r.plan|
  {
    MayEat(r.state, j) ==> exists h :: 0 <= h < |r.plan| && WillTest(|r.plan|, h, r.plan[h], j)
  }

  ghost predicate Knows(r: Room, i: nat)
    requires Shaped(r) && i < |r.plan|
  {
    && Own(r.state, i, r.plan[i], r.m.threads[i], r.waits[i])
    && SignalsWaiter(r, i)
    && PermitMeansEating(r, i)
    && WakeupComing(r, i)
    && Noticed(r, i)
  }

  ghost predicate Inv(r: Room) {
    && Shaped(r)
    && M.Inv(r.m)
    && Peaceful(r.state)
    && (forall i :: 0 <= i < |r.plan| ==> Knows(r, i))
  }

  lemma InitInv(n: nat)
    requires n >= 2
    ensures Inv(Init(n))
  {
    hide M.Inv;
    M.InitInv(n, n);
  }

  // ----- Facts about the philosopher that is active -----

  lemma InvShaped(r: Room)
    requires Inv(r)
    ensures Shaped(r) && M.Inv(r.m) && Peaceful(r.state)
  {
  }

  lemma KnowsOf(r: Room, i: nat)
    requires Inv(r)
    requires i < |r.plan|
    ensures Shaped(r) && M.Inv(r.m) && Peaceful(r.state) && Knows(r, i)
  {
  }

  /** Away from the monitor's code: at a down, awake or asleep. */
  predicate Away(pc: M.PC) {
    M.DownOn(pc) >= 0
  }

  lemma OnlyActive(r: Room, t: nat)
    requires Shaped(r) && M.Inv(r.m)
    requires t < |r.plan| && M.In(r.m.threads[t], M.Active)
    ensures forall u :: 0 <= u < |r.plan| && u != t ==> Away(r.m.threads[u].pc)
    ensures forall s :: 0 <= s < |r.m.sem| ==> r.m.sem[s].value == 0
  {
    hide M.Inv;
    M.ActiveAlone(r.m, t);
    AsleepAway(r.m);
  }

  lemma AsleepAway(m: M.Mon)
    requires M.Inv(m)
    ensures forall u :: 0 <= u < |m.threads| && m.threads[u].asleep ==> Away(m.threads[u].pc)
  {
  }

  /** A hungry philosopher that is not active is waiting on its condition variable. */
  lemma HungryWaits(r: Room, t: nat, j: nat)
    requires Inv(r)
    requires t < |r.plan| && M.In(r.m.threads[t], M.Active)
    requires j < |r.plan| && j != t && r.state[j] == HUNGRY
    ensures r.plan[j] == TakeLoop && r.m.threads[j].pc == M.WaitDown(j)
  {
    hide M.Typed, WakeupComing, Noticed, SignalsWaiter;
    hide Inv, M.Inv;
    KnowsOf(r, j);
    OnlyActive(r, t);
  }

  /** Only philosopher c ever waits on condition variable c, so its count is 0 or 1. */
  lemma CountIsOwn(r: Room, c: nat)
    requires Inv(r)
    requires c < |r.plan|
    ensures r.m.count[c] == B(M.In(r.m.threads[c], M.Waiter(c)))
  {
    hide Inv, M.Inv;
    InvShaped(r);
    CountOf(r.m, c);
    var flags := M.Flags(r.m.threads, M.Waiter(c));
    forall u | 0 <= u < |flags| && u != c
      ensures !flags[u]
    {
      KnowsOf(r, u);
    }
    hide Own, M.Typed;
    CountUpdate(flags, c, false);
    CountNone(flags[c := false]);
  }

  lemma CountOf(m: M.Mon, c: nat)
    requires M.Inv(m)
    requires c < |m.count|
    ensures m.count[c] == M.Size(m.threads, M.Waiter(c))
  {
  }

  // ----- Steps of the active philosopher -----

  /** Philosophers away from the monitor's code know only about their own state. */
  lemma OwnAway(state: seq<State>, state': seq<State>, u: nat, plan: Plan, th: M.Thread, waits: nat)
    requires u < |state| == |state'|
    requires Own(state, u, plan, th, waits) && Away(th.pc)
    requires state'[u] == state[u] || (state[u] == HUNGRY && state'[u] == EATING)
    ensures Own(state', u, plan, th, waits)
  {
  }

  /** The active philosopher stays active and changes nothing of the others but their states. */
  ghost predicate ActiveFrame(r: Room, r': Room, t: nat) {
    && Shaped(r) && Shaped(r')
    && t < |r.plan| == |r'.plan|
    && M.In(r.m.threads[t], M.Active) && M.In(r'.m.threads[t], M.Active)
    && M.Inv(r'.m)
    && r'.m.sem == r.m.sem
    && (forall u :: 0 <= u < |r.plan| && u != t ==>
        r'.m.threads[u] == r.m.threads[u] && r'.plan[u] == r.plan[u] && r'.waits[u] == r.waits[u])
  }

  /**
   A move of philosopher t from (state, plan, pc) to (state', plan', pc'): it may change its own
   state, and that of a hungry philosopher which it lets eat and is about to signal; and it
   forgets to test nobody.
   */
  ghost predicate Meaning(state: seq<State>, state': seq<State>, t: nat, plan: Plan, pc: M.PC,
                          plan': Plan, pc': M.PC, waits': nat)
    requires t < |state| == |state'|
  {
    && Peaceful(state')
    && Own(state', t, plan', M.Thread(pc', false), waits')
    && (forall u :: 0 <= u < |state| && u != t && state'[u] != state[u] ==>
        state[u] == HUNGRY && state'[u] == EATING && Signalling(pc', u))
    && (forall c :: 0 <= c < |state| && c != t && Signalling(pc, c) ==> Signalling(pc', c) && state'[c] == state[c])
    && (forall c :: 0 <= c < |state| && c != t && Signalling(pc', c) ==>
        state'[c] == EATING && (Signalling(pc, c) || state[c] == HUNGRY))
    && (forall j :: 0 <= j < |state| && MayEat(state', j) ==>
        || WillTest(|state|, t, plan', j)
        || (MayEat(state, j) && !WillTest(|state|, t, plan, j)))
  }

  ghost predicate ActiveMove(r: Room, r': Room, t: nat) {
    && ActiveFrame(r, r', t)
    && Meaning(r.state, r'.state, t, r.plan[t], r.m.threads[t].pc, r'.plan[t], r'.m.threads[t].pc, r'.waits[t])
  }

  lemma ActiveMoveOwn(r: Room, r': Room, t: nat)
    requires Inv(r) && ActiveMove(r, r', t)
    ensures forall i :: 0 <= i < |r.plan| ==> Own(r'.state, i, r'.plan[i], r'.m.threads[i], r'.waits[i])
  {
    OnlyActive(r, t);
    hide Own, M.Inv, Peaceful, Noticed, WillTest, MayEat;
    forall i | 0 <= i < |r.plan|
      ensures Own(r'.state, i, r'.plan[i], r'.m.threads[i], r'.waits[i])
    {
      if i != t {
        KnowsOf(r, i);
        OwnAway(r.state, r'.state, i, r.plan[i], r.m.threads[i], r.waits[i]);
      }
    }
  }

  /** Whoever the active philosopher is about to signal is waiting. */
  lemma SignalledWaits(r: Room, r': Room, t: nat, c: nat)
    requires Inv(r) && ActiveMove(r, r', t)
    requires c < |r.plan| && c != t && Signalling(r'.m.threads[t].pc, c)
    ensures r'.state[c] == EATING && r'.m.threads[c].pc == M.WaitDown(c)
  {
    KnowsOf(r, t);
    hide WillTest, MayEat, Own, Peaceful, M.Inv;
    if !Signalling(r.m.threads[t].pc, c) {
      HungryWaits(r, t, c);
    }
  }

  lemma AwaySignalsNobody(r: Room, h: nat)
    requires Shaped(r)
    requires h < |r.plan| && Away(r.m.threads[h].pc)
    ensures SignalsWaiter(r, h)
  {
    hide M.Typed;
  }

  lemma ActiveMoveSignals(r: Room, r': Room, t: nat, h: nat)
    requires Inv(r) && ActiveMove(r, r', t)
    requires h < |r.plan|
    ensures SignalsWaiter(r', h)
  {
    hide Inv, M.Inv;
    KnowsOf(r, t);
    OnlyActive(r', t);
    forall c | 0 <= c < |r.plan| && c != t && Signalling(r'.m.threads[t].pc, c)
      ensures r'.state[c] == EATING && r'.m.threads[c].pc == M.WaitDown(c)
    {
      SignalledWaits(r, r', t, c);
    }
    if h != t {
      AwaySignalsNobody(r', h);
    }
  }

  lemma ActiveMovePermits(r: Room, r': Room, t: nat, j: nat)
    requires Inv(r) && ActiveMove(r, r', t)
    requires j < |r.plan|
    ensures PermitMeansEating(r', j)
  {
    hide Inv, M.Inv;
    KnowsOf(r, t);
    OnlyActive(r', t);
    SemsShaped(r');
  }

  lemma SemsShaped(r: Room)
    requires Shaped(r)
    ensures |r.m.sem| == M.CvSem(|r.plan|)
  {
  }

  lemma KeepWakeup(r: Room, r': Room, t: nat, j: nat)
    requires Shaped(r) && Shaped(r')
    requires |r'.plan| == |r.plan| && t < |r.plan| && j < |r.plan|
    requires forall u :: 0 <= u < |r.plan| && u != t ==> Away(r.m.threads[u].pc)
    requires |r.m.sem| == M.CvSem(|r.plan|) && r.m.sem[M.CvSem(j)].value == 0
    requires WakeupComing(r, j)
    requires j != t ==> r'.m.threads[j] == r.m.threads[j]
    requires r'.state[j] != r.state[j] && j != t ==> Signalling(r'.m.threads[t].pc, j)
    requires Signalling(r.m.threads[t].pc, j) && j != t ==> Signalling(r'.m.threads[t].pc, j)
    requires !r'.m.threads[t].pc.WaitDown?
    ensures WakeupComing(r', j)
  {
    hide M.Typed;
    if r'.m.threads[j].pc == M.WaitDown(j) && r'.state[j] == EATING && r.state[j] == EATING {
      SignalledBy(r, t, j);
    }
  }

  lemma ActiveMoveWakeups(r: Room, r': Room, t: nat, j: nat)
    requires Inv(r) && ActiveMove(r, r', t)
    requires j < |r.plan|
    ensures WakeupComing(r', j)
  {
    hide Inv, M.Inv, Peaceful;
    KnowsOf(r, t);
    OnlyActive(r, t);
    KnowsOf(r, j);
    SemsShaped(r);
    KeepWakeup(r, r', t, j);
  }

  lemma ActiveMoveNoticed(r: Room, r': Room, t: nat)
    requires Inv(r) && ActiveMove(r, r', t)
    ensures forall j :: 0 <= j < |r.plan| ==> Noticed(r', j)
  {
    hide M.Inv, Peaceful, Own, SignalsWaiter, WillTest, MayEat, PermitMeansEating, WakeupComing;
    forall j | 0 <= j < |r.plan|
      ensures Noticed(r', j)
    {
      KnowsOf(r, j);
    }
  }

  lemma ActiveMoveInv(r: Room, r': Room, t: nat)
    requires Inv(r) && ActiveMove(r, r', t)
    ensures Inv(r')
  {
    hide M.Inv, Peaceful, Own, SignalsWaiter, WillTest, MayEat, PermitMeansEating, WakeupComing, Noticed;
    ActiveMoveOwn(r, r', t);
    ActiveMoveNoticed(r, r', t);
    forall j | 0 <= j < |r.plan|
      ensures Knows(r', j)
    {
      ActiveMoveSignals(r, r', t, j);
      ActiveMovePermits(r, r', t, j);
      ActiveMoveWakeups(r, r', t, j);
    }
  }

  /** Where a monitor call takes a thread that is in the body. */
  function CallPc(call: Option<M.Call>): M.PC {
    match call
    case None => M.Body
    case Some(Signal(c)) => M.SignalTest(c)
    case Some(Wait(c)) => M.WaitCount(c)
    case Some(Leave) => M.LeaveTest
  }

  lemma StateMeaning(state: seq<State>, t: nat, plan: Plan, waits: nat)
    requires 2 <= |state| && t < |state|
    requires Peaceful(state)
    requires Own(state, t, plan, M.Thread(M.Body, false), waits)
    requires plan.Thinking? || plan.Eating?
    ensures var mv := Routine(state, t, plan, waits);
      Meaning(state, mv.state, t, plan, M.Body, mv.plan, CallPc(mv.call), mv.waits)
  {
    if !plan.Thinking? {
      StopEating(state, t);
    }
    hide Peaceful;
  }

  lemma TestMeaning(state: seq<State>, t: nat, plan: Plan, waits: nat)
    requires 2 <= |state| && t < |state|
    requires Peaceful(state)
    requires Own(state, t, plan, M.Thread(M.Body, false), waits)
    requires plan.TakeTest? || plan.PutTest?
    ensures var mv := Routine(state, t, plan, waits);
      Meaning(state, mv.state, t, plan, M.Body, mv.plan, CallPc(mv.call), mv.waits)
  {
    hide Peaceful;
  }

  lemma TakeEatMeaning(state: seq<State>, t: nat, plan: Plan, waits: nat)
    requires 2 <= |state| && t < |state|
    requires Peaceful(state)
    requires Own(state, t, plan, M.Thread(M.Body, false), waits)
    requires plan.TakeEat?
    ensures var mv := Routine(state, t, plan, waits);
      Meaning(state, mv.state, t, plan, M.Body, mv.plan, CallPc(mv.call), mv.waits)
  {
    hide Peaceful;
    StartEating(state, t);
  }

  lemma PutEatMeaning(state: seq<State>, t: nat, plan: Plan, waits: nat)
    requires 2 <= |state| && t < |state|
    requires Peaceful(state)
    requires Own(state, t, plan, M.Thread(M.Body, false), waits)
    requires plan.PutEat?
    ensures var mv := Routine(state, t, plan, waits);
      Meaning(state, mv.state, t, plan, M.Body, mv.plan, CallPc(mv.call), mv.waits)
  {
    hide Peaceful;
    StartEating(state, Who(|state|, t, plan.who));
  }

  lemma LeaveMeaning(state: seq<State>, t: nat, plan: Plan, waits: nat)
    requires 2 <= |state| && t < |state|
    requires Peaceful(state)
    requires Own(state, t, plan, M.Thread(M.Body, false), waits)
    requires plan.TakeLoop? || plan.PutDone?
    ensures var mv := Routine(state, t, plan, waits);
      Meaning(state, mv.state, t, plan, M.Body, mv.plan, CallPc(mv.call), mv.waits)
  {
    hide Peaceful;
  }

  /** Every step of a routine is such a move; no monitor here, only the states. */
  lemma RoutineMeaning(state: seq<State>, t: nat, plan: Plan, waits: nat)
    requires 2 <= |state| && t < |state|
    requires Peaceful(state)
    requires Own(state, t, plan, M.Thread(M.Body, false), waits)
    ensures var mv := Routine(state, t, plan, waits);
      Meaning(state, mv.state, t, plan, M.Body, mv.plan, CallPc(mv.call), mv.waits)
  {
    hide Routine, Meaning;
    match plan {
      case Thinking => StateMeaning(state, t, plan, waits);
      case TakeTest => TestMeaning(state, t, plan, waits);
      case TakeEat => TakeEatMeaning(state, t, plan, waits);
      case TakeLoop => LeaveMeaning(state, t, plan, waits);
      case Eating => StateMeaning(state, t, plan, waits);
      case PutTest(_) => TestMeaning(state, t, plan, waits);
      case PutEat(_) => PutEatMeaning(state, t, plan, waits);
      case PutDone => LeaveMeaning(state, t, plan, waits);
      case Quit =>
    }
  }

  lemma ExecBody(m: M.Mon, t: nat, call: M.Call)
    requires M.Inv(m)
    requires t < |m.threads| && m.threads[t] == M.Thread(M.Body, false)
    requires call.Leave? || call.c < |m.count|
    ensures M.Typed(m) && M.Inv(M.Exec(m, t, call))
    ensures M.Exec(m, t, call) == m.(threads := m.threads[t := M.Thread(CallPc(Some(call)), false)])
  {
    M.StepInv(m, t, call);
  }

  /** What a step in the body does to the monitor. */
  lemma BodyMonitor(r: Room, t: nat)
    requires Inv(r)
    requires t < |r.plan| && r.m.threads[t] == M.Thread(M.Body, false)
    ensures var m', pc := BodyStep(r, t).m, CallPc(Routine(r.state, t, r.plan[t], r.waits[t]).call);
      M.Inv(m') && m' == r.m.(threads := r.m.threads[t := M.Thread(pc, false)])
  {
    hide Inv, M.Inv, M.Exec, Routine;
    InvShaped(r);
    var call := Routine(r.state, t, r.plan[t], r.waits[t]).call;
    if call.Some? {
      ExecBody(r.m, t, call.value);
    } else {
      assert r.m.threads[t := r.m.threads[t]] == r.m.threads;
    }
  }

  lemma BodyFrame(r: Room, t: nat)
    requires Inv(r)
    requires t < |r.plan| && r.m.threads[t] == M.Thread(M.Body, false)
    ensures ActiveFrame(r, BodyStep(r, t), t)
    ensures BodyStep(r, t).m.threads[t].pc == CallPc(Routine(r.state, t, r.plan[t], r.waits[t]).call)
  {
    hide M.Inv, Inv, M.Exec, Routine;
    InvShaped(r);
    var r' := BodyStep(r, t);
    BodyMonitor(r, t);
    InvTyped(r'.m);
    hide M.Typed;
    FrameFromUpdate(r, r', t, r'.m.threads[t].pc);
  }

  lemma FrameFromUpdate(r: Room, r': Room, t: nat, pc: M.PC)
    requires Shaped(r) && Shaped(r')
    requires t < |r.plan| && M.In(r.m.threads[t], M.Active) && M.In(M.Thread(pc, false), M.Active)
    requires M.Inv(r'.m) && r'.m.sem == r.m.sem
    requires r'.m.threads == r.m.threads[t := M.Thread(pc, false)]
    requires |r'.plan| == |r.plan|
    requires r'.plan == r.plan[t := r'.plan[t]] && r'.waits == r.waits[t := r'.waits[t]]
    ensures ActiveFrame(r, r', t)
  {
    hide M.Inv, M.Typed;
  }

  lemma InvTyped(m: M.Mon)
    requires M.Inv(m)
    ensures M.Typed(m)
  {
  }

  lemma BodyStepInv(r: Room, t: nat)
    requires Inv(r)
    requires t < |r.plan| && r.m.threads[t] == M.Thread(M.Body, false)
    ensures Inv(BodyStep(r, t))
  {
    hide Inv, Peaceful;
    KnowsOf(r, t);
    RoutineMeaning(r.state, t, r.plan[t], r.waits[t]);
    BodyFrame(r, t);
    ActiveMoveInv(r, BodyStep(r, t), t);
  }

  // ----- Steps inside the monitor's code -----

  /** What a monitor step by philosopher t leaves as it is. */
  function MonitorStep(r: Room, t: nat): Room
    requires Shaped(r) && t < |r.plan|
  {
    r.(m := M.Exec(r.m, t, M.Leave))
  }

  /** An active step that neither goes down nor up, by its new program counter. */
  predicate LocalPc(pc: M.PC) {
    M.Local(pc) && !pc.Body?
  }

  lemma LocalMonitor(r: Room, t: nat)
    requires Inv(r)
    requires t < |r.plan| && !r.m.threads[t].asleep && LocalPc(r.m.threads[t].pc)
    ensures ActiveFrame(r, MonitorStep(r, t), t)
    ensures !MonitorStep(r, t).m.threads[t].asleep
  {
    hide Inv, M.Inv, M.Exec;
    KnowsOf(r, t);
    M.StepInv(r.m, t, M.Leave);
    assert Shaped(r) && M.Inv(r.m);
    var r' := MonitorStep(r, t);
    InvTyped(r'.m);
    LocalExec(r.m, t);
    assert r.plan[t := r.plan[t]] == r.plan && r.waits[t := r.waits[t]] == r.waits;
    FrameFromUpdate(r, r', t, r'.m.threads[t].pc);
  }

  lemma LocalExec(m: M.Mon, t: nat)
    requires M.Typed(m)
    requires t < |m.threads| && !m.threads[t].asleep && LocalPc(m.threads[t].pc)
    ensures var m' := M.Exec(m, t, M.Leave);
      && m'.sem == m.sem && |m'.count| == |m.count|
      && |m'.threads| == |m.threads| && m'.threads == m.threads[t := M.Thread(m'.threads[t].pc, false)]
      && M.In(m'.threads[t], M.Active)
  {
  }

  /** Where a local step goes, given whether cv.count and next_count were found positive. */
  function LocalNext(pc: M.PC, counted: bool, owed: bool): M.PC {
    match pc
    case SignalTest(c) => if counted then M.SignalCount(c) else M.Body
    case SignalCount(c) => M.SignalUp(c)
    case SignalDone => M.Body
    case WaitCount(c) => M.WaitTest(c)
    case WaitTest(c) => if owed then M.WaitUpNext(c) else M.WaitUpMutex(c)
    case WaitDone(c) => M.Body
    case LeaveTest => if owed then M.LeaveUpNext else M.LeaveUpMutex
    case _ => pc
  }

  lemma LocalExecPc(m: M.Mon, t: nat)
    requires M.Typed(m)
    requires t < |m.threads| && !m.threads[t].asleep && LocalPc(m.threads[t].pc)
    ensures var pc := m.threads[t].pc;
      M.Exec(m, t, M.Leave).threads[t].pc == LocalNext(pc, pc.SignalTest? && m.count[pc.c] > 0, m.nextCount > 0)
  {
  }

  /** A local step keeps what the philosopher knows: the signal of a waiter is never lost. */
  lemma LocalNextMeaning(state: seq<State>, t: nat, plan: Plan, pc: M.PC, waits: nat, counted: bool, owed: bool)
    requires 2 <= |state| && t < |state|
    requires LocalPc(pc)
    requires Own(state, t, plan, M.Thread(pc, false), waits)
    requires Peaceful(state)
    requires pc.SignalTest? ==> (counted <==> pc.c != t)
    requires forall c :: 0 <= c < |state| && c != t && Signalling(pc, c) ==> state[c] == EATING
    ensures Meaning(state, state, t, plan, pc, plan, LocalNext(pc, counted, owed), waits)
  {
    hide Peaceful, MayEat, WillTest;
  }

  lemma OwnSignalTest(state: seq<State>, t: nat, plan: Plan, th: M.Thread, waits: nat)
    requires t < |state|
    requires Own(state, t, plan, th, waits) && th.pc.SignalTest?
    ensures th.pc.c < |state|
  {
  }

  /** At cond_signal's test, the count is positive exactly when somebody else is being signalled. */
  lemma SignalCounted(r: Room, t: nat)
    requires Inv(r)
    requires t < |r.plan| && r.m.threads[t].pc.SignalTest?
    ensures var c := r.m.threads[t].pc.c;
      c < |r.plan| && r.m.count[c] == (if c == t then 0 else 1)
  {
    hide Inv, M.Inv;
    KnowsOf(r, t);
    var c := r.m.threads[t].pc.c;
    OwnSignalTest(r.state, t, r.plan[t], r.m.threads[t], r.waits[t]);
    CountIsOwn(r, c);
  }

  lemma LocalMeaning(r: Room, t: nat)
    requires Inv(r)
    requires t < |r.plan| && !r.m.threads[t].asleep && LocalPc(r.m.threads[t].pc)
    ensures Meaning(r.state, r.state, t, r.plan[t], r.m.threads[t].pc,
                    r.plan[t], MonitorStep(r, t).m.threads[t].pc, r.waits[t])
  {
    hide Inv, M.Inv, Peaceful, M.Exec;
    KnowsOf(r, t);
    var pc := r.m.threads[t].pc;
    if pc.SignalTest? {
      SignalCounted(r, t);
    }
    LocalExecPc(r.m, t);
    LocalNextMeaning(r.state, t, r.plan[t], pc, r.waits[t], pc.SignalTest? && r.m.count[pc.c] > 0, r.m.nextCount > 0);
  }

  lemma LocalStepInv(r: Room, t: nat)
    requires Inv(r)
    requires t < |r.plan| && !r.m.threads[t].asleep && LocalPc(r.m.threads[t].pc)
    ensures Inv(MonitorStep(r, t))
  {
    hide Inv, M.Exec;
    KnowsOf(r, t);
    LocalMonitor(r, t);
    LocalMeaning(r, t);
    ActiveMoveInv(r, MonitorStep(r, t), t);
  }

  // ----- Going down -----

  lemma DownExec(m: M.Mon, t: nat)
    requires M.Typed(m)
    requires t < |m.threads| && !m.threads[t].asleep && Away(m.threads[t].pc)
    ensures var s, pc := M.DownOn(m.threads[t].pc), m.threads[t].pc;
      && s < |m.sem|
      && M.Exec(m, t, M.Leave)
         == m.(sem := m.sem[s := Downed(m.sem[s], t)],
               threads := m.threads[t := if m.sem[s].value > 0 then M.Thread(M.AfterDown(pc), false) else M.Thread(pc, true)])
  {
    assert M.CvOk(m.threads[t].pc, |m.count|);
  }

  /** A philosopher that may be going down now. */
  ghost predicate GoesDown(r: Room, t: nat) {
    Inv(r) && t < |r.plan| && !r.m.threads[t].asleep && Away(r.m.threads[t].pc) && !r.plan[t].Quit?
  }

  /** Getting past a down, or falling asleep in it, keeps what a philosopher knows. */
  lemma OwnDown(state: seq<State>, i: nat, plan: Plan, th: M.Thread, waits: nat, th': M.Thread)
    requires i < |state|
    requires Own(state, i, plan, th, waits) && Away(th.pc) && !plan.Quit?
    requires th' == M.Thread(th.pc, true)
      || (th' == M.Thread(M.AfterDown(th.pc), false) && (th.pc.WaitDown? ==> state[i] == EATING))
    ensures Own(state, i, plan, th', waits)
  {
  }

  lemma OwnWaitDown(state: seq<State>, i: nat, plan: Plan, th: M.Thread, waits: nat, c: nat)
    requires i < |state|
    requires Own(state, i, plan, th, waits) && th.pc == M.WaitDown(c)
    ensures c == i
  {
  }

  lemma DownOwn(r: Room, t: nat, i: nat)
    requires GoesDown(r, t)
    requires i < |r.plan|
    ensures |MonitorStep(r, t).m.threads| == |r.plan|
    ensures Own(r.state, i, r.plan[i], MonitorStep(r, t).m.threads[i], r.waits[i])
  {
    hide Inv, M.Inv, M.Exec;
    KnowsOf(r, t);
    DownExec(r.m, t);
    var pc := r.m.threads[t].pc;
    KnowsOf(r, i);
    if pc.WaitDown? {
      OwnWaitDown(r.state, t, r.plan[t], r.m.threads[t], r.waits[t], pc.c);
    }
    if i == t {
      OwnDown(r.state, t, r.plan[t], r.m.threads[t], r.waits[t], MonitorStep(r, t).m.threads[t]);
    }
  }

  lemma DownSignals(r: Room, t: nat, h: nat)
    requires GoesDown(r, t)
    requires h < |r.plan|
    requires Shaped(MonitorStep(r, t))
    ensures SignalsWaiter(MonitorStep(r, t), h)
  {
    hide Inv, M.Inv, M.Typed, M.Exec, Peaceful, MayEat, M.CvOk;
    hide Inv, M.Inv, M.Exec, Peaceful;
    KnowsOf(r, t);
    DownExec(r.m, t);
    KnowsOf(r, h);
    if h == t {
        AwaySignals(r.m.threads[t].pc);
    } else if Away(r.m.threads[h].pc) {
      AwaySignalsNobody(MonitorStep(r, t), h);
    } else {
      AsleepAway(r.m);
      OnlyActive(r, h);
    }
  }

  lemma AwaySignals(pc: M.PC)
    requires Away(pc)
    ensures forall c :: !Signalling(pc, c) && !Signalling(M.AfterDown(pc), c)
  {
  }

  lemma DownPermits(r: Room, t: nat, j: nat)
    requires GoesDown(r, t)
    requires j < |r.plan|
    requires Shaped(MonitorStep(r, t))
    ensures PermitMeansEating(MonitorStep(r, t), j)
  {
    hide Inv, M.Inv, M.Exec, Peaceful;
    KnowsOf(r, t);
    DownExec(r.m, t);
    KnowsOf(r, j);
  }

  /** A step by a philosopher that signals nobody, and does not reach its own wait, keeps wake-ups coming. */
  lemma WakeupKept(r: Room, r': Room, t: nat, j: nat)
    requires Shaped(r) && Shaped(r')
    requires t < |r.plan| && j < |r.plan| == |r'.plan|
    requires |r.m.sem| == |r'.m.sem| == M.CvSem(|r.plan|)
    requires WakeupComing(r, j)
    requires r'.state[j] == r.state[j]
    requires forall h :: 0 <= h < |r.plan| && h != t ==> r'.m.threads[h] == r.m.threads[h]
    requires !Signalling(r.m.threads[t].pc, j)
    requires r'.m.threads[j].pc == M.WaitDown(j) ==>
      r.m.threads[j].pc == M.WaitDown(j) && r'.m.sem[M.CvSem(j)].value == r.m.sem[M.CvSem(j)].value
    ensures WakeupComing(r', j)
  {
    hide M.Typed, Signalling;
    if r'.m.threads[j].pc == M.WaitDown(j) && r'.state[j] == EATING && r.m.sem[M.CvSem(j)].value != 1 {
      var h :| 0 <= h < |r.plan| && Signalling(r.m.threads[h].pc, j);
      assert Signalling(r'.m.threads[h].pc, j);
    }
  }

  lemma DownWakeup(r: Room, t: nat, j: nat)
    requires GoesDown(r, t)
    requires j < |r.plan|
    requires Shaped(MonitorStep(r, t))
    ensures WakeupComing(MonitorStep(r, t), j)
  {
    hide Inv, M.Inv, M.Exec;
    KnowsOf(r, t);
    DownExec(r.m, t);
    var r' := MonitorStep(r, t);
    var pc := r.m.threads[t].pc;
    KnowsOf(r, j);
    SemsShaped(r);
    AwaySignals(pc);
    if pc.WaitDown? {
      OwnWaitDown(r.state, t, r.plan[t], r.m.threads[t], r.waits[t], pc.c);
    }
    WakeupKept(r, r', t, j);
  }

  lemma DownKeepsKnowing(r: Room, t: nat, i: nat)
    requires GoesDown(r, t)
    requires i < |r.plan|
    requires Shaped(MonitorStep(r, t))
    ensures Knows(MonitorStep(r, t), i)
  {
    hide Inv, M.Exec, Own, SignalsWaiter, PermitMeansEating, WakeupComing, Noticed;
    KnowsOf(r, i);
    DownOwn(r, t, i);
    DownSignals(r, t, i);
    DownPermits(r, t, i);
    DownWakeup(r, t, i);
    SameNoticed(r, MonitorStep(r, t), i);
  }

  lemma DownStepInv(r: Room, t: nat)
    requires GoesDown(r, t)
    ensures Inv(MonitorStep(r, t))
  {
    hide M.Inv, M.Exec, Peaceful, Knows;
    M.StepInv(r.m, t, M.Leave);
    InvTyped(MonitorStep(r, t).m);
    DownExec(r.m, t);
    hide M.Typed;
    forall i | 0 <= i < |r.plan|
      ensures Knows(MonitorStep(r, t), i)
    {
      DownKeepsKnowing(r, t, i);
    }
  }

  // ----- Going up -----

  /** A philosopher about to give the permit away: the semaphore it ups and where it goes on to. */
  predicate UpPc(pc: M.PC, s: nat, next: M.PC) {
    M.UpOn(pc) == s && M.AfterUp(pc) == next
  }

  lemma UpExec(m: M.Mon, t: nat, s: nat, next: M.PC)
    requires M.Inv(m)
    requires t < |m.threads| && !m.threads[t].asleep && UpPc(m.threads[t].pc, s, next)
    ensures M.Typed(m) && s < |m.sem| && M.In(m.threads[t], M.Active)
    ensures M.Exec(m, t, M.Leave) == M.UpStep(m, t, s, next)
  {
    hide M.Inv, M.KnowsCounters, M.QueueOk, M.UpStep, M.Typed;
    M.StepFacts(m, t);
  }

  /** Up by t, going on to `next`: t moves on, and the first sleeper, if any, gets past its down. */
  lemma UpEffect(m: M.Mon, t: nat, s: nat, next: M.PC, u: nat)
    requires M.Inv(m)
    requires t < |m.threads| && s < |m.sem| && u < |m.threads| && !m.threads[t].asleep
    ensures var m', th := M.UpStep(m, t, s, next), m.threads[u];
      && |m'.threads| == |m.threads| && m'.sem == m.sem[s := Upped(m.sem[s])] && m'.count == m.count
      && (u == t ==> m'.threads[u] == M.Thread(next, false))
      && (u != t && m'.threads[u] != th ==>
          th.asleep && M.DownOn(th.pc) == s && m'.threads[u] == M.Thread(M.AfterDown(th.pc), false))
      && (m.sem[s].queue != [] && u == m.sem[s].queue[0] ==>
          th.asleep && M.DownOn(th.pc) == s && m'.threads[u] == M.Thread(M.AfterDown(th.pc), false))
  {
    var q := m.sem[s].queue;
    assert M.QueueOk(q, m.threads, s);
    assert q != [] ==> q[0] < |m.threads| && M.SleepsOn(m.threads[q[0]], s);
    hide M.Inv, M.KnowsCounters, M.QueueOk, M.Typed;
  }

  function UpRoom(r: Room, t: nat, s: nat, next: M.PC): Room
    requires Shaped(r) && t < |r.plan| && s < |r.m.sem|
  {
    r.(m := M.UpStep(r.m, t, s, next))
  }

  lemma OwnUp(state: seq<State>, i: nat, plan: Plan, th: M.Thread, waits: nat, s: nat, next: M.PC)
    requires 2 <= |state| && i < |state|
    requires Own(state, i, plan, th, waits) && UpPc(th.pc, s, next)
    ensures Own(state, i, plan, M.Thread(next, false), waits)
    ensures s >= 2 ==> s - 2 != i
    ensures next.WaitDown? ==> state[i] == HUNGRY
  {
  }

  ghost predicate GoesUp(r: Room, t: nat, s: nat, next: M.PC) {
    && Inv(r)
    && t < |r.plan| && !r.m.threads[t].asleep && UpPc(r.m.threads[t].pc, s, next)
    && s < |r.m.sem|
    && Shaped(UpRoom(r, t, s, next))
  }

  lemma UpKnows(r: Room, t: nat, s: nat, next: M.PC)
    requires GoesUp(r, t, s, next)
    ensures Own(r.state, t, r.plan[t], M.Thread(next, false), r.waits[t])
    ensures s >= 2 ==> s - 2 != t && s - 2 < |r.plan| && r.state[s - 2] == EATING
    ensures next.WaitDown? ==> r.state[t] == HUNGRY
  {
    hide Inv, M.Inv, M.UpStep;
    KnowsOf(r, t);
    SemsShaped(r);
    OwnUp(r.state, t, r.plan[t], r.m.threads[t], r.waits[t], s, next);
    KnowsOf(r, t);
  }

  lemma UpOwn(r: Room, t: nat, s: nat, next: M.PC, i: nat)
    requires GoesUp(r, t, s, next)
    requires i < |r.plan|
    ensures Own(r.state, i, r.plan[i], UpRoom(r, t, s, next).m.threads[i], r.waits[i])
  {
    hide Inv, M.Inv, M.UpStep, Own;
    KnowsOf(r, i);
    var th := r.m.threads[i];
    UpKnows(r, t, s, next);
    UpEffect(r.m, t, s, next, i);
    var th' := UpRoom(r, t, s, next).m.threads[i];
    if i != t && th' != th {
      OwnWoken(r.state, i, r.plan[i], th, r.waits[i], s);
    }
  }

  /** A philosopher woken on semaphore s goes on; if it was waiting, s is its own condition variable's. */
  lemma OwnWoken(state: seq<State>, i: nat, plan: Plan, th: M.Thread, waits: nat, s: nat)
    requires i < |state|
    requires Own(state, i, plan, th, waits) && th.asleep && M.DownOn(th.pc) == s
    requires s == M.CvSem(i) ==> state[i] == EATING
    ensures Own(state, i, plan, M.Thread(M.AfterDown(th.pc), false), waits)
  {
  }

  lemma UpAway(r: Room, t: nat, s: nat, next: M.PC, h: nat)
    requires GoesUp(r, t, s, next)
    requires h < |r.plan|
    ensures forall c :: !Signalling(UpRoom(r, t, s, next).m.threads[h].pc, c)
  {
    hide Inv, M.Inv, M.UpStep;
    KnowsOf(r, t);
    UpEffect(r.m, t, s, next, h);
    OnlyActive(r, t);
    if h != t {
      AwaySignals(r.m.threads[h].pc);
    }
  }

  lemma UpPermits(r: Room, t: nat, s: nat, next: M.PC, j: nat)
    requires GoesUp(r, t, s, next)
    requires j < |r.plan|
    ensures PermitMeansEating(UpRoom(r, t, s, next), j)
  {
    hide Inv, M.Inv, M.UpStep;
    KnowsOf(r, t);
    UpKnows(r, t, s, next);
    UpEffect(r.m, t, s, next, j);
    SemsShaped(r);
    KnowsOf(r, j);
    assert s == M.CvSem(j) ==> r.state[j] == EATING;
  }

  lemma SignalledBy(r: Room, t: nat, j: nat)
    requires Shaped(r)
    requires t < |r.plan| && j < |r.plan| && |r.m.sem| == M.CvSem(|r.plan|)
    requires forall u :: 0 <= u < |r.plan| && u != t ==> Away(r.m.threads[u].pc)
    requires r.m.sem[M.CvSem(j)].value == 0
    requires WakeupComing(r, j)
    requires r.m.threads[j].pc == M.WaitDown(j) && r.state[j] == EATING
    ensures Signalling(r.m.threads[t].pc, j)
  {
    hide M.Typed;
    var h :| 0 <= h < |r.plan| && Signalling(r.m.threads[h].pc, j);
    assert h == t;
  }

  /** If philosopher j waits with its state EATING while t is active, it is t that signals it. */
  lemma UpSignalled(r: Room, t: nat, s: nat, next: M.PC, j: nat)
    requires GoesUp(r, t, s, next)
    requires j < |r.plan| && r.m.threads[j].pc == M.WaitDown(j) && r.state[j] == EATING
    ensures s == M.CvSem(j) && r.m.sem[s].value == 0
  {
    hide Inv, M.Inv, M.UpStep;
    KnowsOf(r, t);
    SemsShaped(r);
    OnlyActive(r, t);
    KnowsOf(r, j);
    SignalledBy(r, t, j);
  }

  lemma UpWakeup(r: Room, t: nat, s: nat, next: M.PC, j: nat)
    requires GoesUp(r, t, s, next)
    requires j < |r.plan|
    ensures WakeupComing(UpRoom(r, t, s, next), j)
  {
    hide Inv, M.Inv, M.UpStep;
    KnowsOf(r, t);
    var r' := UpRoom(r, t, s, next);
    UpKnows(r, t, s, next);
    UpEffect(r.m, t, s, next, j);
    if r'.m.threads[j].pc == M.WaitDown(j) && r.state[j] == EATING {
      assert j != t && r.m.threads[j].pc == M.WaitDown(j);
      UpSignalled(r, t, s, next, j);
      UpLeavesPermit(r, t, s, next, j);
    }
  }

  /** If the waiter j is still at its down after the up, the permit is in its semaphore. */
  lemma UpLeavesPermit(r: Room, t: nat, s: nat, next: M.PC, j: nat)
    requires GoesUp(r, t, s, next)
    requires j < |r.plan| && s == M.CvSem(j) && r.m.sem[s].value == 0
    requires UpRoom(r, t, s, next).m.threads[j].pc == M.WaitDown(j)
    ensures UpRoom(r, t, s, next).m.sem[s].value == 1
  {
    hide Inv, M.Inv, M.UpStep;
    KnowsOf(r, t);
    var q := r.m.sem[s].queue;
    UpEffect(r.m, t, s, next, j);
    if q != [] {
      QueueOf(r.m, s);
      var u := q[0];
      KnowsOf(r, u);
      UpEffect(r.m, t, s, next, u);
      OwnWaitDown(r.state, u, r.plan[u], r.m.threads[u], r.waits[u], j);
    }
  }

  lemma QueueOf(m: M.Mon, s: nat)
    requires M.Inv(m)
    requires s < |m.sem|
    ensures M.QueueOk(m.sem[s].queue, m.threads, s)
  {
  }

  lemma SameNoticed(r: Room, r': Room, i: nat)
    requires Shaped(r) && Shaped(r')
    requires r'.state == r.state && r'.plan == r.plan
    requires i < |r.plan| && Noticed(r, i)
    ensures Noticed(r', i)
  {
    hide M.Typed;
  }

  lemma UpKeepsKnowing(r: Room, t: nat, s: nat, next: M.PC, i: nat)
    requires GoesUp(r, t, s, next)
    requires i < |r.plan|
    ensures Knows(UpRoom(r, t, s, next), i)
  {
    hide Inv, M.UpStep, Own, PermitMeansEating, WakeupComing, Noticed;
    KnowsOf(r, i);
    UpOwn(r, t, s, next, i);
    UpAway(r, t, s, next, i);
    UpPermits(r, t, s, next, i);
    UpWakeup(r, t, s, next, i);
    SameNoticed(r, UpRoom(r, t, s, next), i);
  }

  lemma UpRoomInv(r: Room, t: nat, s: nat, next: M.PC)
    requires GoesUp(r, t, s, next)
    requires M.Inv(UpRoom(r, t, s, next).m)
    ensures Inv(UpRoom(r, t, s, next))
  {
    hide M.Inv, M.Typed, M.UpStep, Peaceful, Knows;
    forall i | 0 <= i < |r.plan|
      ensures Knows(UpRoom(r, t, s, next), i)
    {
      UpKeepsKnowing(r, t, s, next, i);
    }
  }

  lemma UpStepInv(r: Room, t: nat, s: nat, next: M.PC)
    requires Inv(r)
    requires t < |r.plan| && !r.m.threads[t].asleep && UpPc(r.m.threads[t].pc, s, next)
    ensures Inv(MonitorStep(r, t))
  {
    hide Inv, M.Inv, M.Exec, M.UpStep;
    KnowsOf(r, t);
    assert Shaped(r) && M.Inv(r.m);
    M.StepInv(r.m, t, M.Leave);
    UpExec(r.m, t, s, next);
    UpEffect(r.m, t, s, next, t);
    InvTyped(MonitorStep(r, t).m);
    UpRoomInv(r, t, s, next);
  }

  lemma QuitInv(r: Room, t: nat)
    requires Inv(r)
    requires t < |r.plan| && r.m.threads[t] == M.Thread(M.Outside, false) && r.plan[t] == Thinking
    ensures Inv(r.(plan := r.plan[t := Quit]))
  {
    hide M.Inv, M.Typed, Peaceful, Own, SignalsWaiter, PermitMeansEating, WakeupComing, Noticed;
    var r' := r.(plan := r.plan[t := Quit]);
    forall i | 0 <= i < |r.plan|
      ensures Knows(r', i)
    {
      QuitKeeps(r, t, i);
      QuitNoticed(r, t, i);
    }
  }

  lemma QuitKeeps(r: Room, t: nat, i: nat)
    requires Inv(r)
    requires t < |r.plan| && r.m.threads[t] == M.Thread(M.Outside, false) && r.plan[t] == Thinking
    requires i < |r.plan|
    ensures var r' := r.(plan := r.plan[t := Quit]);
      && Shaped(r')
      && Own(r'.state, i, r'.plan[i], r'.m.threads[i], r'.waits[i])
      && SignalsWaiter(r', i) && PermitMeansEating(r', i) && WakeupComing(r', i)
  {
    hide Inv, M.Inv, Peaceful;
    KnowsOf(r, t);
    var r' := r.(plan := r.plan[t := Quit]);
    KnowsOf(r, i);
    assert i == t ==> Own(r'.state, i, Quit, r'.m.threads[i], r'.waits[i]);
    KnowsOf(r, i);
    SemsShaped(r);
    AwaySignals(r.m.threads[t].pc);
    WakeupKept(r, r', t, i);
  }

  lemma QuitNoticed(r: Room, t: nat, i: nat)
    requires Inv(r)
    requires t < |r.plan| && r.plan[t] == Thinking
    requires i < |r.plan|
    ensures Noticed(r.(plan := r.plan[t := Quit]), i)
  {
    hide Inv, M.Inv;
    KnowsOf(r, t);
    KnowsOf(r, i);
    var plan' := r.plan[t := Quit];
    assert forall h :: 0 <= h < |r.plan| && WillTest(|r.plan|, h, r.plan[h], i) ==> WillTest(|plan'|, h, plan'[h], i);
  }

  /** Every step of every philosopher keeps the invariant. */
  lemma StepInv(r: Room, t: nat, quit: bool)
    requires Inv(r)
    requires t < |r.plan| && !r.m.threads[t].asleep
    ensures Inv(Step(r, t, quit))
  {
    hide Inv, M.Exec;
    KnowsOf(r, t);
    assert Shaped(r);
    var pc := r.m.threads[t].pc;
    if r.plan[t].Quit? {
    } else if pc.Body? {
      BodyStepInv(r, t);
    } else if quit && pc.Outside? && r.plan[t].Thinking? {
      QuitInv(r, t);
    } else if Away(pc) {
      DownStepInv(r, t);
    } else if LocalPc(pc) {
      LocalStepInv(r, t);
    } else {
      UpStepInv(r, t, M.UpOn(pc), M.AfterUp(pc));
    }
  }

  lemma {:induction false} RunInv(n: nat, run: seq<Room>, i: nat)
    requires IsRun(n, run)
    requires i < |run|
    ensures Inv(run[i])
  {
    hide Inv;
    if i == 0 {
      InitInv(n);
    } else {
      RunInv(n, run, i - 1);
      var j := i - 1;
      assert Next(run[j], run[j + 1]);
      var t: nat, quit: bool :|
        Shaped(run[j]) && t < |run[j].plan| && !run[j].m.threads[t].asleep && run[j + 1] == Step(run[j], t, quit);
      StepInv(run[j], t, quit);
    }
  }

  // ----- What holds on every run -----

  /** Each run of the philosophers is a run of the monitor, step by step or standing still. */
  lemma StepIsMonitorStep(r: Room, t: nat, quit: bool)
    requires Inv(r)
    requires t < |r.plan| && !r.m.threads[t].asleep
    ensures Step(r, t, quit).m == r.m || M.Next(r.m, Step(r, t, quit).m)
  {
    hide Inv, M.Inv, M.Exec;
    KnowsOf(r, t);
    assert Shaped(r);
    var call := if r.m.threads[t].pc.Body? then Routine(r.state, t, r.plan[t], r.waits[t]).call else Some(M.Leave);
    if call.Some? && Step(r, t, quit).m != r.m {
      var c: M.Call := call.value;
      assert M.Typed(r.m) && (c.Leave? || c.c < |r.m.count|) && Step(r, t, quit).m == M.Exec(r.m, t, c);
    }
  }

  /** Two neighbours are never both eating, neither by their states nor after leaving with their forks. */
  lemma NeighboursNeverBothEat(n: nat, run: seq<Room>, i: nat, p: nat)
    requires IsRun(n, run)
    requires i < |run| && p < |run[i].plan|
    ensures Shaped(run[i])
    ensures var q := Right(|run[i].plan|, p);
      && !(run[i].state[p] == EATING && run[i].state[q] == EATING)
      && !(run[i].plan[p].Eating? && run[i].plan[q].Eating?)
  {
    RunInv(n, run, i);
    var r := run[i];
    var q := Right(|r.plan|, p);
    KnowsOf(r, p);
    KnowsOf(r, q);
  }

  predicate MutexFree(m: M.Mon) {
    m.sem != [] && m.sem[M.MUTEX].value > 0
  }

  /** Whenever the monitor's mutex is free, every hungry philosopher has a neighbour that is eating. */
  lemma NoHungryOverlooked(n: nat, run: seq<Room>, i: nat, p: nat)
    requires IsRun(n, run)
    requires i < |run| && p < |run[i].plan|
    requires MutexFree(run[i].m)
    ensures Shaped(run[i]) && !MayEat(run[i].state, p)
  {
    RunInv(n, run, i);
    OverlookedInv(run[i], p);
  }

  lemma OverlookedInv(r: Room, p: nat)
    requires Inv(r)
    requires p < |r.plan|
    requires r.m.sem[M.MUTEX].value > 0
    ensures !MayEat(r.state, p)
  {
    hide Inv, M.Inv, MayEat;
    KnowsOf(r, p);
    forall h | 0 <= h < |r.plan|
      ensures !WillTest(|r.plan|, h, r.plan[h], p)
    {
      WillTestIsInside(r, h, p);
    }
  }

  lemma WillTestIsInside(r: Room, h: nat, p: nat)
    requires Inv(r)
    requires h < |r.plan|
    requires r.m.sem[M.MUTEX].value > 0
    ensures !WillTest(|r.plan|, h, r.plan[h], p)
  {
    hide Noticed, WakeupComing, SignalsWaiter, M.Typed;
    hide Inv, M.Inv;
    KnowsOf(r, h);
    FreeMutexNobodyInside(r.m, h);
    AsleepAway(r.m);
  }

  /** While the mutex is free, nobody is active and no signaller is suspended. */
  lemma FreeMutexNobodyInside(m: M.Mon, h: nat)
    requires M.Inv(m)
    requires h < |m.threads|
    requires m.sem[M.MUTEX].value > 0
    ensures !M.In(m.threads[h], M.Active) && !m.threads[h].pc.SignalDown?
  {
    if M.In(m.threads[h], M.Active) {
      M.ActiveAlone(m, h);
    }
    if m.threads[h].pc.SignalDown? {
      M.SizeMember(m.threads, M.Signaller, h);
    }
  }

  /**
   A neighbour's signal is never lost: when philosopher t reaches cond_signal on another's
   condition variable, that variable's count is exactly 1 and its state is already EATING.
   */
  lemma SignalNeverLost(n: nat, run: seq<Room>, i: nat, t: nat, c: nat)
    requires IsRun(n, run)
    requires i < |run| && t < |run[i].m.threads|
    requires run[i].m.threads[t].pc == M.SignalTest(c) && c != t
    ensures c < |run[i].m.count| && run[i].m.count[c] == 1
    ensures Shaped(run[i]) && run[i].state[c] == EATING
  {
    RunInv(n, run, i);
    SignalCounted(run[i], t);
    KnowsOf(run[i], t);
  }

  /** The wait loop's body runs at most once per take, and a philosopher that has waited may eat at once. */
  lemma WaitsAtMostOnce(n: nat, run: seq<Room>, i: nat, p: nat)
    requires IsRun(n, run)
    requires i < |run| && p < |run[i].plan|
    requires run[i].plan[p].TakeLoop? || run[i].plan[p].Eating?
    ensures Shaped(run[i])
    ensures run[i].waits[p] <= 1
    ensures run[i].m.threads[p].pc.WaitDone? ==> run[i].state[p] == EATING
  {
    RunInv(n, run, i);
    var r := run[i];
    KnowsOf(r, p);
  }

  /** Philosopher p will not run again unless somebody wakes it. */
  predicate Stopped(r: Room, p: nat) {
    p < |r.m.threads| && p < |r.plan| && (r.m.threads[p].asleep || r.plan[p].Quit?)
  }

  /** Deadlock freedom: if everybody is asleep or has quit, everybody has quit. */
  lemma NeverDeadlocked(n: nat, run: seq<Room>, i: nat)
    requires IsRun(n, run)
    requires i < |run|
    requires forall p :: 0 <= p < |run[i].plan| ==> Stopped(run[i], p)
    ensures forall p :: 0 <= p < |run[i].plan| ==> run[i].plan[p].Quit?
  {
    var r := run[i];
    RunInv(n, run, i);
    AllAsleepMutexFree(n, r);
    forall p | 0 <= p < |r.plan|
      ensures r.plan[p].Quit?
    {
      NotEatingAsleep(r, p);
      NotEatingAsleep(r, Left(|r.plan|, p));
      NotEatingAsleep(r, Right(|r.plan|, p));
      OverlookedInv(r, p);
    }
  }

  lemma NobodyIn(r: Room, g: M.Group)
    requires Inv(r)
    requires forall p :: 0 <= p < |r.plan| ==> Stopped(r, p)
    requires g == M.Active || (g.Ready? && g.s >= 1)
    ensures M.Size(r.m.threads, g) == 0
  {
    hide Inv, M.Inv;
    InvShaped(r);
    forall u | 0 <= u < |r.plan|
      ensures !M.In(r.m.threads[u], g)
    {
      assert Stopped(r, u);
      KnowsOf(r, u);
    }
    CountNone(M.Flags(r.m.threads, g));
  }

  lemma AllAsleepMutexFree(n: nat, r: Room)
    requires Inv(r)
    requires forall p :: 0 <= p < |r.plan| ==> Stopped(r, p)
    ensures r.m.sem[M.MUTEX].value == 1
    ensures forall s :: 1 <= s < |r.m.sem| ==> r.m.sem[s].value == 0
  {
    hide Inv, M.Inv, Stopped;
    InvShaped(r);
    NobodyIn(r, M.Active);
    forall s | 1 <= s < |r.m.sem|
      ensures M.Size(r.m.threads, M.Ready(s)) == 0
    {
      NobodyIn(r, M.Ready(s));
    }
    PermitInMutex(r.m);
  }

  lemma PermitInMutex(m: M.Mon)
    requires M.Inv(m) && m.sem != [] && M.Size(m.threads, M.Active) == 0
    requires forall s :: 1 <= s < |m.sem| ==> M.Size(m.threads, M.Ready(s)) == 0
    ensures m.sem[M.MUTEX].value == 1
    ensures forall s :: 1 <= s < |m.sem| ==> m.sem[s].value == 0
  {
    hide M.Size, M.Values, M.QueuesOk, M.KnowledgeOk, M.Typed;
    forall s | 1 <= s < |m.sem|
      ensures m.sem[s].value == 0
    {
      M.PermitsAtLeast(m, s);
    }
    var s := SumPositive(M.Values(m.sem));
    PermitAt(m, s);
  }

  lemma PermitAt(m: M.Mon, s: nat)
    requires M.Inv(m)
    requires s < |M.Values(m.sem)| && M.Values(m.sem)[s] > 0
    ensures s < |m.sem| && m.sem[s].value == 1
  {
    M.PermitsAtLeast(m, s);
  }

  lemma NotEatingAsleep(r: Room, p: nat)
    requires Inv(r)
    requires forall t :: 0 <= t < |r.plan| ==> Stopped(r, t)
    requires r.m.sem[M.MUTEX].value == 1
    requires forall s :: 1 <= s < |r.m.sem| ==> r.m.sem[s].value == 0
    requires p < |r.plan|
    ensures r.state[p] != EATING
    ensures !r.plan[p].Quit? ==> r.state[p] == HUNGRY
  {
    hide Inv, M.Inv;
    KnowsOf(r, p);
    SemsShaped(r);
    assert Stopped(r, p);
    if !r.plan[p].Quit? {
      AsleepAway(r.m);
      FreeMutexNobodyInside(r.m, p);
      NobodyAsleepOnMutex(r.m, p);
      OwnAsleepWaits(r.state, p, r.plan[p], r.m.threads[p], r.waits[p]);
      NobodySignals(r, p);
      KnowsOf(r, p);
    }
  }

  lemma NobodySignals(r: Room, p: nat)
    requires Inv(r)
    requires forall t :: 0 <= t < |r.plan| ==> Stopped(r, t)
    ensures forall h :: 0 <= h < |r.plan| ==> !Signalling(r.m.threads[h].pc, p)
  {
    hide Inv, M.Inv;
    InvShaped(r);
    AsleepAway(r.m);
    forall h | 0 <= h < |r.plan|
      ensures !Signalling(r.m.threads[h].pc, p)
    {
      assert Stopped(r, h);
      if r.plan[h].Quit? {
        KnowsOf(r, h);
      }
    }
  }

  lemma OwnAsleepWaits(state: seq<State>, p: nat, plan: Plan, th: M.Thread, waits: nat)
    requires p < |state|
    requires Own(state, p, plan, th, waits) && Away(th.pc) && !th.pc.Outside? && !th.pc.SignalDown?
    ensures th.pc == M.WaitDown(p) && state[p] != THINKING
  {
  }

  lemma NobodyAsleepOnMutex(m: M.Mon, p: nat)
    requires M.Inv(m)
    requires m.sem[M.MUTEX].value > 0
    requires p < |m.threads| && m.threads[p].asleep
    ensures !m.threads[p].pc.Outside?
  {
    assert Sound(m.sem[M.MUTEX]);
    assert M.QueueOk(m.sem[M.MUTEX].queue, m.threads, M.MUTEX);
    assert m.threads[p].pc.Outside? ==> M.SleepsOn(m.threads[p], M.MUTEX);
  }
}
