/**
 Progress of the dining philosophers in the monitor: from every state of every run, any philosopher
 that has not quit can still get its forks, and all of them can finish.
 */
module MonitorProgress {
  import opened Counting
  import opened Options
  import opened Semaphores
  import opened Runs
  import opened Table
  import opened PhilosophersMonitor
  import M = Monitors

  ghost predicate Leads(r: Room, r': Room) {
    Reaches(Next, r, r')
  }

  lemma LeadsSelf(r: Room)
    ensures Leads(r, r)
  {
    ReachesSelf(Next, r);
  }

  lemma LeadsOn(r: Room, u: Room, r': Room)
    requires Leads(r, u) && Leads(u, r')
    ensures Leads(r, r')
  {
    ReachesOn(Next, r, u, r');
  }

  lemma LeadsByStep(r: Room, t: nat, quit: bool)
    requires Shaped(r) && t < |r.plan| && !r.m.threads[t].asleep
    ensures Leads(r, Step(r, t, quit))
  {
    hide Step, Shaped;
    var r' := Step(r, t, quit);
    assert Next(r, r');
    ReachesSelf(Next, r');
    ReachesNext(Next, r, r', r');
  }

  // ----- How much is left to do before everybody is out of the monitor, or waiting in it -----

  /** Statements left in the body at most, before the thread is outside. */
  function BodyWork(plan: Plan, state: State): nat {
    match plan
    case Eating => 18
    case PutTest(who) => if who.LeftOne? then 17 else 10
    case PutEat(who) => if who.LeftOne? then 16 else 9
    case PutDone => 3
    case Thinking => 12
    case TakeTest => 11
    case TakeEat => 10
    case TakeLoop => if state == EATING then 3 else 9
    case Quit => 0
  }

  /** The same wherever the thread is; one that is outside and awake need not come in. */
  function Work(plan: Plan, th: M.Thread, state: State): nat {
    match th.pc
    case Outside => if th.asleep then 20 else 0
    case Body => BodyWork(plan, state)
    case LeaveTest => 2
    case LeaveUpNext => 1
    case LeaveUpMutex => 1
    case SignalTest(_) => BodyWork(plan, EATING) + 5
    case SignalCount(_) => BodyWork(plan, EATING) + 4
    case SignalUp(_) => BodyWork(plan, EATING) + 3
    case SignalDown => BodyWork(plan, EATING) + 2
    case SignalDone => BodyWork(plan, EATING) + 1
    case WaitCount(_) => 8
    case WaitTest(_) => 7
    case WaitUpNext(_) => 6
    case WaitUpMutex(_) => 6
    case WaitDown(_) => 5
    case WaitDone(_) => 4
  }

  function WorkAt(r: Room, u: nat): nat
    requires Shaped(r) && u < |r.plan|
  {
    Work(r.plan[u], r.m.threads[u], r.state[u])
  }

  function Works(r: Room): seq<int>
    requires Shaped(r)
  {
    seq(|r.plan|, (u: nat) requires u < |r.plan| => WorkAt(r, u))
  }

  /** States have changed from HUNGRY to EATING at most. */
  ghost predicate Risen(state: seq<State>, state': seq<State>) {
    |state'| == |state| && forall j :: 0 <= j < |state| ==>
      state'[j] == state[j] || (state[j] == HUNGRY && state'[j] == EATING)
  }

  /** Philosopher u is not about to begin a routine, and does not wait to get in. */
  predicate Begun(plan: Plan, th: M.Thread) {
    && !(th.asleep && th.pc.Outside?)
    && !(th.pc.Body? && (plan.Thinking? || plan.Eating?))
  }

  ghost predicate Calm(r: Room)
    requires Shaped(r)
  {
    forall u :: 0 <= u < |r.plan| ==> Begun(r.plan[u], r.m.threads[u])
  }

  /** t has done a statement and nobody has got more to do. */
  ghost predicate Advances(r: Room, r': Room, t: nat) {
    && Shaped(r) && Shaped(r') && t < |r.plan| == |r'.plan|
    && (forall u :: 0 <= u < |r.plan| ==> AdvancesAt(r, r', u))
    && WorkAt(r', t) < WorkAt(r, t)
    && (Calm(r) ==> Risen(r.state, r'.state))
  }

  predicate AdvancesAt(r: Room, r': Room, u: nat)
    requires Shaped(r) && Shaped(r') && u < |r.plan| == |r'.plan|
  {
    && WorkAt(r', u) <= WorkAt(r, u)
    && (r'.plan[u].Quit? <==> r.plan[u].Quit?)
    && (Begun(r.plan[u], r.m.threads[u]) ==> Begun(r'.plan[u], r'.m.threads[u]))
  }

  lemma RoutineWork(state: seq<State>, t: nat, plan: Plan, waits: nat)
    requires t < |state| && Own(state, t, plan, M.Thread(M.Body, false), waits)
    ensures var mv := Routine(state, t, plan, waits);
      var th, th' := M.Thread(M.Body, false), M.Thread(CallPc(mv.call), false);
      && Work(mv.plan, th', mv.state[t]) < Work(plan, th, state[t])
      && !plan.Quit? && !mv.plan.Quit?
      && (Begun(plan, th) ==> Begun(mv.plan, th') && Risen(state, mv.state))
  {
  }

  lemma BodyAdvances(r: Room, t: nat)
    requires Inv(r)
    requires t < |r.plan| && r.m.threads[t] == M.Thread(M.Body, false)
    ensures Shaped(BodyStep(r, t)) && Advances(r, BodyStep(r, t), t)
  {
    hide Inv, M.Inv, Routine, Work, Begun, Risen, M.Typed;
    KnowsOf(r, t);
    OnlyActive(r, t);
    RoutineWork(r.state, t, r.plan[t], r.waits[t]);
    BodyMonitor(r, t);
    BodyFrame(r, t);
    var r' := BodyStep(r, t);
    forall u | 0 <= u < |r.plan| && u != t
      ensures AdvancesAt(r, r', u)
    {
      AwayWork(r.plan[u], r.m.threads[u], r.state[u], r'.state[u]);
    }
  }

  /** The work of a philosopher away from the monitor's code does not depend on its state. */
  lemma AwayWork(plan: Plan, th: M.Thread, state: State, state': State)
    requires Away(th.pc)
    ensures Work(plan, th, state) == Work(plan, th, state')
  {
  }

  lemma LocalNextWork(state: seq<State>, t: nat, plan: Plan, pc: M.PC, waits: nat, counted: bool, owed: bool)
    requires t < |state| && LocalPc(pc) && Own(state, t, plan, M.Thread(pc, false), waits)
    ensures var th, th' := M.Thread(pc, false), M.Thread(LocalNext(pc, counted, owed), false);
      && Work(plan, th', state[t]) < Work(plan, th, state[t])
      && Begun(plan, th')
  {
    hide MayEat;
  }

  lemma LocalAdvances(r: Room, t: nat)
    requires Inv(r)
    requires t < |r.plan| && !r.m.threads[t].asleep && LocalPc(r.m.threads[t].pc)
    ensures Shaped(MonitorStep(r, t)) && Advances(r, MonitorStep(r, t), t)
  {
    hide Inv, M.Inv, M.Exec, Work, Begun, Own, M.Typed;
    KnowsOf(r, t);
    LocalMonitor(r, t);
    var pc := r.m.threads[t].pc;
    ShapedTyped(r);
    LocalExecPc(r.m, t);
    LocalNextWork(r.state, t, r.plan[t], pc, r.waits[t], pc.SignalTest? && r.m.count[pc.c] > 0, r.m.nextCount > 0);
    var r' := MonitorStep(r, t);
    forall u | 0 <= u < |r.plan| && u != t
      ensures AdvancesAt(r, r', u)
    {
    }
  }

  lemma ShapedTyped(r: Room)
    requires Inv(r)
    ensures Shaped(r) && M.Typed(r.m)
    ensures forall t :: 0 <= t < |r.m.threads| && r.m.threads[t].pc.SignalTest? ==> r.m.threads[t].pc.c < |r.m.count|
  {
  }

  /** Going on past an up, and being woken by one. */
  lemma UpWork(state: seq<State>, i: nat, plan: Plan, th: M.Thread, waits: nat)
    requires i < |state| && Own(state, i, plan, th, waits)
    ensures M.UpOn(th.pc) >= 0 && !th.asleep ==>
      var th' := M.Thread(M.AfterUp(th.pc), false);
      Work(plan, th', state[i]) < Work(plan, th, state[i]) && Begun(plan, th')
    ensures M.DownOn(th.pc) >= 0 && (th.asleep || !th.pc.Outside?) ==>
      var th' := M.Thread(M.AfterDown(th.pc), false);
      Work(plan, th', state[i]) < Work(plan, th, state[i]) && (Begun(plan, th) ==> Begun(plan, th'))
  {
    hide MayEat;
  }

  lemma UpAdvances(r: Room, t: nat, s: nat, next: M.PC)
    requires Inv(r)
    requires t < |r.plan| && !r.m.threads[t].asleep && UpPc(r.m.threads[t].pc, s, next)
    ensures Shaped(MonitorStep(r, t)) && Advances(r, MonitorStep(r, t), t)
  {
    hide Inv, M.Inv, M.Exec, M.UpStep, Work, Begun, Own, M.Typed;
    KnowsOf(r, t);
    StepInv(r, t, false);
    UpExec(r.m, t, s, next);
    var r' := MonitorStep(r, t);
    UpIsStep(r, t);
    InvShaped(r');
    forall u | 0 <= u < |r.plan|
      ensures AdvancesAt(r, r', u) && (u == t ==> WorkAt(r', t) < WorkAt(r, t))
    {
      KnowsOf(r, u);
      UpEffect(r.m, t, s, next, u);
      UpWork(r.state, u, r.plan[u], r.m.threads[u], r.waits[u]);
    }
    assert AdvancesAt(r, r', t);
  }

  lemma UpIsStep(r: Room, t: nat)
    requires Inv(r)
    requires t < |r.plan| && !r.m.threads[t].asleep && M.UpOn(r.m.threads[t].pc) >= 0
    ensures Shaped(r) && Step(r, t, false) == MonitorStep(r, t)
  {
    hide M.Inv, M.Exec;
    KnowsOf(r, t);
  }

  /** A thread takes the permit that it was handed. */
  lemma DownAdvances(r: Room, t: nat)
    requires Inv(r)
    requires t < |r.plan| && !r.m.threads[t].asleep && Away(r.m.threads[t].pc) && !r.m.threads[t].pc.Outside?
    requires M.DownOn(r.m.threads[t].pc) < |r.m.sem| && r.m.sem[M.DownOn(r.m.threads[t].pc)].value > 0
    ensures Shaped(MonitorStep(r, t)) && Advances(r, MonitorStep(r, t), t)
    ensures Step(r, t, false) == MonitorStep(r, t)
  {
    hide Inv, M.Inv, M.Exec, Work, Begun, M.Typed;
    KnowsOf(r, t);
    StepInv(r, t, false);
    DownExec(r.m, t);
    var r' := MonitorStep(r, t);
    InvShaped(r');
    UpWork(r.state, t, r.plan[t], r.m.threads[t], r.waits[t]);
    forall u | 0 <= u < |r.plan| && u != t
      ensures AdvancesAt(r, r', u)
    {
    }
  }

  // ----- Settling -----

  /** The mutex is free: nobody is in the monitor but for those that wait to be fed. */
  predicate Quiet(r: Room) {
    r.m.sem != [] && r.m.sem[M.MUTEX].value == 1
  }

  /** t is in the monitor, or is about to take the permit that somebody handed over. */
  predicate MayAdvance(r: Room, t: nat) {
    && t < |r.plan| && t < |r.m.threads| && !r.m.threads[t].asleep
    && var s := M.DownOn(r.m.threads[t].pc);
       s < 0 || (1 <= s < |r.m.sem| && r.m.sem[s].value > 0)
  }

  lemma Mover(r: Room) returns (t: nat)
    requires Inv(r) && !Quiet(r)
    ensures MayAdvance(r, t)
  {
    hide Inv, M.Typed;
    InvShaped(r);
    SemsShaped(r);
    t := PermitMover(r.m);
  }

  lemma PermitMover(m: M.Mon) returns (t: nat)
    requires M.Inv(m) && m.sem != [] && m.sem[M.MUTEX].value != 1
    ensures t < |m.threads| && !m.threads[t].asleep
    ensures var s := M.DownOn(m.threads[t].pc); s < 0 || (1 <= s < |m.sem| && m.sem[s].value > 0)
  {
    hide M.QueuesOk, M.KnowledgeOk, M.Typed;
    if M.Size(m.threads, M.Active) > 0 {
      t := M.SizeWitness(m.threads, M.Active);
    } else {
      var s := SumPositive(M.Values(m.sem));
      M.PermitsAtLeast(m, s);
      t := M.SizeWitness(m.threads, M.Ready(s));
    }
  }

  lemma StepAdvances(r: Room, t: nat)
    requires Inv(r) && MayAdvance(r, t)
    ensures Shaped(r) && Advances(r, Step(r, t, false), t)
  {
    hide Inv, M.Inv, M.Exec, Advances, M.Typed;
    KnowsOf(r, t);
    var pc := r.m.threads[t].pc;
    if pc.Body? {
      BodyAdvances(r, t);
    } else if Away(pc) {
      DownAdvances(r, t);
    } else if LocalPc(pc) {
      LocalAdvances(r, t);
    } else {
      UpAdvances(r, t, M.UpOn(pc), M.AfterUp(pc));
    }
  }

  ghost function Total(r: Room): int
    requires Shaped(r)
  {
    Sum(Works(r))
  }

  lemma LessWork(r: Room, r': Room, t: nat)
    requires Advances(r, r', t)
    ensures 0 <= Total(r') < Total(r)
  {
    hide WorkAt, Begun;
    forall u | 0 <= u < |r.plan|
      ensures Works(r')[u] <= Works(r)[u]
    {
      assert AdvancesAt(r, r', u);
    }
    SumNonNegative(Works(r'));
    SumLess(Works(r'), Works(r), t);
  }

  ghost predicate SameQuitters(r: Room, r': Room) {
    |r'.plan| == |r.plan| && forall u :: 0 <= u < |r.plan| ==> (r'.plan[u].Quit? <==> r.plan[u].Quit?)
  }

  lemma AdvancesMeans(r: Room, r': Room, t: nat)
    requires Advances(r, r', t)
    ensures SameQuitters(r, r') && (Calm(r) ==> Calm(r') && Risen(r.state, r'.state))
  {
    hide WorkAt, Begun;
    forall u | 0 <= u < |r.plan|
      ensures r'.plan[u].Quit? <==> r.plan[u].Quit?
      ensures Begun(r.plan[u], r.m.threads[u]) ==> Begun(r'.plan[u], r'.m.threads[u])
    {
      assert AdvancesAt(r, r', u);
    }
  }

  /** Whoever can goes on, until nobody is in the monitor but those that wait to be fed. */
  lemma {:induction false} Settle(r: Room) returns (r': Room)
    requires Inv(r)
    ensures Shaped(r)
    ensures Leads(r, r') && Inv(r') && Quiet(r') && SameQuitters(r, r')
    ensures Calm(r) ==> Risen(r.state, r'.state)
    decreases if Shaped(r) then Total(r) else 0
  {
    hide Inv, Leads, Step, Advances, M.Typed, Begun, Total;
    InvShaped(r);
    if Quiet(r) {
      r' := r;
      LeadsSelf(r);
    } else {
      var t := Mover(r);
      StepInv(r, t, false);
      StepAdvances(r, t);
      LeadsByStep(r, t, false);
      var u := Step(r, t, false);
      LessWork(r, u, t);
      AdvancesMeans(r, u, t);
      r' := Settle(u);
      LeadsOn(r, u, r');
    }
  }

  // ----- From one quiet room to another -----

  /** The permit is in the mutex, so it is nowhere else. */
  lemma OnlyMutex(m: M.Mon, s: nat)
    requires M.Inv(m) && 1 <= s < |m.sem| && m.sem[M.MUTEX].value == 1
    ensures m.sem[s].value == 0
  {
    var values := M.Values(m.sem);
    M.PermitsAtLeast(m, M.MUTEX);
    M.PermitsAtLeast(m, s);
    SumUpdate(values, M.MUTEX, 0);
    SumAtLeast(values[M.MUTEX := 0], s);
  }

  /** In a quiet room everybody thinks or eats outside, or waits hungry, or has quit, and nobody could eat that does not. */
  lemma QuietFacts(r: Room, p: nat)
    requires Inv(r) && Quiet(r) && p < |r.plan|
    ensures Shaped(r) && !MayEat(r.state, p)
    ensures Begun(r.plan[p], r.m.threads[p])
    ensures match r.plan[p]
      case Thinking => r.m.threads[p] == M.Thread(M.Outside, false) && r.state[p] == THINKING
      case Eating => r.m.threads[p] == M.Thread(M.Outside, false) && r.state[p] == EATING
      case TakeLoop => r.state[p] == HUNGRY
      case Quit => r.state[p] == THINKING
      case _ => false
  {
    hide Inv, M.Inv, MayEat, M.Typed;
    KnowsOf(r, p);
    SemsShaped(r);
    OverlookedInv(r, p);
    FreeMutexNobodyInside(r.m, p);
    AsleepAway(r.m);
    if r.m.threads[p].asleep {
      NobodyAsleepOnMutex(r.m, p);
    }
    OnlyMutex(r.m, M.CvSem(p));
    forall h | 0 <= h < |r.plan|
      ensures !Signalling(r.m.threads[h].pc, p)
    {
      FreeMutexNobodyInside(r.m, h);
    }
  }

  lemma QuietCalm(r: Room)
    requires Inv(r) && Quiet(r)
    ensures Shaped(r) && Calm(r)
  {
    hide Inv, M.Typed, Begun;
    InvShaped(r);
    forall u | 0 <= u < |r.plan|
      ensures Begun(r.plan[u], r.m.threads[u])
    {
      QuietFacts(r, u);
    }
  }

  /** Going in and recording the new state. */
  lemma Begins(r: Room, p: nat) returns (r': Room)
    requires Inv(r) && Quiet(r) && p < |r.plan| && (r.plan[p].Thinking? || r.plan[p].Eating?)
    ensures Leads(r, r') && Inv(r') && SameQuitters(r, r')
    ensures Shaped(r') && Calm(r')
    ensures p < |r.state| && r'.state == r.state[p := if r.plan[p].Thinking? then HUNGRY else THINKING]
  {
    hide Inv, M.Inv, Leads, M.Exec, M.Typed;
    QuietFacts(r, p);
    QuietCalm(r);
    SemsShaped(r);
    StepInv(r, p, false);
    LeadsByStep(r, p, false);
    DownExec(r.m, p);
    var u := Step(r, p, false);
    InvShaped(u);
    assert u == MonitorStep(r, p) && u.m.threads == r.m.threads[p := M.Thread(M.Body, false)];
    StepInv(u, p, false);
    LeadsByStep(u, p, false);
    BodyMonitor(u, p);
    r' := Step(u, p, false);
    InvShaped(r');
    LeadsOn(r, u, r');
  }

  /** The same philosophers are there, and of all but t a state may only have gone from HUNGRY to EATING. */
  ghost predicate Frame(r: Room, r': Room, t: nat) {
    && SameQuitters(r, r') && |r.state| == |r'.state| == |r.plan|
    && forall u :: 0 <= u < |r.state| && u != t ==>
         r'.state[u] == r.state[u] || (r.state[u] == HUNGRY && r'.state[u] == EATING)
  }

  /** p goes in, and comes to wait or comes out eating; or it goes in, puts back its forks, and comes out thinking. */
  lemma Visit(r: Room, p: nat) returns (r': Room)
    requires Inv(r) && Quiet(r) && p < |r.plan| && (r.plan[p].Thinking? || r.plan[p].Eating?)
    ensures Leads(r, r') && Inv(r') && Quiet(r') && Frame(r, r', p)
    ensures p < |r'.state| && (r'.state[p] == THINKING <==> r.plan[p].Eating?)
  {
    hide Inv, Leads, Calm, M.Typed, Quiet;
    InvShaped(r);
    var u := Begins(r, p);
    r' := Settle(u);
    InvShaped(r');
    LeadsOn(r, u, r');
  }

  /** It eats and puts its forks back. */
  lemma Finish(r: Room, q: nat) returns (r': Room)
    requires Inv(r) && Quiet(r) && q < |r.plan| && q < |r.state| && r.state[q] == EATING
    ensures Leads(r, r') && Inv(r') && Quiet(r') && Frame(r, r', q)
    ensures q < |r'.plan| && r'.plan[q].Thinking? && r'.state[q] == THINKING
  {
    hide Inv, Leads;
    QuietFacts(r, q);
    r' := Visit(r, q);
    QuietFacts(r', q);
  }

  function Busy(state: seq<State>, q: nat): nat
    requires q < |state|
  {
    if state[q] == THINKING then 0 else 1
  }

  /** While p is hungry a neighbour eats; once both have finished, p is eating. */
  lemma {:induction false} Fed(r: Room, p: nat) returns (r': Room)
    requires Inv(r) && Quiet(r) && p < |r.plan| && p < |r.state| && r.state[p] != THINKING
    ensures Leads(r, r') && Inv(r') && Quiet(r') && SameQuitters(r, r')
    ensures p < |r'.state| == |r'.plan| && r'.state[p] == EATING
    decreases Busy(r.state, Left(|r.state|, p)) + Busy(r.state, Right(|r.state|, p))
  {
    hide Inv, Leads, M.Typed;
    QuietFacts(r, p);
    if r.state[p] == EATING {
      r' := r;
      LeadsSelf(r);
    } else {
      var n := |r.state|;
      var q := if r.state[Left(n, p)] == EATING then Left(n, p) else Right(n, p);
      var u := Finish(r, q);
      r' := Fed(u, p);
      LeadsOn(r, u, r');
    }
  }

  /** From a quiet room p gets its forks. */
  lemma Meal(r: Room, p: nat) returns (r': Room)
    requires Inv(r) && Quiet(r) && p < |r.plan| && !r.plan[p].Quit?
    ensures Leads(r, r') && Inv(r') && Quiet(r') && SameQuitters(r, r')
    ensures p < |r'.state| && r'.plan[p].Eating? && r'.state[p] == EATING
  {
    hide Inv, Leads, M.Typed;
    QuietFacts(r, p);
    var h := r;
    LeadsSelf(r);
    if r.plan[p].Thinking? {
      h := Visit(r, p);
    }
    r' := Fed(h, p);
    LeadsOn(r, h, r');
    QuietFacts(r', p);
  }

  // ----- What every run can still lead to -----

  lemma Continued(n: nat, run: seq<Room>, r': Room) returns (more: seq<Room>)
    requires IsRun(n, run) && Leads(run[|run| - 1], r')
    ensures IsRun(n, run + more) && (run + more)[|run + more| - 1] == r'
  {
    more :| Steps(Next, run[|run| - 1], more) && End(run[|run| - 1], more) == r';
    Extended(Next, run, more);
  }

  lemma {:induction false} RunSize(n: nat, run: seq<Room>, i: nat)
    requires IsRun(n, run) && i < |run|
    ensures |run[i].plan| == n
  {
    if i > 0 {
      RunSize(n, run, i - 1);
      var j := i - 1;
      hide M.Exec, Routine, M.Typed;
      assert Next(run[j], run[j + 1]);
    }
  }

  /** Every run can go on until any given philosopher that has not quit is away with its forks and eats. */
  lemma CanAlwaysEat(n: nat, run: seq<Room>, p: nat) returns (more: seq<Room>)
    requires IsRun(n, run)
    requires p < |run[|run| - 1].plan| && !run[|run| - 1].plan[p].Quit?
    ensures IsRun(n, run + more)
    ensures var r := (run + more)[|run + more| - 1];
      && p < |r.plan| == |r.state| == |r.m.threads| == n && r.plan[p].Eating? && r.state[p] == EATING
      && r.m.threads[p] == M.Thread(M.Outside, false)
  {
    hide Inv, Leads, M.Typed, IsRun;
    var last := LastOf(n, run);
    var u := Settle(last);
    var r' := Meal(u, p);
    LeadsOn(last, u, r');
    more := Continued(n, run, r');
    QuietFacts(r', p);
  }

  lemma LastOf(n: nat, run: seq<Room>) returns (last: Room)
    requires IsRun(n, run)
    ensures run != [] && last == run[|run| - 1] && Inv(last) && |last.plan| == n
  {
    last := run[|run| - 1];
    RunInv(n, run, |run| - 1);
    RunSize(n, run, |run| - 1);
  }

  /** A philosopher that is thinking may leave for good. */
  lemma Quits(r: Room, p: nat) returns (r': Room)
    requires Inv(r) && Quiet(r) && p < |r.plan| && r.plan[p].Thinking?
    ensures Leads(r, r') && Inv(r') && Quiet(r') && |r'.plan| == |r.plan| && r'.plan[p].Quit?
    ensures forall u :: 0 <= u < |r.plan| && u != p ==> (r'.plan[u].Quit? <==> r.plan[u].Quit?)
  {
    hide Inv, Leads, M.Exec, M.Typed;
    QuietFacts(r, p);
    StepInv(r, p, true);
    LeadsByStep(r, p, true);
    r' := Step(r, p, true);
  }

  /** The first k philosophers have eaten their last and quit. */
  lemma {:induction false} AllBelowQuit(r: Room, k: nat) returns (r': Room)
    requires Inv(r) && Quiet(r) && k <= |r.plan|
    ensures Leads(r, r') && Inv(r') && Quiet(r') && |r'.plan| == |r.plan|
    ensures forall u :: 0 <= u < k ==> r'.plan[u].Quit?
  {
    hide Inv, Leads, Quiet;
    if k == 0 {
      r' := r;
      LeadsSelf(r);
    } else {
      var p := k - 1;
      var u := AllBelowQuit(r, p);
      r' := u;
      if !u.plan[p].Quit? {
        var e := Meal(u, p);
        var f := Finish(e, p);
        r' := Quits(f, p);
        LeadsOn(u, e, f);
        LeadsOn(u, f, r');
        LeadsOn(r, u, r');
      }
    }
  }

  /** Every run can go on until all have quit: nobody is ever left without a way out. */
  lemma CanAlwaysEnd(n: nat, run: seq<Room>) returns (more: seq<Room>)
    requires IsRun(n, run)
    ensures IsRun(n, run + more)
    ensures var r := (run + more)[|run + more| - 1];
      |r.plan| == n && forall p :: 0 <= p < n ==> r.plan[p].Quit?
  {
    hide Inv, Leads, M.Typed, IsRun;
    var last := LastOf(n, run);
    var u := Settle(last);
    var r' := AllBelowQuit(u, n);
    LeadsOn(last, u, r');
    more := Continued(n, run, r');
  }
}
