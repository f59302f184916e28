/**
 The dining philosophers with semaphores: a mutex around the shared states and one
 semaphore per philosopher. Philosopher i is thread i; any number n >= 2 of them run in
 any interleaving, each statement on shared data being one step.
 */
module PhilosophersSema {
  import opened Semaphores
  import opened Table

  datatype PC =
    | TakeEnter              // down(&mutex), thinking until then
    | SetHungry              // state[i] = HUNGRY
    | Test(who: Target)      // the condition of phi_test
    | SetEating(who: Target) //   state[who] = EATING
    | UpFork(who: Target)    //   up(&s[who])
    | TakeLeave              // up(&mutex)
    | DownFork               // down(&s[i])
    | PutEnter               // down(&mutex), eating until then
    | SetThinking            // state[i] = THINKING
    | PutLeave               // up(&mutex)
    | Quit

  datatype Thread = Thread(pc: PC, asleep: bool)

  datatype Room = Room(mutex: Sem, s: seq<Sem>, state: seq<State>, threads: seq<Thread>)

  predicate Shaped(r: Room) {
    && |r.threads| >= 2
    && |r.s| == |r.threads|
    && |r.state| == |r.threads|
    && (forall j :: 0 <= j < |r.mutex.queue| ==> r.mutex.queue[j] < |r.threads|)
  }

  /** Where phi_test goes on to, whether or not its condition held. */
  function AfterTest(who: Target): PC {
    match who
    case Me => TakeLeave
    case LeftOne => Test(RightOne)
    case RightOne => PutLeave
  }

  function AfterDown(pc: PC): PC {
    match pc
    case TakeEnter => SetHungry
    case DownFork => PutEnter
    case PutEnter => SetThinking
    case _ => pc
  }

  // ----- The steps -----

  function Goto(r: Room, t: nat, pc: PC): Room
    requires t < |r.threads|
  {
    r.(threads := r.threads[t := Thread(pc, false)])
  }

  function DownMutex(r: Room, t: nat): Room
    requires t < |r.threads|
  {
    var pc := r.threads[t].pc;
    var th := if r.mutex.value > 0 then Thread(AfterDown(pc), false) else Thread(pc, true);
    r.(mutex := Downed(r.mutex, t), threads := r.threads[t := th])
  }

  function UpMutex(r: Room, t: nat, pc: PC): Room
    requires Shaped(r)
    requires t < |r.threads|
  {
    var q := r.mutex.queue;
    var ths := r.threads[t := Thread(pc, false)];
    r.(mutex := Upped(r.mutex),
       threads := if q == [] then ths else ths[q[0] := Thread(AfterDown(ths[q[0]].pc), false)])
  }

  function DownForkStep(r: Room, t: nat): Room
    requires Shaped(r)
    requires t < |r.threads|
  {
    var th := if r.s[t].value > 0 then Thread(PutEnter, false) else Thread(DownFork, true);
    r.(s := r.s[t := Downed(r.s[t], t)], threads := r.threads[t := th])
  }

  function UpForkStep(r: Room, t: nat, j: nat, pc: PC): Room
    requires Shaped(r)
    requires t < |r.threads| && j < |r.threads|
  {
    var q := r.s[j].queue;
    var ths := r.threads[t := Thread(pc, false)];
    r.(s := r.s[j := Upped(r.s[j])],
       threads := if q == [] || q[0] >= |ths| then ths
                  else ths[q[0] := Thread(AfterDown(ths[q[0]].pc), false)])
  }

  /** One step of philosopher t; `quit` lets it stop after any number of meals. */
  function Exec(r: Room, t: nat, quit: bool): Room
    requires Shaped(r)
    requires t < |r.threads|
  {
    var n := |r.threads|;
    match r.threads[t].pc
    case TakeEnter => if quit then Goto(r, t, Quit) else DownMutex(r, t)
    case SetHungry => Goto(r, t, Test(Me)).(state := r.state[t := HUNGRY])
    case Test(who) => Goto(r, t, if MayEat(r.state, Who(n, t, who)) then SetEating(who) else AfterTest(who))
    case SetEating(who) => Goto(r, t, UpFork(who)).(state := r.state[Who(n, t, who) := EATING])
    case UpFork(who) => UpForkStep(r, t, Who(n, t, who), AfterTest(who))
    case TakeLeave => UpMutex(r, t, DownFork)
    case DownFork => DownForkStep(r, t)
    case PutEnter => DownMutex(r, t)
    case SetThinking => Goto(r, t, Test(LeftOne)).(state := r.state[t := THINKING])
    case PutLeave => UpMutex(r, t, TakeEnter)
    case Quit => r
  }

  function Init(n: nat): Room {
    Room(Sem(1, []), seq(n, _ => Sem(0, [])), seq(n, _ => THINKING), seq(n, _ => Thread(TakeEnter, false)))
  }

  ghost predicate Next(r: Room, r': Room) {
    exists t: nat, quit: bool ::
      Shaped(r) && t < |r.threads| && !r.threads[t].asleep && r' == Exec(r, t, quit)
  }

  ghost predicate IsRun(n: nat, run: seq<Room>) {
    && n >= 2
    && run != []
    && run[0] == Init(n)
    && forall i :: 0 <= i < |run| - 1 ==> Next(run[i], run[i + 1])
  }

  // ----- The invariant -----

  predicate OnMutex(th: Thread) {
    th.asleep && (th.pc.TakeEnter? || th.pc.PutEnter?)
  }

  /** Awake between down(&mutex) and up(&mutex). */
  predicate Inside(th: Thread) {
    && !th.asleep
    && !(th.pc.TakeEnter? || th.pc.PutEnter? || th.pc.DownFork? || th.pc.Quit?)
  }

  ghost predicate MutexOk(r: Room) {
    && 0 <= r.mutex.value <= 1 && Sound(r.mutex)
    && (r.mutex.value == 1 <==> forall t :: 0 <= t < |r.threads| ==> !Inside(r.threads[t]))
    && (forall t, u :: 0 <= t < u < |r.threads| ==> !(Inside(r.threads[t]) && Inside(r.threads[u])))
  }

  predicate QueueOk(q: seq<nat>, ths: seq<Thread>) {
    && (forall j :: 0 <= j < |q| ==> q[j] < |ths| && OnMutex(ths[q[j]]))
    && (forall j, k :: 0 <= j < k < |q| ==> q[j] != q[k])
    && (forall t :: 0 <= t < |ths| && OnMutex(ths[t]) ==> t in q)
  }

  /** What philosopher i knows about the shared states at its program counter. */
  predicate KnowsState(state: seq<State>, i: nat, th: Thread)
    requires i < |state|
  {
    var n := |state|;
    match th.pc
    case TakeEnter => state[i] == THINKING
    case SetHungry => state[i] == THINKING && !th.asleep
    case Test(who) => !th.asleep && state[i] == if who.Me? then HUNGRY else THINKING
    case SetEating(who) => !th.asleep && (!who.Me? ==> state[i] == THINKING) && MayEat(state, Who(n, i, who))
    case UpFork(who) => !th.asleep && (!who.Me? ==> state[i] == THINKING) && state[Who(n, i, who)] == EATING
    case TakeLeave => !th.asleep && state[i] != THINKING
    case DownFork => state[i] != THINKING
    case PutEnter => state[i] == EATING
    case SetThinking => !th.asleep && state[i] == EATING
    case PutLeave => !th.asleep && state[i] == THINKING
    case Quit => !th.asleep && state[i] == THINKING
  }

  /** Somebody is about to up philosopher j's semaphore. */
  ghost predicate Pending(ths: seq<Thread>, j: nat) {
    exists h :: 0 <= h < |ths| && GivesTo(|ths|, h, ths[h].pc, j)
  }

  predicate GivesTo(n: nat, h: nat, pc: PC, j: nat)
    requires h < n
  {
    pc.UpFork? && Who(n, h, pc.who) == j
  }

  predicate HasForks(pc: PC) {
    pc.PutEnter? || pc.SetThinking?
  }

  /**
   Philosopher j's right to eat is one token: it is about to be upped, or in the semaphore,
   or j has taken it. There is a token exactly while its state is EATING.
   */
  ghost predicate ForkOk(r: Room, j: nat)
    requires Shaped(r) && j < |r.threads|
  {
    && Sound(r.s[j])
    && r.s[j].queue == (if r.threads[j] == Thread(DownFork, true) then [j] else [])
    && OneToken(r.s[j].value, Pending(r.threads, j), HasForks(r.threads[j].pc), r.state[j] == EATING)
  }

  /** One token, in the semaphore or pending or taken, while eating; none otherwise. */
  predicate OneToken(value: int, pending: bool, taken: bool, eating: bool) {
    value + (if pending then 1 else 0) + (if taken then 1 else 0) == if eating then 1 else 0
  }

  /** Philosopher h, inside, is still going to test philosopher j. */
  predicate WillTest(n: nat, h: nat, pc: PC, j: nat)
    requires h < n
  {
    match pc
    case Test(who) => Who(n, h, who) == j || (who.LeftOne? && Right(n, h) == j)
    case SetEating(who) => Who(n, h, who) == j || (who.LeftOne? && Right(n, h) == j)
    case UpFork(who) => who.LeftOne? && Right(n, h) == j
    case _ => false
  }

  /** A hungry philosopher with both neighbours not eating is about to be tested. */
  ghost predicate Noticed(r: Room, j: nat)
    requires Shaped(r) && j < |r.threads|
  {
    MayEat(r.state, j) ==> exists h :: 0 <= h < |r.threads| && WillTest(|r.threads|, h, r.threads[h].pc, j)
  }

  ghost predicate Inv(r: Room) {
    && Shaped(r)
    && MutexOk(r)
    && QueueOk(r.mutex.queue, r.threads)
    && Peaceful(r.state)
    && (forall i :: 0 <= i < |r.threads| ==> KnowsState(r.state, i, r.threads[i]))
    && (forall j :: 0 <= j < |r.threads| ==> ForkOk(r, j))
    && (forall j :: 0 <= j < |r.threads| ==> Noticed(r, j))
  }

  lemma InitInv(n: nat)
    requires n >= 2
    ensures Inv(Init(n))
  {
  }

  // ----- Preservation -----

  /** The philosopher inside is alone there; all others are at a down, or have quit. */
  lemma OnlyInside(r: Room, t: nat)
    requires Inv(r)
    requires t < |r.threads| && Inside(r.threads[t])
    ensures r.mutex.value == 0
    ensures forall u :: 0 <= u < |r.threads| && u != t ==> !Inside(r.threads[u]) && Outside(r.threads[u].pc)
  {
    forall u | 0 <= u < |r.threads| && u != t
      ensures !Inside(r.threads[u]) && Outside(r.threads[u].pc)
    {
      assert KnowsState(r.state, u, r.threads[u]);
    }
  }

  predicate Outside(pc: PC) {
    pc.TakeEnter? || pc.PutEnter? || pc.DownFork? || pc.Quit?
  }

  /** When only t can be inside, what is pending and what will be tested is up to t. */
  lemma OnlyPending(ths: seq<Thread>, t: nat)
    requires t < |ths|
    requires forall u :: 0 <= u < |ths| && u != t ==> Outside(ths[u].pc)
    ensures forall j :: Pending(ths, j) <==> GivesTo(|ths|, t, ths[t].pc, j)
  {
  }

  lemma OnlyNoticed(r: Room, t: nat)
    requires Shaped(r)
    requires t < |r.threads|
    requires forall u :: 0 <= u < |r.threads| && u != t ==> Outside(r.threads[u].pc)
    ensures forall j :: 0 <= j < |r.threads| ==>
      (Noticed(r, j) <==> (MayEat(r.state, j) ==> WillTest(|r.threads|, t, r.threads[t].pc, j)))
  {
  }

  lemma MutexStays(r: Room, t: nat, pc: PC)
    requires Inv(r)
    requires t < |r.threads|
    requires Inside(r.threads[t]) && Inside(Thread(pc, false))
    ensures MutexOk(Goto(r, t, pc))
    ensures QueueOk(r.mutex.queue, Goto(r, t, pc).threads)
  {
    var ths := Goto(r, t, pc).threads;
    assert Inside(ths[t]);
  }

  /** What every step of the philosopher inside may use. */
  lemma InsideFacts(r: Room, t: nat)
    requires Inv(r)
    requires t < |r.threads| && Inside(r.threads[t])
    ensures Shaped(r) && Peaceful(r.state)
    ensures KnowsState(r.state, t, r.threads[t])
    ensures forall u :: 0 <= u < |r.threads| && u != t ==> Outside(r.threads[u].pc)
    ensures forall u :: 0 <= u < |r.threads| ==> KnowsState(r.state, u, r.threads[u])
    ensures Tokens(r, t)
    ensures forall j :: 0 <= j < |r.threads| && MayEat(r.state, j) ==>
      WillTest(|r.threads|, t, r.threads[t].pc, j)
  {
    OnlyInside(r, t);
    OnlyPending(r.threads, t);
    OnlyNoticed(r, t);
    hide Pending, WillTest, MutexOk, QueueOk, Peaceful;
    forall j | 0 <= j < |r.threads|
      ensures r.s[j].value >= 0
      ensures OneToken(r.s[j].value, GivesTo(|r.threads|, t, r.threads[t].pc, j),
                HasForks(r.threads[j].pc), r.state[j] == EATING)
      ensures MayEat(r.state, j) ==> WillTest(|r.threads|, t, r.threads[t].pc, j)
    {
      assert Noticed(r, j) && ForkOk(r, j);
    }
  }

  /** Everybody's token, when only philosopher t can be about to up somebody's semaphore. */
  ghost predicate Tokens(r: Room, t: nat)
    requires Shaped(r) && t < |r.threads|
  {
    forall j :: 0 <= j < |r.threads| ==>
      && r.s[j].value >= 0
      && OneToken(r.s[j].value, GivesTo(|r.threads|, t, r.threads[t].pc, j),
                  HasForks(r.threads[j].pc), r.state[j] == EATING)
  }

  /** A step of the philosopher inside that moves its program counter and perhaps some states. */
  ghost predicate InsideMove(r: Room, r': Room, t: nat, pc: PC) {
    && Shaped(r) && Shaped(r')
    && t < |r.threads| && Inside(r.threads[t]) && Inside(Thread(pc, false))
    && r'.mutex == r.mutex && r'.s == r.s && r'.threads == r.threads[t := Thread(pc, false)]
    && Peaceful(r'.state)
    && KnowsState(r'.state, t, Thread(pc, false))
    && (forall j :: 0 <= j < |r.threads| && r'.state[j] != r.state[j] && j != t ==>
        r.state[j] == HUNGRY && r'.state[j] == EATING)
    && Tokens(r', t)
    && (forall j :: 0 <= j < |r.threads| && MayEat(r'.state, j) ==> WillTest(|r.threads|, t, pc, j))
  }

  lemma InsideStepForks(r: Room, r': Room, t: nat, pc: PC)
    requires Inv(r) && InsideMove(r, r', t, pc)
    ensures forall j :: 0 <= j < |r.threads| ==> ForkOk(r', j) && Noticed(r', j)
  {
    InsideFacts(r, t);
    OnlyPending(r'.threads, t);
    OnlyNoticed(r', t);
    hide Pending, Noticed, WillTest, MutexOk, QueueOk, Peaceful, GivesTo, HasForks, KnowsState, MayEat, OneToken;
    forall j | 0 <= j < |r.threads|
      ensures ForkOk(r', j) && Noticed(r', j)
    {
      assert ForkOk(r, j);
      assert MayEat(r'.state, j) ==> WillTest(|r.threads|, t, pc, j);
    }
  }

  lemma InsideStep(r: Room, r': Room, t: nat, pc: PC)
    requires Inv(r) && InsideMove(r, r', t, pc)
    ensures Inv(r')
  {
    InsideFacts(r, t);
    MutexStays(r, t, pc);
    InsideStepForks(r, r', t, pc);
    hide MutexOk, QueueOk, Peaceful, Tokens, ForkOk, Noticed, WillTest, MayEat, KnowsState;
    forall j | 0 <= j < |r.threads|
      ensures KnowsState(r'.state, j, r'.threads[j])
    {
      assert KnowsState(r.state, j, r.threads[j]);
      if j != t {
        KnowsOutside(r.state, r'.state, j, r.threads[j]);
      }
    }
  }

  lemma KnowsOutside(state: seq<State>, state': seq<State>, u: nat, th: Thread)
    requires u < |state| == |state'|
    requires Outside(th.pc) && KnowsState(state, u, th)
    requires state'[u] == state[u] || (state[u] == HUNGRY && state'[u] == EATING)
    ensures KnowsState(state', u, th)
  {
  }

  lemma TestInv(r: Room, t: nat, quit: bool)
    requires Inv(r)
    requires t < |r.threads| && r.threads[t].pc.Test?
    ensures Inv(Exec(r, t, quit))
  {
    assert KnowsState(r.state, t, r.threads[t]);
    InsideFacts(r, t);
    hide Inv, Pending, Peaceful;
    var r' := Exec(r, t, quit);
    InsideStep(r, r', t, r'.threads[t].pc);
  }

  lemma SetHungryInv(r: Room, t: nat, quit: bool)
    requires Inv(r)
    requires t < |r.threads| && r.threads[t].pc.SetHungry?
    ensures Inv(Exec(r, t, quit))
  {
    assert KnowsState(r.state, t, r.threads[t]);
    InsideFacts(r, t);
    hide Inv, Pending, Peaceful;
    var n, pc := |r.threads|, r.threads[t].pc;
    var r' := Exec(r, t, quit);
    forall j | 0 <= j < |r.threads| && MayEat(r'.state, j)
      ensures WillTest(|r.threads|, t, Test(Me), j)
    {
      assert !MayEat(r.state, j) || WillTest(n, t, pc, j);
    }
    InsideStep(r, r', t, Test(Me));
  }

  lemma SetThinkingInv(r: Room, t: nat, quit: bool)
    requires Inv(r)
    requires t < |r.threads| && r.threads[t].pc.SetThinking?
    ensures Inv(Exec(r, t, quit))
  {
    assert KnowsState(r.state, t, r.threads[t]);
    InsideFacts(r, t);
    hide Inv, Pending, Peaceful;
    StopEating(r.state, t);
    var n, pc := |r.threads|, r.threads[t].pc;
    var r' := Exec(r, t, quit);
    forall j | 0 <= j < |r.threads| && MayEat(r'.state, j)
      ensures WillTest(|r.threads|, t, Test(LeftOne), j)
    {
      assert !MayEat(r.state, j) || WillTest(n, t, pc, j);
    }
    InsideStep(r, r', t, Test(LeftOne));
  }

  lemma SetEatingInv(r: Room, t: nat, quit: bool)
    requires Inv(r)
    requires t < |r.threads| && r.threads[t].pc.SetEating?
    ensures Inv(Exec(r, t, quit))
  {
    hide Inv, Pending, Peaceful, Tokens, MayEat;
    KnowsOf(r, t);
    InsideFacts(r, t);
    var who := r.threads[t].pc.who;
    StartEating(r.state, Who(|r.threads|, t, who));
    SetEatingTokens(r, t);
    var r' := Exec(r, t, quit);
    forall j | 0 <= j < |r.threads| && MayEat(r'.state, j)
      ensures WillTest(|r.threads|, t, UpFork(who), j)
    {
      assert MayEat(r.state, j) ==> WillTest(|r.threads|, t, r.threads[t].pc, j);
    }
    MayEatHungry(r.state, Who(|r.threads|, t, who));
    InsideStep(r, r', t, UpFork(who));
  }

  lemma MayEatHungry(state: seq<State>, i: nat)
    requires i < |state| && MayEat(state, i)
    ensures state[i] == HUNGRY
  {
  }

  /** Who starts to eat gets the token that is about to be upped. */
  lemma SetEatingTokens(r: Room, t: nat)
    requires Shaped(r) && t < |r.threads| && r.threads[t].pc.SetEating? && Tokens(r, t)
    requires KnowsState(r.state, t, r.threads[t])
    ensures var who := r.threads[t].pc.who;
      Tokens(Goto(r, t, UpFork(who)).(state := r.state[Who(|r.threads|, t, who) := EATING]), t)
  {
  }

  lemma UpForkInv(r: Room, t: nat, quit: bool)
    requires Inv(r)
    requires t < |r.threads| && r.threads[t].pc.UpFork?
    ensures Inv(Exec(r, t, quit))
  {
    hide Noticed, MutexOk, QueueOk, Peaceful, ForkOk, Pending, Tokens, KnowsState, MayEat;
    var r' := Exec(r, t, quit);
    UpForkInside(r, t);
    UpForkMutex(r, t, Who(|r.threads|, t, r.threads[t].pc.who), AfterTest(r.threads[t].pc.who));
    forall j | 0 <= j < |r.threads|
      ensures ForkOk(r', j) && Noticed(r', j) && KnowsState(r'.state, j, r'.threads[j])
    {
      UpForkKnows(r, t, j);
    }
  }

  lemma UpForkInside(r: Room, t: nat)
    requires Inv(r)
    requires t < |r.threads| && r.threads[t].pc.UpFork?
    ensures Inside(r.threads[t])
  {
    hide Inv;
    KnowsOf(r, t);
  }

  lemma UpForkKnows(r: Room, t: nat, j: nat)
    requires Inv(r)
    requires t < |r.threads| && r.threads[t].pc.UpFork?
    requires j < |r.threads|
    ensures Shaped(r)
    ensures var who := r.threads[t].pc.who;
      var r' := UpForkStep(r, t, Who(|r.threads|, t, who), AfterTest(who));
      Shaped(r') && ForkOk(r', j) && Noticed(r', j) && KnowsState(r'.state, j, r'.threads[j])
  {
    hide Inv, MutexOk, QueueOk, Peaceful, ForkOk, Pending, Tokens;
    UpForkInside(r, t);
    InsideFacts(r, t);
    KnowsOf(r, j);
    var n, who := |r.threads|, r.threads[t].pc.who;
    var e := Who(n, t, who);
    UpForkToken(r, t, e, AfterTest(who), t);
    UpForkToken(r, t, e, AfterTest(who), j);
    OnlyNoticed(UpForkStep(r, t, e, AfterTest(who)), t);
    assert MayEat(r.state, j) ==> WillTest(n, t, r.threads[t].pc, j);
  }

  lemma UpForkToken(r: Room, t: nat, e: nat, pc: PC, j: nat)
    requires Inv(r)
    requires t < |r.threads| && e < |r.threads| && j < |r.threads|
    requires r.threads[t].pc.UpFork? && Who(|r.threads|, t, r.threads[t].pc.who) == e
    requires Inside(r.threads[t]) && Inside(Thread(pc, false)) && !pc.UpFork? && !HasForks(pc)
    ensures var r' := UpForkStep(r, t, e, pc);
      && Shaped(r') && ForkOk(r', j)
      && r'.threads[t] == Thread(pc, false)
      && (forall u :: 0 <= u < |r.threads| && u != t ==> Outside(r'.threads[u].pc))
      && (j != t && r'.threads[j] != r.threads[j] ==>
          j == e && r.threads[j].pc.DownFork? && r'.threads[j] == Thread(PutEnter, false))
  {
    hide Pending, Noticed, MutexOk, QueueOk, Peaceful, KnowsState, MayEat, WillTest, Tokens;
    var r' := UpForkStep(r, t, e, pc);
    InsideFacts(r, t);
    assert ForkOk(r, e) && ForkOk(r, j);
    OnlyPending(r.threads, t);
    OnlyPending(r'.threads, t);
  }

  /** Waking philosopher e from its own semaphore leaves the mutex and its queue alone. */
  lemma UpForkMutex(r: Room, t: nat, e: nat, pc: PC)
    requires Inv(r)
    requires t < |r.threads| && e < |r.threads|
    requires Inside(r.threads[t]) && Inside(Thread(pc, false))
    ensures MutexOk(UpForkStep(r, t, e, pc))
    ensures QueueOk(r.mutex.queue, UpForkStep(r, t, e, pc).threads)
  {
    assert ForkOk(r, e);
    MutexStays(r, t, pc);
    var ths := UpForkStep(r, t, e, pc).threads;
    assert Inside(ths[t]);
  }

  lemma DownForkInv(r: Room, t: nat, quit: bool)
    requires Inv(r)
    requires t < |r.threads| && r.threads[t] == Thread(DownFork, false)
    ensures Inv(Exec(r, t, quit))
  {
    hide ForkOk, Noticed, KnowsState, MutexOk, QueueOk, Peaceful, MayEat;
    var r' := Exec(r, t, quit);
    DownForkMutex(r, r', t);
    forall j | 0 <= j < |r.threads|
      ensures ForkOk(r', j) && Noticed(r', j) && KnowsState(r'.state, j, r'.threads[j])
    {
      DownForkKnows(r, t, j);
    }
  }

  /** Taking its forks, or falling asleep for them, philosopher t leaves the token and everybody's tests as they are. */
  lemma DownForkKnows(r: Room, t: nat, j: nat)
    requires Inv(r)
    requires t < |r.threads| && r.threads[t] == Thread(DownFork, false)
    requires j < |r.threads|
    ensures Shaped(r)
    ensures var r' := DownForkStep(r, t);
      Shaped(r') && ForkOk(r', j) && Noticed(r', j) && KnowsState(r'.state, j, r'.threads[j])
  {
    hide Inv, MutexOk, QueueOk, Peaceful, MayEat;
    KnowsOf(r, t);
    KnowsOf(r, j);
    var n, r' := |r.threads|, DownForkStep(r, t);
    assert forall h :: 0 <= h < n ==>
      GivesTo(n, h, r'.threads[h].pc, j) == GivesTo(n, h, r.threads[h].pc, j)
      && WillTest(n, h, r'.threads[h].pc, j) == WillTest(n, h, r.threads[h].pc, j);
  }

  lemma DownForkMutex(r: Room, r': Room, t: nat)
    requires Inv(r)
    requires t < |r.threads| && r.threads[t] == Thread(DownFork, false)
    requires r'.mutex == r.mutex && |r'.threads| == |r.threads|
    requires forall u :: 0 <= u < |r.threads| && u != t ==> r'.threads[u] == r.threads[u]
    requires r'.threads[t] == Thread(PutEnter, false) || r'.threads[t] == Thread(DownFork, true)
    ensures MutexOk(r') && QueueOk(r'.mutex.queue, r'.threads)
  {
    assert forall u :: 0 <= u < |r.threads| ==> Inside(r'.threads[u]) == Inside(r.threads[u]);
    assert forall u :: 0 <= u < |r.threads| ==> OnMutex(r'.threads[u]) == OnMutex(r.threads[u]);
  }

  /** A thread that moves from th to th' without touching a fork or owing anybody a test. */
  predicate SameRole(state: seq<State>, u: nat, th: Thread, th': Thread)
    requires u < |state|
  {
    && th != Thread(DownFork, true) && th' != Thread(DownFork, true)
    && HasForks(th.pc) == HasForks(th'.pc)
    && KnowsState(state, u, th')
    && !th.pc.UpFork? && !th'.pc.UpFork?
    && !th.pc.Test? && !th.pc.SetEating?
  }

  /** Steps at the mutex leave what is known about states and forks alone. */
  lemma SameForks(r: Room, r': Room)
    requires Inv(r)
    requires |r'.threads| == |r.threads|
    requires r'.s == r.s && r'.state == r.state && Shaped(r')
    requires forall u :: 0 <= u < |r.threads| ==>
      r'.threads[u] == r.threads[u] || SameRole(r.state, u, r.threads[u], r'.threads[u])
    ensures forall j :: 0 <= j < |r.threads| ==>
      ForkOk(r', j) && Noticed(r', j) && KnowsState(r'.state, j, r'.threads[j])
  {
    hide MutexOk, QueueOk, Peaceful, MayEat, KnowsState;
    var n := |r.threads|;
    forall j | 0 <= j < n
      ensures ForkOk(r', j) && Noticed(r', j) && KnowsState(r'.state, j, r'.threads[j])
    {
      assert ForkOk(r, j) && Noticed(r, j) && KnowsState(r.state, j, r.threads[j]);
      assert forall h :: 0 <= h < n ==>
        GivesTo(n, h, r'.threads[h].pc, j) == GivesTo(n, h, r.threads[h].pc, j)
        && (WillTest(n, h, r.threads[h].pc, j) ==> WillTest(n, h, r'.threads[h].pc, j));
      hide GivesTo, WillTest;
    }
  }

  /** A step at the mutex that keeps the mutex in order keeps everything. */
  lemma MutexMoveInv(r: Room, r': Room)
    requires Inv(r)
    requires |r'.threads| == |r.threads|
    requires r'.s == r.s && r'.state == r.state && Shaped(r')
    requires MutexOk(r') && QueueOk(r'.mutex.queue, r'.threads)
    requires forall u :: 0 <= u < |r.threads| ==>
      r'.threads[u] == r.threads[u] || SameRole(r.state, u, r.threads[u], r'.threads[u])
    ensures Inv(r')
  {
    hide ForkOk, Noticed, Peaceful, MutexOk, QueueOk, KnowsState, SameRole;
    SameForks(r, r');
  }

  lemma KnowsOf(r: Room, i: nat)
    requires Inv(r)
    requires i < |r.threads|
    ensures Shaped(r) && Peaceful(r.state) && MutexOk(r) && QueueOk(r.mutex.queue, r.threads)
    ensures KnowsState(r.state, i, r.threads[i]) && ForkOk(r, i) && Noticed(r, i)
  {
  }

  lemma DownMutexInv(r: Room, t: nat)
    requires Inv(r)
    requires t < |r.threads| && !r.threads[t].asleep
    requires r.threads[t].pc.TakeEnter? || r.threads[t].pc.PutEnter?
    ensures Inv(DownMutex(r, t))
  {
    hide Inv, ForkOk, Noticed, Peaceful, MutexOk, QueueOk;
    KnowsOf(r, t);
    DownMutexQueue(r, t);
    MutexMoveInv(r, DownMutex(r, t));
  }

  lemma DownMutexQueue(r: Room, t: nat)
    requires Inv(r)
    requires t < |r.threads| && !r.threads[t].asleep
    requires r.threads[t].pc.TakeEnter? || r.threads[t].pc.PutEnter?
    ensures var r' := DownMutex(r, t);
      MutexOk(r') && QueueOk(r'.mutex.queue, r'.threads) && Shaped(r')
  {
    var r' := DownMutex(r, t);
    var q := r.mutex.queue;
    assert t !in q;
    if r.mutex.value > 0 {
      assert Inside(r'.threads[t]);
    } else {
      assert r'.mutex.queue == q + [t] && r'.mutex.queue[|q|] == t;
      assert forall u :: u in q ==> u in r'.mutex.queue;
      assert forall u :: 0 <= u < |r.threads| ==> Inside(r'.threads[u]) == Inside(r.threads[u]);
    }
  }

  lemma UpMutexInv(r: Room, t: nat, pc: PC)
    requires Inv(r)
    requires t < |r.threads|
    requires (r.threads[t].pc.TakeLeave? && pc == DownFork) || (r.threads[t].pc.PutLeave? && pc == TakeEnter)
    ensures Inv(UpMutex(r, t, pc))
  {
    hide Inv, ForkOk, Noticed, Peaceful, MutexOk, QueueOk, SameRole, UpMutex;
    KnowsOf(r, t);
    UpMutexQueue(r, t, pc);
    UpMutexRoles(r, t, pc);
    MutexMoveInv(r, UpMutex(r, t, pc));
  }

  /** The philosopher that leaves and the one that is woken keep their roles. */
  lemma UpMutexRoles(r: Room, t: nat, pc: PC)
    requires Inv(r)
    requires t < |r.threads|
    requires (r.threads[t].pc.TakeLeave? && pc == DownFork) || (r.threads[t].pc.PutLeave? && pc == TakeEnter)
    ensures Shaped(r)
    ensures var r' := UpMutex(r, t, pc);
      && |r'.threads| == |r.threads| && r'.s == r.s && r'.state == r.state
      && forall u :: 0 <= u < |r.threads| ==>
           r'.threads[u] == r.threads[u] || SameRole(r.state, u, r.threads[u], r'.threads[u])
  {
    hide Inv, ForkOk, Noticed, Peaceful, MutexOk;
    KnowsOf(r, t);
    var q := r.mutex.queue;
    if q != [] {
      assert OnMutex(r.threads[q[0]]);
      KnowsOf(r, q[0]);
    }
  }

  lemma UpMutexQueue(r: Room, t: nat, pc: PC)
    requires Inv(r)
    requires t < |r.threads| && Inside(r.threads[t]) && (pc == DownFork || pc == TakeEnter)
    ensures var r' := UpMutex(r, t, pc);
      MutexOk(r') && QueueOk(r'.mutex.queue, r'.threads) && Shaped(r')
  {
    OnlyInside(r, t);
    hide KnowsState, ForkOk, Noticed, Peaceful;
    var r' := UpMutex(r, t, pc);
    var q := r.mutex.queue;
    var ths := r.threads[t := Thread(pc, false)];
    assert QueueOk(q, ths);
    if q != [] {
      QueuePop(q, ths);
      assert Inside(r'.threads[q[0]]);
    }
  }

  lemma QueuePop(q: seq<nat>, ths: seq<Thread>)
    requires QueueOk(q, ths)
    requires q != []
    ensures q[0] < |ths| && Inside(Thread(AfterDown(ths[q[0]].pc), false))
    ensures QueueOk(q[1..], ths[q[0] := Thread(AfterDown(ths[q[0]].pc), false)])
  {
    assert OnMutex(ths[q[0]]);
    assert q == [q[0]] + q[1..];
    forall u | 0 <= u < |ths| && OnMutex(ths[u]) && u != q[0]
      ensures u in q[1..]
    {
      assert u in q;
    }
  }

  lemma QuitInv(r: Room, t: nat)
    requires Inv(r)
    requires t < |r.threads| && r.threads[t] == Thread(TakeEnter, false)
    ensures Inv(Goto(r, t, Quit))
  {
    hide Inv, ForkOk, Noticed, Peaceful;
    KnowsOf(r, t);
    var r' := Goto(r, t, Quit);
    assert forall u :: 0 <= u < |r.threads| ==> Inside(r'.threads[u]) == Inside(r.threads[u]);
    assert forall u :: 0 <= u < |r.threads| ==> OnMutex(r'.threads[u]) == OnMutex(r.threads[u]);
    MutexMoveInv(r, r');
  }

  /** Every step of every philosopher keeps the invariant. */
  lemma StepInv(r: Room, t: nat, quit: bool)
    requires Inv(r)
    requires t < |r.threads| && !r.threads[t].asleep
    ensures Inv(Exec(r, t, quit))
  {
    assert Shaped(r);
    hide Inv;
    match r.threads[t].pc {
      case TakeEnter => if quit { QuitInv(r, t); } else { DownMutexInv(r, t); }
      case SetHungry => SetHungryInv(r, t, quit);
      case Test(_) => TestInv(r, t, quit);
      case SetEating(_) => SetEatingInv(r, t, quit);
      case UpFork(_) => UpForkInv(r, t, quit);
      case TakeLeave => UpMutexInv(r, t, DownFork);
      case DownFork => DownForkInv(r, t, quit);
      case PutEnter => DownMutexInv(r, t);
      case SetThinking => SetThinkingInv(r, t, quit);
      case PutLeave => UpMutexInv(r, t, TakeEnter);
      case Quit =>
    }
  }

  lemma {:induction false} RunInv(n: nat, run: seq<Room>, i: nat)
    requires IsRun(n, run)
    requires i < |run|
    ensures Inv(run[i])
  {
    hide Inv, Init, Exec;
    if i == 0 {
      InitInv(n);
    } else {
      RunInv(n, run, i - 1);
      var j := i - 1;
      assert Next(run[j], run[j + 1]);
      var t: nat, quit: bool :|
        Shaped(run[j]) && t < |run[j].threads| && !run[j].threads[t].asleep && run[j + 1] == Exec(run[j], t, quit);
      StepInv(run[j], t, quit);
    }
  }

  // ----- What holds on every run -----

  /** Two neighbours are never both eating, neither by their recorded states nor in fact. */
  lemma NeighboursNeverBothEat(n: nat, run: seq<Room>, i: nat, p: nat)
    requires IsRun(n, run)
    requires i < |run| && p < |run[i].threads|
    ensures Shaped(run[i])
    ensures var q := Right(|run[i].threads|, p);
      && !(run[i].state[p] == EATING && run[i].state[q] == EATING)
      && !(HasForks(run[i].threads[p].pc) && HasForks(run[i].threads[q].pc))
  {
    RunInv(n, run, i);
    var r := run[i];
    var q := Right(|r.threads|, p);
    assert KnowsState(r.state, p, r.threads[p]) && KnowsState(r.state, q, r.threads[q]);
  }

  /** Whenever the mutex is free, every hungry philosopher has a neighbour that is eating. */
  lemma NoHungryOverlooked(n: nat, run: seq<Room>, i: nat, p: nat)
    requires IsRun(n, run)
    requires i < |run| && p < |run[i].threads|
    requires run[i].mutex.value == 1
    ensures Shaped(run[i]) && !MayEat(run[i].state, p)
  {
    RunInv(n, run, i);
    var r := run[i];
    assert Noticed(r, p);
    forall h | 0 <= h < |r.threads|
      ensures !WillTest(|r.threads|, h, r.threads[h].pc, p)
    {
      assert KnowsState(r.state, h, r.threads[h]) && !Inside(r.threads[h]);
    }
  }

  lemma NotEatingAsleep(r: Room, p: nat)
    requires Inv(r)
    requires forall t :: 0 <= t < |r.threads| ==> r.threads[t].asleep || r.threads[t].pc.Quit?
    requires p < |r.threads|
    ensures r.mutex.value == 1
    ensures r.state[p] != EATING
    ensures !r.threads[p].pc.Quit? ==> r.state[p] == HUNGRY
  {
    assert r.mutex.value == 1;
    assert r.mutex.queue == [];
    assert KnowsState(r.state, p, r.threads[p]) && ForkOk(r, p);
    assert !OnMutex(r.threads[p]);
    forall h | 0 <= h < |r.threads|
      ensures !GivesTo(|r.threads|, h, r.threads[h].pc, p)
    {
      assert KnowsState(r.state, h, r.threads[h]);
    }
  }

  /** Deadlock freedom: if everybody is asleep or has quit, everybody has quit. */
  lemma NeverDeadlocked(n: nat, run: seq<Room>, i: nat)
    requires IsRun(n, run)
    requires i < |run|
    requires forall p :: 0 <= p < |run[i].threads| ==> run[i].threads[p].asleep || run[i].threads[p].pc.Quit?
    ensures forall p :: 0 <= p < |run[i].threads| ==> run[i].threads[p].pc.Quit?
  {
    var r := run[i];
    RunInv(n, run, i);
    forall p | 0 <= p < |r.threads|
      ensures r.threads[p].pc.Quit?
    {
      NotEatingAsleep(r, p);
      NotEatingAsleep(r, Left(|r.threads|, p));
      NotEatingAsleep(r, Right(|r.threads|, p));
      NoHungryOverlooked(n, run, i, p);
    }
  }
}
