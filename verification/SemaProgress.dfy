/**
 Progress of the dining philosophers with semaphores: from every state of every run, any philosopher
 that has not quit can still get its forks, and all of them can finish.
 */
module SemaProgress {
  import opened Runs
  import opened Table
  import opened PhilosophersSema

  ghost predicate Leads(r: Room, r': Room) {
    Reaches(Next, r, r')
  }

  lemma LeadsSelf(r: Room)
    ensures Leads(r, r)
  {
    ReachesSelf(Next, r);
  }

  lemma LeadsOn(r: Room, u: Room, r': Room)
    requires Leads(r, u) && Leads(u, r')
    ensures Leads(r, r')
  {
    ReachesOn(Next, r, u, r');
  }

  lemma LeadsByStep(r: Room, t: nat, quit: bool)
    requires Shaped(r) && t < |r.threads| && !r.threads[t].asleep
    ensures Leads(r, Exec(r, t, quit))
  {
    hide Exec, Shaped;
    var r' := Exec(r, t, quit);
    assert Next(r, r');
    ReachesSelf(Next, r');
    ReachesNext(Next, r, r', r');
  }

  /** Nobody is inside, and nobody waits to get in. */
  predicate Quiet(r: Room) {
    r.mutex.value == 1
  }

  /** The same philosophers are there, and of all but t a state may only have gone from HUNGRY to EATING. */
  ghost predicate Frame(r: Room, r': Room, t: nat) {
    && |r'.threads| == |r.threads| == |r.state| == |r'.state|
    && (forall u :: 0 <= u < |r.threads| ==> (r'.threads[u].pc.Quit? <==> r.threads[u].pc.Quit?))
    && forall u :: 0 <= u < |r.threads| && u != t ==>
         r'.state[u] == r.state[u] || (r.state[u] == HUNGRY && r'.state[u] == EATING)
  }

  lemma ExecFrame(r: Room, t: nat)
    requires Inv(r) && t < |r.threads| && !r.threads[t].asleep
    ensures Frame(r, Exec(r, t, false), t)
  {
    hide Inv, MutexOk, ForkOk, Noticed, Peaceful;
    KnowsOf(r, t);
  }

  /** How many statements a philosopher inside has at most before it is outside. */
  function Rank(pc: PC): nat {
    match pc
    case SetThinking => 9
    case Test(who) => if who.LeftOne? then 8 else 4
    case SetEating(who) => if who.LeftOne? then 7 else 3
    case UpFork(who) => if who.LeftOne? then 6 else 2
    case SetHungry => 5
    case _ => 1
  }

  /** Where it is then. */
  function Exit(pc: PC): PC {
    match pc
    case SetHungry => DownFork
    case TakeLeave => DownFork
    case Test(who) => if who.Me? then DownFork else TakeEnter
    case SetEating(who) => if who.Me? then DownFork else TakeEnter
    case UpFork(who) => if who.Me? then DownFork else TakeEnter
    case _ => TakeEnter
  }

  /** A statement inside. */
  lemma InsideStep(r: Room, t: nat)
    requires Inv(r) && t < |r.threads| && Inside(r.threads[t])
    requires !r.threads[t].pc.TakeLeave? && !r.threads[t].pc.PutLeave?
    ensures var r', pc := Exec(r, t, false), r.threads[t].pc;
      && t < |r'.threads| && Inside(r'.threads[t])
      && Rank(r'.threads[t].pc) < Rank(pc) && Exit(r'.threads[t].pc) == Exit(pc)
      && r'.mutex == r.mutex
  {
    hide Inv, MutexOk, ForkOk, Noticed, Peaceful, MayEat;
    KnowsOf(r, t);
    if r.threads[t].pc.UpFork? {
      SleeperIsOther(r, t);
    }
  }

  lemma SleeperIsOther(r: Room, t: nat)
    requires Inv(r) && t < |r.threads| && Inside(r.threads[t]) && r.threads[t].pc.UpFork?
    ensures var q := r.s[Who(|r.threads|, t, r.threads[t].pc.who)].queue; q == [] || q[0] != t
  {
    hide Inv, MutexOk, Noticed, Peaceful, MayEat;
    KnowsOf(r, Who(|r.threads|, t, r.threads[t].pc.who));
  }

  /** The statement that lets it out, and the first that waits in. */
  lemma LeaveStep(r: Room, t: nat)
    requires Inv(r) && t < |r.threads| && (r.threads[t].pc.TakeLeave? || r.threads[t].pc.PutLeave?)
    ensures !r.threads[t].asleep
    ensures var r', pc := Exec(r, t, false), r.threads[t].pc;
      && t < |r'.threads| && r'.threads[t] == Thread(Exit(pc), false)
      && (if r.mutex.queue == [] then Quiet(r') else |r'.mutex.queue| < |r.mutex.queue|)
  {
    hide Inv, ForkOk, Noticed, Peaceful;
    KnowsOf(r, t);
    OnlyInside(r, t);
    var q := r.mutex.queue;
    if q != [] {
      assert OnMutex(r.threads[q[0]]);
    }
  }

  /** The philosopher inside goes on until it is outside. */
  lemma {:induction false} Leave(r: Room, t: nat) returns (r': Room)
    requires Inv(r) && t < |r.threads| && Inside(r.threads[t])
    ensures Leads(r, r') && Inv(r') && Frame(r, r', t)
    ensures r'.threads[t] == Thread(Exit(r.threads[t].pc), false)
    ensures if r.mutex.queue == [] then Quiet(r') else |r'.mutex.queue| < |r.mutex.queue|
    decreases Rank(r.threads[t].pc)
  {
    hide Inv, Exec, Leads;
    StepInv(r, t, false);
    ShapeOf(r);
    ExecFrame(r, t);
    LeadsByStep(r, t, false);
    r' := Exec(r, t, false);
    if r.threads[t].pc.TakeLeave? || r.threads[t].pc.PutLeave? {
      LeaveStep(r, t);
    } else {
      InsideStep(r, t);
      var u := r';
      r' := Leave(u, t);
      LeadsOn(r, u, r');
    }
  }

  lemma ShapeOf(r: Room)
    requires Inv(r)
    ensures Shaped(r) && |r.threads| == |r.state| >= 2
  {
  }

  lemma SomebodyInside(r: Room) returns (t: nat)
    requires Inv(r) && !Quiet(r)
    ensures t < |r.threads| && Inside(r.threads[t])
  {
    t :| 0 <= t < |r.threads| && Inside(r.threads[t]);
  }

  /** Whoever is inside leaves, one after the other, until nobody is. */
  lemma {:induction false} Settle(r: Room) returns (r': Room)
    requires Inv(r)
    ensures Leads(r, r') && Inv(r') && Quiet(r') && |r'.threads| == |r.threads|
    ensures forall u :: 0 <= u < |r.threads| ==> (r'.threads[u].pc.Quit? <==> r.threads[u].pc.Quit?)
    decreases |r.mutex.queue|
  {
    hide Inv, Leads, Inside;
    if Quiet(r) {
      r' := r;
      LeadsSelf(r);
    } else {
      var t := SomebodyInside(r);
      var u := Leave(r, t);
      r' := u;
      if r.mutex.queue != [] {
        r' := Settle(u);
        LeadsOn(r, u, r');
      }
    }
  }

  // ----- From one quiet room to another -----

  /** In a quiet room everybody is at a semaphore or has quit, and nobody could eat that does not. */
  lemma QuietFacts(r: Room, p: nat)
    requires Inv(r) && Quiet(r) && p < |r.threads|
    ensures Shaped(r) && |r.threads| >= 2 && r.mutex.queue == [] && !MayEat(r.state, p)
    ensures var th := r.threads[p];
      && (th.pc.TakeEnter? || th.pc.PutEnter? || th.pc.DownFork? || th.pc.Quit?) && (th.asleep ==> th.pc.DownFork?)
      && (th.pc.TakeEnter? || th.pc.Quit? <==> r.state[p] == THINKING)
      && (th.pc.PutEnter? ==> r.state[p] == EATING)
      && (th.pc.DownFork? && r.state[p] == EATING ==> !th.asleep && r.s[p].value == 1)
  {
    assert KnowsState(r.state, p, r.threads[p]) && ForkOk(r, p) && Noticed(r, p);
    forall h | 0 <= h < |r.threads|
      ensures !WillTest(|r.threads|, h, r.threads[h].pc, p) && !GivesTo(|r.threads|, h, r.threads[h].pc, p)
    {
      assert KnowsState(r.state, h, r.threads[h]) && !Inside(r.threads[h]);
    }
    assert !OnMutex(r.threads[p]);
  }

  /** Going down on a free mutex. */
  lemma Enters(r: Room, p: nat)
    requires Inv(r) && Quiet(r) && p < |r.threads| && (r.threads[p].pc.TakeEnter? || r.threads[p].pc.PutEnter?)
    ensures Shaped(r) && !r.threads[p].asleep
    ensures var r' := Exec(r, p, false);
      && p < |r'.threads| && r'.threads[p] == Thread(AfterDown(r.threads[p].pc), false)
      && r'.mutex.queue == [] && r'.state == r.state
  {
    QuietFacts(r, p);
  }

  /** p goes in, and comes out hungry or eating; or it goes in, puts back its forks, and comes out thinking. */
  lemma Visit(r: Room, p: nat) returns (r': Room)
    requires Inv(r) && Quiet(r) && p < |r.threads| && (r.threads[p].pc.TakeEnter? || r.threads[p].pc.PutEnter?)
    ensures Leads(r, r') && Inv(r') && Quiet(r') && Frame(r, r', p)
    ensures r'.threads[p] == Thread(if r.threads[p].pc.TakeEnter? then DownFork else TakeEnter, false)
    ensures r'.state[p] == THINKING <==> r.threads[p].pc.PutEnter?
  {
    hide Inv, Exec, Leads;
    Enters(r, p);
    StepInv(r, p, false);
    ExecFrame(r, p);
    LeadsByStep(r, p, false);
    var u := Exec(r, p, false);
    r' := Leave(u, p);
    LeadsOn(r, u, r');
    QuietFacts(r', p);
  }

  /** A philosopher that is eating by its state takes its forks. */
  lemma GetForks(r: Room, p: nat) returns (r': Room)
    requires Inv(r) && Quiet(r) && p < |r.threads| && r.state[p] == EATING
    ensures Leads(r, r') && Inv(r') && Quiet(r') && Frame(r, r', p)
    ensures r'.threads[p].pc == PutEnter && r'.state[p] == EATING
  {
    hide Inv, Leads;
    QuietFacts(r, p);
    if r.threads[p].pc.PutEnter? {
      r' := r;
      LeadsSelf(r);
    } else {
      StepInv(r, p, false);
      ExecFrame(r, p);
      LeadsByStep(r, p, false);
      r' := Exec(r, p, false);
    }
  }

  /** It takes its forks, eats and puts them back. */
  lemma Finish(r: Room, q: nat) returns (r': Room)
    requires Inv(r) && Quiet(r) && q < |r.threads| && r.state[q] == EATING
    ensures Leads(r, r') && Inv(r') && Quiet(r') && Frame(r, r', q)
    ensures r'.threads[q].pc == TakeEnter && !r'.threads[q].asleep && r'.state[q] == THINKING
  {
    hide Inv, Leads;
    var u := GetForks(r, q);
    r' := Visit(u, q);
    LeadsOn(r, u, r');
  }

  function Busy(r: Room, q: nat): nat
    requires q < |r.state|
  {
    if r.state[q] == THINKING then 0 else 1
  }

  /** While p is hungry a neighbour eats; once both have finished, p is eating. */
  lemma {:induction false} Fed(r: Room, p: nat) returns (r': Room)
    requires Inv(r) && Quiet(r) && p < |r.threads| && r.state[p] != THINKING
    ensures Leads(r, r') && Inv(r') && Quiet(r') && p < |r'.threads| == |r.threads| && r'.state[p] == EATING
    ensures forall u :: 0 <= u < |r.threads| ==> (r'.threads[u].pc.Quit? <==> r.threads[u].pc.Quit?)
    decreases Busy(r, Left(|r.state|, p)) + Busy(r, Right(|r.state|, p))
  {
    hide Inv, Leads;
    QuietFacts(r, p);
    if r.state[p] == EATING {
      r' := r;
      LeadsSelf(r);
    } else {
      var n := |r.state|;
      var q := if r.state[Left(n, p)] == EATING then Left(n, p) else Right(n, p);
      var u := Finish(r, q);
      r' := Fed(u, p);
      LeadsOn(r, u, r');
    }
  }

  /** From a quiet room p gets its forks. */
  lemma Meal(r: Room, p: nat) returns (r': Room)
    requires Inv(r) && Quiet(r) && p < |r.threads| && !r.threads[p].pc.Quit?
    ensures Leads(r, r') && Inv(r') && Quiet(r') && p < |r'.threads| == |r.threads|
    ensures r'.threads[p].pc == PutEnter && r'.state[p] == EATING
    ensures forall u :: 0 <= u < |r.threads| ==> (r'.threads[u].pc.Quit? <==> r.threads[u].pc.Quit?)
  {
    hide Inv, Leads;
    QuietFacts(r, p);
    var h := r;
    LeadsSelf(r);
    if r.threads[p].pc.TakeEnter? {
      h := Visit(r, p);
    }
    QuietFacts(h, p);
    var e := Fed(h, p);
    r' := GetForks(e, p);
    LeadsOn(r, h, e);
    LeadsOn(r, e, r');
  }

  // ----- What every run can still lead to -----

  lemma Continued(n: nat, run: seq<Room>, r': Room) returns (more: seq<Room>)
    requires IsRun(n, run) && Leads(run[|run| - 1], r')
    ensures IsRun(n, run + more) && (run + more)[|run + more| - 1] == r'
  {
    more :| Steps(Next, run[|run| - 1], more) && End(run[|run| - 1], more) == r';
    Extended(Next, run, more);
  }

  lemma {:induction false} RunSize(n: nat, run: seq<Room>, i: nat)
    requires IsRun(n, run) && i < |run|
    ensures |run[i].threads| == n
  {
    if i > 0 {
      RunSize(n, run, i - 1);
      var j := i - 1;
      assert Next(run[j], run[j + 1]);
    }
  }

  /** Every run can go on until any given philosopher that has not quit has its forks and eats. */
  lemma CanAlwaysEat(n: nat, run: seq<Room>, p: nat) returns (more: seq<Room>)
    requires IsRun(n, run)
    requires p < |run[|run| - 1].threads| && !run[|run| - 1].threads[p].pc.Quit?
    ensures IsRun(n, run + more)
    ensures var r := (run + more)[|run + more| - 1];
      p < |r.threads| == |r.state| == n && r.state[p] == EATING && HasForks(r.threads[p].pc) && !r.threads[p].asleep
  {
    hide Inv, Leads;
    var last := run[|run| - 1];
    RunInv(n, run, |run| - 1);
    RunSize(n, run, |run| - 1);
    var u := Settle(last);
    var r' := Meal(u, p);
    LeadsOn(last, u, r');
    more := Continued(n, run, r');
    QuietFacts(r', p);
  }

  /** A philosopher that is thinking may leave for good. */
  lemma Quits(r: Room, p: nat) returns (r': Room)
    requires Inv(r) && Quiet(r) && p < |r.threads| && r.threads[p] == Thread(TakeEnter, false)
    ensures Leads(r, r') && Inv(r') && Quiet(r') && |r'.threads| == |r.threads| && r'.threads[p].pc.Quit?
    ensures forall u :: 0 <= u < |r.threads| && u != p ==> (r'.threads[u].pc.Quit? <==> r.threads[u].pc.Quit?)
  {
    hide Inv, Leads;
    ShapeOf(r);
    StepInv(r, p, true);
    LeadsByStep(r, p, true);
    r' := Exec(r, p, true);
  }

  /** The first k philosophers have eaten their last and quit. */
  lemma {:induction false} AllBelowQuit(r: Room, k: nat) returns (r': Room)
    requires Inv(r) && Quiet(r) && k <= |r.threads|
    ensures Leads(r, r') && Inv(r') && Quiet(r') && |r'.threads| == |r.threads|
    ensures forall u :: 0 <= u < k ==> r'.threads[u].pc.Quit?
  {
    hide Inv, Leads;
    if k == 0 {
      r' := r;
      LeadsSelf(r);
    } else {
      var p := k - 1;
      var u := AllBelowQuit(r, p);
      r' := u;
      if !u.threads[p].pc.Quit? {
        var e := Meal(u, p);
        var f := Finish(e, p);
        r' := Quits(f, p);
        LeadsOn(u, e, f);
        LeadsOn(u, f, r');
        LeadsOn(r, u, r');
      }
    }
  }

  /** Every run can go on until all have quit: nobody is ever left without a way out. */
  lemma CanAlwaysEnd(n: nat, run: seq<Room>) returns (more: seq<Room>)
    requires IsRun(n, run)
    ensures IsRun(n, run + more)
    ensures var r := (run + more)[|run + more| - 1];
      |r.threads| == n && forall p :: 0 <= p < n ==> r.threads[p].pc.Quit?
  {
    hide Inv, Leads;
    var last := run[|run| - 1];
    RunInv(n, run, |run| - 1);
    RunSize(n, run, |run| - 1);
    var u := Settle(last);
    var r' := AllBelowQuit(u, |u.threads|);
    LeadsOn(last, u, r');
    more := Continued(n, run, r');
  }
}
