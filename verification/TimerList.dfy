/** The kernel's timer list: timer objects whose `expires` field holds a distance, edited in place. */
module TimerList {
  import opened Sequences
  import opened TimerQueue

  const UINT_MAX: nat := 0xFFFF_FFFF

  class Timer {
    var expires: nat

    constructor (expires: nat)
      ensures this.expires == expires
    {
      this.expires := expires;
    }
  }

  /** The delta list that the timers' fields spell. */
  ghost function Entries(timers: seq<Timer>): (list: seq<Entry<Timer>>)
    reads timers
    ensures |list| == |timers|
  {
    seq(|timers|, (i: nat) requires i < |timers| reads timers => Entry(timers[i], timers[i].expires))
  }

  lemma DistinctRemove(timers: seq<Timer>, i: nat)
    requires Distinct(timers) && i < |timers|
    ensures Distinct(RemoveAt(timers, i))
  {
  }

  lemma DistinctInsert(timers: seq<Timer>, i: nat, timer: Timer)
    requires Distinct(timers) && timer !in timers && i <= |timers|
    ensures Distinct(InsertAt(timers, i, timer))
  {
  }

  lemma DistinctSuffix(timers: seq<Timer>, k: nat)
    requires Distinct(timers) && k <= |timers|
    ensures Distinct(timers[k..])
  {
  }

  lemma OnlyPlace(timers: seq<Timer>, i: nat)
    requires Distinct(timers) && i < |timers|
    ensures forall j :: 0 <= j < |timers| && j != i ==> timers[j] != timers[i]
  {
  }

  /** Where timer is linked into the list, or the length if it is not. */
  function Position(timers: seq<Timer>, timer: Timer): (i: nat)
    ensures i <= |timers|
    ensures i < |timers| <==> timer in timers
    ensures i < |timers| ==> timers[i] == timer
  {
    if timers == [] || timers[0] == timer then 0 else 1 + Position(timers[1..], timer)
  }

  lemma InsertedEntries(timers: seq<Timer>, i: nat, timer: Timer)
    requires i <= |timers|
    ensures Entries(InsertAt(timers, i, timer)) == InsertAt(Entries(timers), i, Entry(timer, timer.expires))
  {
  }

  /** The delta list with a timer put in before entry i, which is that much closer to it. */
  function Spliced(list: seq<Entry<Timer>>, i: nat, timer: Timer, ticks: nat): seq<Entry<Timer>>
    requires i <= |list| && (i < |list| ==> ticks < list[i].delta)
  {
    InsertAt(if i < |list| then list[i := Entry(list[i].id, list[i].delta - ticks)] else list, i, Entry(timer, ticks))
  }

  /** It is the delta list after add_timer stopped before entry i with `ticks` left. */
  lemma SplicedIsAdded(list: seq<Entry<Timer>>, i: nat, timer: Timer, ticks: nat)
    requires i <= |list| && (i < |list| ==> ticks < list[i].delta)
    ensures Spliced(list, i, timer, ticks) == list[..i] + Added(list[i..], timer, ticks)
  {
    hide Added;
    AddedStop(list, i, timer, ticks);
  }

  /** Where add_timer stops: the timer is in its place, and still nothing is due now or too late. */
  lemma Placed(list: seq<Entry<Timer>>, i: nat, timer: Timer, ticks: nat, left: nat)
    requires i <= |list| && (i < |list| ==> left < list[i].delta)
    requires 0 < ticks <= UINT_MAX && (list != [] ==> list[0].delta > 0) && (i == 0 ==> left == ticks)
    requires list[..0] + Added(list[0..], timer, ticks) == list[..i] + Added(list[i..], timer, left)
    requires forall d :: d in Dues(list, 0) ==> d.ticks <= UINT_MAX
    ensures var e := Spliced(list, i, timer, left);
      && Dues(e, 0) == Insert(Dues(list, 0), timer, ticks)
      && e[0].delta > 0
      && forall d :: d in Dues(e, 0) ==> d.ticks <= UINT_MAX
  {
    hide Dues, Insert, Added;
    SplicedIsAdded(list, i, timer, left);
    AddedMeaning(list, 0, timer, ticks);
    assert list[0..] == list && list[..0] + Added(list, timer, ticks) == Added(list, timer, ticks);
    InsertMembers(Dues(list, 0), timer, ticks);
  }

  class List {
    var timers: seq<Timer>

    /** The pending timers with the ticks until they are due. */
    ghost function Pending(): seq<Due<Timer>>
      reads this, timers
    {
      Dues(Entries(timers), 0)
    }

    /** Between ticks nothing is due yet, and no due time is beyond what an unsigned int holds. */
    ghost predicate Valid()
      reads this, timers
    {
      && Distinct(timers)
      && (timers != [] ==> timers[0].expires > 0)
      && (forall d :: d in Pending() ==> d.ticks <= UINT_MAX)
    }

    constructor ()
      ensures Valid() && Pending() == []
    {
      timers := [];
    }

    /** add_timer */
    method AddTimer(timer: Timer)
      requires Valid()
      requires timer !in timers
      requires 0 < timer.expires <= UINT_MAX
      modifies this, timer, timers
      ensures Valid()
      ensures Pending() == Step(State(old(Pending()), []), Add(timer, old(timer.expires))).pending
    {
      hide Dues, Insert, Added, Distinct, InsertAt;
      ghost var list, ticks := Entries(timers), timer.expires;
      assert list != [] ==> list[0].delta > 0;
      var i := 0;
      while i < |timers|
        invariant 0 <= i <= |timers|
        invariant timers == old(timers)
        invariant Entries(timers) == list
        invariant i == 0 ==> timer.expires == ticks
        invariant list[..0] + Added(list[0..], timer, ticks) == list[..i] + Added(list[i..], timer, timer.expires)
        invariant timer.expires <= ticks
      {
        var next := timers[i];
        if timer.expires < next.expires {
          break;
        }
        AddedWalk(list, i, timer, timer.expires);
        timer.expires := timer.expires - next.expires;
        i := i + 1;
      }
      if i < |timers| {
        OnlyPlace(timers, i);
        timers[i].expires := timers[i].expires - timer.expires;
      }
      assert Entries(timers) == if i < |timers| then list[i := Entry(timers[i], list[i].delta - timer.expires)] else list;
      InsertedEntries(timers, i, timer);
      DistinctInsert(timers, i, timer);
      timers := InsertAt(timers, i, timer);
      Placed(list, i, timer, ticks, timer.expires);
    }

    /** del_timer: if the timer is linked, the next one takes over its distance. */
    method DelTimer(timer: Timer)
      requires Distinct(timers)
      requires forall d :: d in Pending() ==> d.ticks <= UINT_MAX
      modifies this, timers
      ensures Distinct(timers)
      ensures var i := Position(old(timers), timer);
        timers == if i == |old(timers)| then old(timers) else RemoveAt(old(timers), i)
      ensures Pending() == Step(State(old(Pending()), []), Del(timer)).pending
      ensures old(Valid()) ==> Valid()
    {
      hide Dues, Step, Deleted, Distinct, Position, RemoveAt;
      ghost var list := Entries(timers);
      var i := Position(timers, timer);
      if timer !in timers {
        DelAbsent(list, timer);
        return;
      }
      OnlyPlace(timers, i);
      if i + 1 < |timers| {
        OnlyPlace(timers, i + 1);
      }
      if timer.expires != 0 {
        if i + 1 < |timers| {
          var next := timers[i + 1];
          assert next.expires + timer.expires <= UINT_MAX by { SumFits(list, i); }
          next.expires := next.expires + timer.expires;
        }
      }
      assert Entries(timers) == Handed(list, i);
      RemovedEntries(timers, i);
      DistinctRemove(timers, i);
      timers := RemoveAt(timers, i);
      Unlinked(list, i, timer);
    }

    /** run_timer_list: bring everybody one tick closer, wake those that are due, in order. */
    method RunTimerList() returns (fired: seq<Timer>)
      requires Valid()
      modifies this, timers
      ensures Valid()
      ensures var s := Step(State(old(Pending()), []), Tick);
        Pending() == s.pending && fired == s.fired
    {
      fired := [];
      hide Dues, Step, Sorted, Distinct;
      ghost var all, list, dues := timers, Entries(timers), Pending();
      assert timers != [] ==> list[0].delta > 0;
      if timers == [] {
        EmptyTick(dues);
        return;
      }
      var timer := timers[0];
      assert timer.expires != 0;
      OnlyPlace(timers, 0);
      timer.expires := timer.expires - 1;
      ghost var ticked, k := Ticked(list), 0;
      assert Entries(all) == ticked;
      while timer.expires == 0
        invariant 0 <= k < |all|
        invariant timers == all[k..] && timer == all[k]
        invariant fired == all[..k]
        invariant forall j :: 0 <= j < k ==> ticked[j].delta == 0
        modifies `timers
        decreases |timers|
      {
        fired := fired + [timer];
        timers := timers[1..];  // del_timer at distance 0 only unlinks
        k := k + 1;
        if timers == [] {
          break;
        }
        timer := timers[0];
      }
      ghost var rest := Entries(timers);
      assert rest == ticked[k..];
      DistinctSuffix(all, k);
      Finished(list, ticked, k, all);
    }
  }

  /** Where run_timer_list stops: all expired timers are off, and the rest came one tick closer. */
  lemma {:induction false} Finished(list: seq<Entry<Timer>>, ticked: seq<Entry<Timer>>, k: nat, timers: seq<Timer>)
    requires list != [] && list[0].delta > 0 && ticked == Ticked(list)
    requires |timers| == |list| && forall i :: 0 <= i < |list| ==> list[i].id == timers[i]
    requires k <= |ticked|
    requires forall j :: 0 <= j < k ==> ticked[j].delta == 0
    requires k < |ticked| ==> ticked[k].delta > 0
    requires forall d :: d in Dues(list, 0) ==> d.ticks <= UINT_MAX
    ensures var s := Step(State(Dues(list, 0), []), Tick);
      Dues(ticked[k..], 0) == s.pending && timers[..k] == s.fired
    ensures forall d :: d in Dues(ticked[k..], 0) ==> d.ticks <= UINT_MAX
  {
    hide Dues, Closer, FiringNow, Expired, Sorted;
    var dues := Dues(list, 0);
    TickMeaning(list);
    ExpiredIs(ticked, k);
    DuesIds(list, 0);
    assert timers[..k] == Ids(dues[..k]);
    assert [] + Ids(dues[..k]) == Ids(dues[..k]);
    CloserFits(dues, k);
  }

  lemma {:induction false} DelAbsent(list: seq<Entry<Timer>>, timer: Timer)
    requires forall j :: 0 <= j < |list| ==> list[j].id != timer
    ensures Step(State(Dues(list, 0), []), Del(timer)).pending == Dues(list, 0)
  {
    DuesIds(list, 0);
  }

  lemma EmptyTick(dues: seq<Due<Timer>>)
    requires dues == []
    ensures Step(State(dues, []), Tick) == State([], [])
  {
  }

  lemma {:induction false} DuesIds(list: seq<Entry<Timer>>, base: nat)
    ensures forall i :: 0 <= i < |list| ==> Dues(list, base)[i].id == list[i].id
  {
    if list != [] {
      DuesIds(list[1..], base + list[0].delta);
    }
  }

  lemma {:induction false} ExpiredIs(list: seq<Entry<Timer>>, k: nat)
    requires k <= |list|
    requires forall j :: 0 <= j < k ==> list[j].delta == 0
    requires k < |list| ==> list[k].delta > 0
    ensures Expired(list) == k
  {
    if k > 0 {
      ExpiredIs(list[1..], k - 1);
    }
  }

  lemma CloserFits(dues: seq<Due<Timer>>, k: nat)
    requires k <= |dues|
    requires forall d :: d in dues ==> d.ticks <= UINT_MAX
    ensures forall d :: d in Closer(dues[k..]) ==> d.ticks <= UINT_MAX
  {
    forall d | d in Closer(dues[k..])
      ensures d.ticks <= UINT_MAX
    {
      var i :| 0 <= i < |dues| - k && Closer(dues[k..])[i] == d;
      assert dues[k + i] in dues;
    }
  }

  lemma SumFits(list: seq<Entry<Timer>>, i: nat)
    requires i + 1 < |list|
    requires forall d :: d in Dues(list, 0) ==> d.ticks <= UINT_MAX
    ensures list[i].delta + list[i + 1].delta <= UINT_MAX
  {
    SumBelow(list, 0, i);
    assert Dues(list, 0)[i + 1] in Dues(list, 0);
  }

  lemma {:induction false} SumBelow(list: seq<Entry<Timer>>, base: nat, i: nat)
    requires i + 1 < |list|
    ensures base + list[i].delta + list[i + 1].delta <= Dues(list, base)[i + 1].ticks
  {
    if i == 0 {
      assert Dues(list, base)[1] == Dues(list[1..], base + list[0].delta)[0];
    } else {
      SumBelow(list[1..], base + list[0].delta, i - 1);
    }
  }

  lemma RemovedEntries(timers: seq<Timer>, i: nat)
    requires i < |timers|
    ensures Entries(RemoveAt(timers, i)) == RemoveAt(Entries(timers), i)
  {
  }

  /** The delta list whose entry after i has taken over the distance of entry i. */
  function Handed(list: seq<Entry<Timer>>, i: nat): seq<Entry<Timer>>
    requires i < |list|
  {
    if i + 1 < |list| then list[i + 1 := Entry(list[i + 1].id, list[i + 1].delta + list[i].delta)] else list
  }

  /** The delta list after del_timer unlinked entry i. */
  lemma {:induction false} Unlinked(list: seq<Entry<Timer>>, i: nat, timer: Timer)
    requires i < |list| && list[i].id == timer
    requires forall j :: 0 <= j < |list| && j != i ==> list[j].id != timer
    ensures var e := RemoveAt(Handed(list, i), i);
      && Dues(e, 0) == Step(State(Dues(list, 0), []), Del(timer)).pending
      && (forall d :: d in Dues(e, 0) ==> d in Dues(list, 0))
      && (e != [] ==> e[0].delta >= list[0].delta)
  {
    hide Dues;
    assert RemoveAt(Handed(list, i), i) == Deleted(list, i);
    DeletedMeaning(list, 0, i);
    DuesIds(list, 0);
    assert Find(Dues(list, 0), timer) == i;
  }
}
