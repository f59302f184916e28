/**
 What a delta list of timers means. Each entry holds its distance to the entry before it; the
 meaning is the list of timers with the number of ticks until each is due.
 */
module TimerQueue {

  datatype Entry<T> = Entry(id: T, delta: nat)

  /** A timer and the number of ticks until it is due. */
  datatype Due<T> = Due(id: T, ticks: nat)

  /** The meaning of a delta list whose first distance is counted from `base`. */
  function Dues<T>(list: seq<Entry<T>>, base: nat): (dues: seq<Due<T>>)
    ensures |dues| == |list|
  {
    if list == [] then []
    else [Due(list[0].id, base + list[0].delta)] + Dues(list[1..], base + list[0].delta)
  }

  // ----- The delta operations -----

  /** add_timer: walk past every entry that is due no later, subtracting its distance. */
  function Added<T>(list: seq<Entry<T>>, id: T, ticks: nat): seq<Entry<T>> {
    if list == [] then [Entry(id, ticks)]
    else if ticks < list[0].delta then [Entry(id, ticks), Entry(list[0].id, list[0].delta - ticks)] + list[1..]
    else [list[0]] + Added(list[1..], id, ticks - list[0].delta)
  }

  /** del_timer: the next entry takes over the distance of the deleted one. */
  function Deleted<T>(list: seq<Entry<T>>, i: nat): seq<Entry<T>>
    requires i < |list|
  {
    if i + 1 == |list| then list[..i]
    else list[..i] + [Entry(list[i + 1].id, list[i + 1].delta + list[i].delta)] + list[i + 2..]
  }

  /** The leading entries at distance 0. */
  function Expired<T>(list: seq<Entry<T>>): (k: nat)
    ensures k <= |list|
  {
    if list == [] || list[0].delta != 0 then 0 else 1 + Expired(list[1..])
  }

  /** The list with its first distance one smaller: a tick before the expired ones are taken off. */
  function Ticked<T>(list: seq<Entry<T>>): seq<Entry<T>> {
    if list == [] || list[0].delta == 0 then list else [Entry(list[0].id, list[0].delta - 1)] + list[1..]
  }

  /** Walking past entry i. */
  lemma AddedWalk<T>(list: seq<Entry<T>>, i: nat, id: T, ticks: nat)
    requires i < |list| && list[i].delta <= ticks
    ensures list[..i] + Added(list[i..], id, ticks) == list[..i + 1] + Added(list[i + 1..], id, ticks - list[i].delta)
  {
    assert list[i..][1..] == list[i + 1..];
    var tail := Added(list[i + 1..], id, ticks - list[i].delta);
    assert list[..i] + ([list[i]] + tail) == list[..i + 1] + tail;
  }

  /** Stopping before entry i, or at the end. */
  lemma AddedStop<T>(list: seq<Entry<T>>, i: nat, id: T, ticks: nat)
    requires i <= |list| && (i < |list| ==> ticks < list[i].delta)
    ensures list[..i] + Added(list[i..], id, ticks)
      == list[..i] + [Entry(id, ticks)]
         + (if i < |list| then [Entry(list[i].id, list[i].delta - ticks)] + list[i + 1..] else [])
  {
    if i < |list| {
      assert list[i..][1..] == list[i + 1..];
    }
  }

  // ----- Their meaning -----

  /** The place of a new timer: behind every one that is due no later. */
  function Place<T>(dues: seq<Due<T>>, ticks: nat): (k: nat)
    ensures k <= |dues|
    ensures forall j :: 0 <= j < k ==> dues[j].ticks <= ticks
    ensures k < |dues| ==> ticks < dues[k].ticks
  {
    if dues == [] || ticks < dues[0].ticks then 0 else 1 + Place(dues[1..], ticks)
  }

  function Insert<T>(dues: seq<Due<T>>, id: T, ticks: nat): seq<Due<T>> {
    var k := Place(dues, ticks);
    dues[..k] + [Due(id, ticks)] + dues[k..]
  }

  /** The list is ordered by when the timers are due. */
  predicate Sorted<T>(dues: seq<Due<T>>) {
    forall i, j :: 0 <= i < j < |dues| ==> dues[i].ticks <= dues[j].ticks
  }

  lemma {:induction false} DuesSorted<T>(list: seq<Entry<T>>, base: nat)
    ensures Sorted(Dues(list, base))
    ensures forall d :: d in Dues(list, base) ==> base <= d.ticks
  {
    if list != [] {
      DuesSorted(list[1..], base + list[0].delta);
    }
  }

  lemma InsertCons<T>(x: Due<T>, rest: seq<Due<T>>, id: T, ticks: nat)
    ensures Insert([x] + rest, id, ticks)
      == if ticks < x.ticks then [Due(id, ticks), x] + rest else [x] + Insert(rest, id, ticks)
  {
    var all := [x] + rest;
    assert all[1..] == rest;
    if x.ticks <= ticks {
      var k := Place(rest, ticks);
      assert Place(all, ticks) == k + 1;
      assert all[..k + 1] == [x] + rest[..k];
      assert all[k + 1..] == rest[k..];
    }
  }

  lemma DuesCons<T>(e: Entry<T>, rest: seq<Entry<T>>, base: nat)
    ensures Dues([e] + rest, base) == [Due(e.id, base + e.delta)] + Dues(rest, base + e.delta)
  {
    assert ([e] + rest)[1..] == rest;
  }

  /** Adding puts the new timer in place and shifts nobody's due time. */
  lemma {:induction false} AddedMeaning<T>(list: seq<Entry<T>>, base: nat, id: T, ticks: nat)
    ensures Dues(Added(list, id, ticks), base) == Insert(Dues(list, base), id, base + ticks)
  {
    if list == [] {
    } else {
      if list[0].delta <= ticks {
        AddedMeaning(list[1..], base + list[0].delta, id, ticks - list[0].delta);
      }
      assert [list[0]] + list[1..] == list;
      AddedConsMeaning(list[0], list[1..], base, id, ticks);
    }
  }

  lemma AddedCons<T>(e: Entry<T>, rest: seq<Entry<T>>, id: T, ticks: nat)
    ensures Added([e] + rest, id, ticks)
      == if ticks < e.delta then [Entry(id, ticks)] + ([Entry(e.id, e.delta - ticks)] + rest)
         else [e] + Added(rest, id, ticks - e.delta)
  {
    assert ([e] + rest)[1..] == rest;
    var first, second := Entry(id, ticks), if ticks < e.delta then Entry(e.id, e.delta - ticks) else e;
    assert [first, second] + rest == [first] + ([second] + rest);
  }

  lemma AddedConsMeaning<T>(e: Entry<T>, rest: seq<Entry<T>>, base: nat, id: T, ticks: nat)
    requires e.delta <= ticks ==>
      Dues(Added(rest, id, ticks - e.delta), base + e.delta) == Insert(Dues(rest, base + e.delta), id, base + ticks)
    ensures Dues(Added([e] + rest, id, ticks), base) == Insert(Dues([e] + rest, base), id, base + ticks)
  {
    hide Insert, Dues, Added;
    AddedCons(e, rest, id, ticks);
    DuesCons(e, rest, base);
    InsertCons(Due(e.id, base + e.delta), Dues(rest, base + e.delta), id, base + ticks);
    if ticks < e.delta {
      SplitDues(e, rest, base, id, ticks);
    } else {
      DuesCons(e, Added(rest, id, ticks - e.delta), base);
    }
  }

  /** A new entry in front of e takes over part of its distance. */
  lemma SplitDues<T>(e: Entry<T>, rest: seq<Entry<T>>, base: nat, id: T, ticks: nat)
    requires ticks < e.delta
    ensures Dues([Entry(id, ticks)] + ([Entry(e.id, e.delta - ticks)] + rest), base)
      == [Due(id, base + ticks), Due(e.id, base + e.delta)] + Dues(rest, base + e.delta)
  {
    hide Dues;
    var second := Entry(e.id, e.delta - ticks);
    DuesCons(Entry(id, ticks), [second] + rest, base);
    DuesCons(second, rest, base + ticks);
    assert base + ticks + second.delta == base + e.delta;
    var a, b, c := Due(id, base + ticks), Due(e.id, base + e.delta), Dues(rest, base + e.delta);
    assert [a] + ([b] + c) == [a, b] + c;
  }

  /** Deleting takes out one timer and shifts nobody's due time. */
  lemma {:induction false} DeletedMeaning<T>(list: seq<Entry<T>>, base: nat, i: nat)
    requires i < |list|
    ensures Dues(Deleted(list, i), base) == Dues(list, base)[..i] + Dues(list, base)[i + 1..]
  {
    var deleted := Deleted(list, i);
    if i > 0 {
      DeletedMeaning(list[1..], base + list[0].delta, i - 1);
      assert deleted[0] == list[0];
      assert deleted[1..] == Deleted(list[1..], i - 1);
    } else if |list| > 1 {
      assert deleted[1..] == list[1..][1..];
    }
  }

  lemma {:induction false} DuesShift<T>(list: seq<Entry<T>>, base: nat, n: nat)
    ensures |Dues(list, base + n)| == |Dues(list, base)|
    ensures forall i :: 0 <= i < |list| ==>
      && Dues(list, base + n)[i].id == Dues(list, base)[i].id == list[i].id
      && Dues(list, base + n)[i].ticks == Dues(list, base)[i].ticks + n
  {
    if list != [] {
      DuesShift(list[1..], base + list[0].delta, n);
      assert base + n + list[0].delta == base + list[0].delta + n;
    }
  }

  /** A tick brings every timer one tick closer. */
  lemma {:induction false} TickedMeaning<T>(list: seq<Entry<T>>, i: nat)
    requires list != [] && list[0].delta > 0
    requires i < |list|
    ensures Dues(Ticked(list), 0)[i].id == Dues(list, 0)[i].id
    ensures Dues(Ticked(list), 0)[i].ticks == Dues(list, 0)[i].ticks - 1
  {
    var t := Ticked(list);
    assert t[1..] == list[1..];
    DuesShift(list[1..], list[0].delta - 1, 1);
  }

  /** The expired entries are exactly those that are due now. */
  lemma {:induction false} ExpiredMeaning<T>(list: seq<Entry<T>>)
    ensures forall i :: 0 <= i < |list| ==> (Dues(list, 0)[i].ticks == 0 <==> i < Expired(list))
    ensures Expired(list) < |list| ==> list[Expired(list)].delta > 0
    ensures Dues(list[Expired(list)..], 0) == Dues(list, 0)[Expired(list)..]
  {
    if list != [] && list[0].delta == 0 {
      ExpiredMeaning(list[1..]);
      assert list[1..][Expired(list[1..])..] == list[Expired(list)..];
    } else {
      DuesSorted(list, 0);
      if list != [] {
        DuesSorted(list[1..], list[0].delta);
        assert forall i :: 0 < i < |list| ==> Dues(list, 0)[i] == Dues(list[1..], list[0].delta)[i - 1];
        assert forall i :: 0 < i < |list| ==> Dues(list, 0)[i] in Dues(list[1..], list[0].delta);
      }
      assert list[0..] == list;
    }
  }

  // ----- The timers as a machine of due times -----

  datatype Op<T> = Add(id: T, ticks: nat) | Del(id: T) | Tick

  /** The timers that are pending, and those that have fired, in order. */
  datatype State<T> = State(pending: seq<Due<T>>, fired: seq<T>)

  /** How many timers a tick fires: those due in one tick, at the front. */
  function FiringNow<T>(dues: seq<Due<T>>): (k: nat)
    ensures k <= |dues|
    ensures forall j :: 0 <= j < k ==> dues[j].ticks <= 1
    ensures k < |dues| ==> dues[k].ticks > 1
  {
    if dues == [] || dues[0].ticks > 1 then 0 else 1 + FiringNow(dues[1..])
  }

  function Ids<T>(dues: seq<Due<T>>): seq<T> {
    seq(|dues|, (i: nat) requires i < |dues| => dues[i].id)
  }

  /** Everybody one tick closer. */
  function Closer<T>(dues: seq<Due<T>>): seq<Due<T>> {
    seq(|dues|, (i: nat) requires i < |dues| =>
      Due(dues[i].id, if dues[i].ticks == 0 then 0 else dues[i].ticks - 1))
  }

  lemma {:induction false} FiringIs<T>(dues: seq<Due<T>>, k: nat)
    requires k <= |dues|
    requires forall j :: 0 <= j < k ==> dues[j].ticks <= 1
    requires k < |dues| ==> dues[k].ticks > 1
    ensures FiringNow(dues) == k
  {
    if k > 0 {
      FiringIs(dues[1..], k - 1);
    }
  }

  lemma InsertMembers<T>(dues: seq<Due<T>>, id: T, ticks: nat)
    ensures forall d :: d in Insert(dues, id, ticks) ==> d in dues || d == Due(id, ticks)
  {
  }

  /** The delta list's tick is the machine's: the expired entries fire, the others come closer. */
  lemma {:induction false} TickMeaning<T>(list: seq<Entry<T>>)
    requires list != [] ==> list[0].delta > 0
    ensures var t, dues := Ticked(list), Dues(list, 0);
      && Expired(t) == FiringNow(dues)
      && Dues(t[Expired(t)..], 0) == Closer(dues[FiringNow(dues)..])
  {
    var t, dues := Ticked(list), Dues(list, 0);
    var k := Expired(t);
    ExpiredMeaning(t);
    DuesSorted(list, 0);
    forall i | 0 <= i < |list|
      ensures Dues(t, 0)[i].id == dues[i].id && Dues(t, 0)[i].ticks == dues[i].ticks - 1
    {
      TickedMeaning(list, i);
    }
    hide Dues, Ticked, Expired;
    FiringIs(dues, k);
    CloserTail(dues, Dues(t, 0), k);
  }

  lemma CloserTail<T>(dues: seq<Due<T>>, ticked: seq<Due<T>>, k: nat)
    requires k <= |dues| == |ticked|
    requires forall i :: 0 <= i < |dues| ==> ticked[i].id == dues[i].id && ticked[i].ticks == dues[i].ticks - 1
    ensures ticked[k..] == Closer(dues[k..])
  {
    forall i | 0 <= i < |dues| - k
      ensures ticked[k..][i] == Closer(dues[k..])[i]
    {
      assert ticked[k..][i] == ticked[k + i] && dues[k..][i] == dues[k + i];
    }
  }

  function Find<T(==)>(dues: seq<Due<T>>, id: T): (i: nat)
    ensures i <= |dues|
    ensures i < |dues| ==> dues[i].id == id
    ensures forall j :: 0 <= j < i ==> dues[j].id != id
  {
    if dues == [] || dues[0].id == id then 0 else 1 + Find(dues[1..], id)
  }

  function Step<T(==)>(s: State<T>, op: Op<T>): State<T> {
    match op
    case Add(id, ticks) => s.(pending := Insert(s.pending, id, ticks))
    case Del(id) =>
      var i := Find(s.pending, id);
      if i < |s.pending| then s.(pending := s.pending[..i] + s.pending[i + 1..]) else s
    case Tick =>
      var k := FiringNow(s.pending);
      State(Closer(s.pending[k..]), s.fired + Ids(s.pending[..k]))
  }

  function Run<T(==)>(s: State<T>, ops: seq<Op<T>>): State<T>
    decreases |ops|
  {
    if ops == [] then s else Run(Step(s, ops[0]), ops[1..])
  }

  function Ticks<T>(ops: seq<Op<T>>): nat {
    if ops == [] then 0 else Ticks(ops[1..]) + if ops[0].Tick? then 1 else 0
  }

  /** Entry i is timer id's only one, due in so many ticks. */
  ghost predicate OnlyAt<T>(dues: seq<Due<T>>, i: nat, id: T, ticks: nat) {
    && i < |dues| && dues[i] == Due(id, ticks)
    && forall j :: 0 <= j < |dues| && j != i ==> dues[j].id != id
  }

  /** Timer id is pending once, due in so many ticks, in an ordered list. */
  ghost predicate PendingOnce<T>(s: State<T>, id: T, ticks: nat) {
    Sorted(s.pending) && exists i :: OnlyAt(s.pending, i, id, ticks)
  }

  ghost predicate Absent<T>(s: State<T>, id: T) {
    Sorted(s.pending) && forall j :: 0 <= j < |s.pending| ==> s.pending[j].id != id
  }

  lemma {:induction false} InsertSorted<T>(dues: seq<Due<T>>, id: T, ticks: nat)
    requires Sorted(dues)
    ensures Sorted(Insert(dues, id, ticks))
  {
    var k := Place(dues, ticks);
    var all := Insert(dues, id, ticks);
    forall i, j | 0 <= i < j < |all|
      ensures all[i].ticks <= all[j].ticks
    {
      if j > k {
        assert all[j] == dues[j - 1];
        assert dues[k].ticks <= dues[j - 1].ticks;
      }
    }
  }

  lemma {:induction false} AddStarts<T>(s: State<T>, id: T, ticks: nat)
    requires Absent(s, id)
    ensures PendingOnce(Step(s, Add(id, ticks)), id, ticks)
  {
    InsertSorted(s.pending, id, ticks);
    assert OnlyAt(Step(s, Add(id, ticks)).pending, Place(s.pending, ticks), id, ticks);
  }

  lemma {:induction false} InsertKeeps<T>(p: seq<Due<T>>, i: nat, id: T, ticks: nat, other: T, t: nat)
    requires OnlyAt(p, i, id, ticks) && other != id
    ensures OnlyAt(Insert(p, other, t), if i < Place(p, t) then i else i + 1, id, ticks)
  {
  }

  lemma {:induction false} RemoveKeeps<T>(p: seq<Due<T>>, i: nat, id: T, ticks: nat, k: nat)
    requires OnlyAt(p, i, id, ticks) && k < |p| && k != i
    ensures OnlyAt(p[..k] + p[k + 1..], if i < k then i else i - 1, id, ticks)
  {
  }

  lemma {:induction false} RemoveSorted<T>(p: seq<Due<T>>, k: nat)
    requires Sorted(p) && k < |p|
    ensures Sorted(p[..k] + p[k + 1..])
  {
  }

  /** An operation on other timers leaves a pending timer due when it was, and fires nothing. */
  lemma {:induction false} OtherOpKeeps<T>(s: State<T>, op: Op<T>, id: T, ticks: nat)
    requires PendingOnce(s, id, ticks)
    requires !op.Tick? && op.id != id
    ensures PendingOnce(Step(s, op), id, ticks)
    ensures Step(s, op).fired == s.fired
  {
    hide OnlyAt, Sorted, Insert;
    var i :| OnlyAt(s.pending, i, id, ticks);
    match op {
      case Add(other, t) =>
        InsertSorted(s.pending, other, t);
        InsertKeeps(s.pending, i, id, ticks, other, t);
      case Del(other) =>
        var k := Find(s.pending, other);
        if k < |s.pending| {
          NotSame(s.pending, i, id, ticks, k);
          RemoveSorted(s.pending, k);
          RemoveKeeps(s.pending, i, id, ticks, k);
        }
    }
  }

  lemma {:induction false} NotSame<T>(p: seq<Due<T>>, i: nat, id: T, ticks: nat, k: nat)
    requires OnlyAt(p, i, id, ticks) && k < |p| && p[k].id != id
    ensures k != i
  {
  }

  lemma {:induction false} CloserSorted<T>(p: seq<Due<T>>, k: nat)
    requires Sorted(p) && k <= |p|
    ensures Sorted(Closer(p[k..]))
  {
    var q := Closer(p[k..]);
    forall i, j | 0 <= i < j < |q|
      ensures q[i].ticks <= q[j].ticks
    {
      assert p[k + i].ticks <= p[k + j].ticks;
    }
  }

  /** A tick fires a pending timer exactly when it was due in one tick. */
  lemma {:induction false} TickFires<T>(s: State<T>, id: T, ticks: nat)
    requires PendingOnce(s, id, ticks) && ticks >= 1
    ensures ticks > 1 ==> PendingOnce(Step(s, Tick), id, ticks - 1)
    ensures ticks == 1 ==> Absent(Step(s, Tick), id)
    ensures multiset(Step(s, Tick).fired)[id] == multiset(s.fired)[id] + if ticks == 1 then 1 else 0
  {
    var i :| OnlyAt(s.pending, i, id, ticks);
    var p, k := s.pending, FiringNow(s.pending);
    CloserSorted(p, k);
    TickSplits(p, i, id, ticks);
    hide Sorted, Closer, FiringNow;
    if ticks > 1 {
      assert OnlyAt(Closer(p[k..]), i - k, id, ticks - 1);
    }
  }

  lemma {:induction false} TickSplits<T>(p: seq<Due<T>>, i: nat, id: T, ticks: nat)
    requires Sorted(p) && OnlyAt(p, i, id, ticks) && ticks >= 1
    ensures var k := FiringNow(p);
      && multiset(Ids(p[..k]))[id] == (if ticks == 1 then 1 else 0)
      && (ticks > 1 ==> k <= i && OnlyAt(Closer(p[k..]), i - k, id, ticks - 1))
      && (ticks == 1 ==> forall j :: 0 <= j < |Closer(p[k..])| ==> Closer(p[k..])[j].id != id)
  {
    var k := FiringNow(p);
    assert ticks == 1 <==> i < k;
    OnlyOneOf(p, i, id, ticks, k);
    CloserOnlyAt(p, i, id, ticks, k);
    hide Sorted, FiringNow, Closer, OnlyAt;
  }

  lemma {:induction false} CloserOnlyAt<T>(p: seq<Due<T>>, i: nat, id: T, ticks: nat, k: nat)
    requires OnlyAt(p, i, id, ticks) && k <= |p|
    ensures k <= i && ticks > 1 ==> OnlyAt(Closer(p[k..]), i - k, id, ticks - 1)
    ensures i < k ==> forall j :: 0 <= j < |Closer(p[k..])| ==> Closer(p[k..])[j].id != id
  {
    assert forall j :: 0 <= j < |Closer(p[k..])| ==> Closer(p[k..])[j].id == p[k + j].id;
  }

  /** Of the k first entries, id is one exactly when its place is among them. */
  lemma {:induction false} OnlyOneOf<T>(p: seq<Due<T>>, i: nat, id: T, ticks: nat, k: nat)
    requires OnlyAt(p, i, id, ticks) && k <= |p|
    ensures multiset(Ids(p[..k]))[id] == if i < k then 1 else 0
  {
    CountIds(p[..k], id);
    if i < k {
      assert p[..k][i].id == id;
    }
  }

  /** How often id is among the timers of a list where it occurs at most once. */
  lemma {:induction false} CountIds<T>(dues: seq<Due<T>>, id: T)
    requires forall i, j :: 0 <= i < j < |dues| ==> !(dues[i].id == id && dues[j].id == id)
    ensures multiset(Ids(dues))[id] == if exists i :: 0 <= i < |dues| && dues[i].id == id then 1 else 0
  {
    if dues != [] {
      var n := |dues| - 1;
      CountIds(dues[..n], id);
      assert Ids(dues) == Ids(dues[..n]) + [dues[n].id];
      assert forall i :: 0 <= i < n ==> dues[..n][i] == dues[i];
    }
  }

  /** Operations without timer id. */
  predicate Without<T(==)>(ops: seq<Op<T>>, id: T) {
    forall i :: 0 <= i < |ops| ==> ops[i].Tick? || ops[i].id != id
  }

  lemma {:induction false} AbsentStep<T>(s: State<T>, op: Op<T>, id: T)
    requires Absent(s, id) && (op.Tick? || op.id != id)
    ensures Absent(Step(s, op), id)
    ensures multiset(Step(s, op).fired)[id] == multiset(s.fired)[id]
  {
    hide Sorted;
    var p := s.pending;
    match op {
      case Add(other, t) =>
        InsertSorted(p, other, t);
      case Del(other) =>
        if Find(p, other) < |p| {
          RemoveSorted(p, Find(p, other));
        }
      case Tick =>
        CloserSorted(p, FiringNow(p));
        CountIds(p[..FiringNow(p)], id);
    }
  }

  lemma {:induction false} StaysAbsent<T>(s: State<T>, ops: seq<Op<T>>, id: T)
    requires Absent(s, id) && Without(ops, id)
    ensures Absent(Run(s, ops), id)
    ensures multiset(Run(s, ops).fired)[id] == multiset(s.fired)[id]
    decreases |ops|
  {
    hide Absent, Step;
    if ops != [] {
      AbsentStep(s, ops[0], id);
      StaysAbsent(Step(s, ops[0]), ops[1..], id);
    }
  }

  /** A deleted timer is gone without having fired, and as long as it is not added again it never fires. */
  lemma {:induction false} DeletedNeverFires<T>(s: State<T>, ops: seq<Op<T>>, id: T, ticks: nat)
    requires PendingOnce(s, id, ticks) && Without(ops, id)
    ensures Absent(Step(s, Del(id)), id)
    ensures multiset(Run(Step(s, Del(id)), ops).fired)[id] == multiset(s.fired)[id]
  {
    hide Sorted, Run;
    var i :| OnlyAt(s.pending, i, id, ticks);
    assert Find(s.pending, id) == i;
    RemoveSorted(s.pending, i);
    StaysAbsent(Step(s, Del(id)), ops, id);
  }

  /**
   A timer due in t ticks and not deleted is fired once and by exactly the t-th tick: while fewer
   ticks have passed it is pending with the rest to go, and from the t-th on it has fired once.
   */
  lemma {:induction false} FiresAtItsTick<T>(s: State<T>, ops: seq<Op<T>>, id: T, ticks: nat)
    requires PendingOnce(s, id, ticks) && ticks >= 1
    requires Without(ops, id)
    ensures Ticks(ops) < ticks ==>
      && PendingOnce(Run(s, ops), id, ticks - Ticks(ops))
      && multiset(Run(s, ops).fired)[id] == multiset(s.fired)[id]
    ensures Ticks(ops) >= ticks ==>
      && Absent(Run(s, ops), id)
      && multiset(Run(s, ops).fired)[id] == multiset(s.fired)[id] + 1
    decreases |ops|
  {
    hide Step, PendingOnce, Absent;
    if ops != [] {
      var s', rest := Step(s, ops[0]), ops[1..];
      assert Without(rest, id);
      if !ops[0].Tick? {
        OtherOpKeeps(s, ops[0], id, ticks);
        FiresAtItsTick(s', rest, id, ticks);
      } else {
        TickFires(s, id, ticks);
        if ticks > 1 {
          FiresAtItsTick(s', rest, id, ticks - 1);
        } else {
          StaysAbsent(s', rest, id);
        }
      }
    }
  }
}
