/** Process identifiers: get_pid over every sequence of forks and reaps. */
module Pids {
  import opened Sequences

  const MAX_PROCESS: nat := 4096
  const MAX_PID: nat := 2 * MAX_PROCESS

  /** q comes after `from` and before `to` on the circle of pids 1 .. MAX_PID - 1. */
  predicate Passed(from: nat, q: nat, to: nat) {
    if from < to then from < q < to else from < q < MAX_PID || 1 <= q < to
  }

  /** No live pid lies strictly between last and safe. */
  predicate Window(live: seq<nat>, last: nat, safe: nat) {
    forall p :: p in live ==> p <= last || p >= safe
  }

  /** How far f is ahead of p on the circle. */
  function Ahead(p: nat, f: nat): int
  {
    if p <= f then f - p else f - p + MAX_PID - 1
  }

  function Removed(live: seq<nat>, p: nat): (r: seq<nat>)
    requires p in live
    ensures |r| == |live| - 1
    ensures forall q :: q in live && q != p ==> q in r
  {
    if live[0] == p then live[1..] else [live[0]] + Removed(live[1..], p)
  }

  /** A list with all of 1 .. n has at least n elements. */
  lemma {:induction false} Pigeonhole(live: seq<nat>, n: nat)
    requires forall q :: 1 <= q <= n ==> q in live
    ensures n <= |live|
    decreases n
  {
    if n > 0 {
      assert n in live;
      Pigeonhole(Removed(live, n), n - 1);
    }
  }

  lemma UnusedPid(live: seq<nat>) returns (f: nat)
    requires |live| < MAX_PID - 1
    ensures 1 <= f < MAX_PID && f !in live
  {
    if forall q :: 1 <= q <= MAX_PID - 1 ==> q in live {
      Pigeonhole(live, MAX_PID - 1);
    }
    f :| 1 <= f < MAX_PID && f !in live;
  }

  // ----- Runs of forks and reaps -----

  /** The pids in use, and the one given out last. */
  datatype Census = Census(live: seq<nat>, last: nat)

  /** A fork gave out the first unused pid after the last one. */
  ghost predicate Forked(c: Census, c': Census) {
    && 1 <= c'.last < MAX_PID && c'.last !in c.live && c'.live == [c'.last] + c.live
    && forall q :: Passed(c.last, q, c'.last) ==> q in c.live
  }

  /** The process at place i was reaped. */
  predicate ReapedAt(c: Census, c': Census, i: nat) {
    i < |c.live| && c'.live == RemoveAt(c.live, i) && c'.last == c.last
  }

  ghost predicate Next(c: Census, c': Census) {
    Forked(c, c') || (exists i: nat :: ReapedAt(c, c', i)) || c' == c
  }

  ghost predicate IsRun(run: seq<Census>) {
    forall i :: 0 <= i < |run| - 1 ==> Next(run[i], run[i + 1])
  }

  /** Some fork from step i up to step j gave out q or passed it over because it was in use. */
  ghost predicate Considered(run: seq<Census>, i: nat, j: nat, q: nat)
    requires j < |run|
  {
    exists k :: i <= k < j && Forked(run[k], run[k + 1]) && (q == run[k + 1].last || q in run[k].live)
  }

  lemma ConsideredLater(run: seq<Census>, i: nat, j: nat, k: nat, q: nat)
    requires j <= k < |run| && Considered(run, i, j, q)
    ensures Considered(run, i, k, q)
  {
  }

  /** All pids from that of step i, exclusively, up to that of step j have been considered, or all others altogether. */
  ghost predicate Searched(run: seq<Census>, i: nat, j: nat)
    requires i <= j < |run|
  {
    var from, to := run[i].last, run[j].last;
    || to == from
    || (Considered(run, i, j, to) && forall q :: Passed(from, q, to) ==> Considered(run, i, j, q))
    || forall q :: Passed(from, q, from) ==> Considered(run, i, j, q)
  }

  lemma SearchStarts(run: seq<Census>, i: nat)
    requires i < |run|
    ensures Searched(run, i, i)
  {
  }

  lemma {:induction false} SearchGoesOn(run: seq<Census>, i: nat, j: nat)
    requires IsRun(run) && i <= j < |run| && 1 <= run[i].last < MAX_PID
    ensures 1 <= run[j].last < MAX_PID && Searched(run, i, j)
  {
    hide Searched, IsRun;
    if i == j {
      SearchStarts(run, i);
    } else {
      SearchGoesOn(run, i, j - 1);
      SearchStep(run, i, j - 1);
    }
  }

  lemma {:induction false} SearchStep(run: seq<Census>, i: nat, h: nat)
    requires IsRun(run) && i <= h < |run| - 1 && 1 <= run[i].last < MAX_PID && 1 <= run[h].last < MAX_PID
    requires Searched(run, i, h)
    ensures 1 <= run[h + 1].last < MAX_PID && Searched(run, i, h + 1)
  {
    var j := h + 1;
    assert Next(run[h], run[h + 1]);
    forall q | Considered(run, i, h, q)
      ensures Considered(run, i, j, q)
    {
      ConsideredLater(run, i, h, j, q);
    }
    if Forked(run[h], run[j]) {
      forall q | q == run[j].last || Passed(run[h].last, q, run[j].last)
        ensures Considered(run, i, j, q)
      {
        assert Forked(run[h], run[h + 1]);
      }
    }
  }

  /** A pid is not given out again before every other one has been given out or was in use when its turn came. */
  lemma {:induction false} NotReusedSoon(run: seq<Census>, i: nat, j: nat, q: nat)
    requires IsRun(run) && 0 < i < j < |run|
    requires Forked(run[i - 1], run[i]) && Forked(run[j - 1], run[j]) && run[j].last == run[i].last
    requires 1 <= q < MAX_PID && q != run[i].last
    ensures Considered(run, i, j, q)
  {
    var h := j - 1;
    SearchGoesOn(run, i, h);
    assert Forked(run[h], run[h + 1]);
    if Passed(run[h].last, q, run[j].last) {
      assert q in run[h].live;
    } else {
      assert Considered(run, i, h, q);
      ConsideredLater(run, i, h, j, q);
    }
  }

  class Processes {
    var live: seq<nat>
    var lastPid: nat
    var nextSafe: nat

    ghost predicate Valid()
      reads this
    {
      && |live| + 1 <= MAX_PROCESS && Distinct(live)  // and the idle process, which is not listed
      && (forall p :: p in live ==> 1 <= p < MAX_PID)
      && 1 <= lastPid <= MAX_PID && nextSafe <= MAX_PID
      && Window(live, lastPid, nextSafe)
    }

    function Now(): Census
      reads this
    {
      Census(live, lastPid)
    }

    constructor ()
      ensures Valid() && Now() == Census([], MAX_PID)
    {
      live, lastPid, nextSafe := [], MAX_PID, MAX_PID;
    }

    /** get_pid: it ends, with the first unused pid after the last one given out. */
    method GetPid() returns (pid: nat)
      requires Valid()
      modifies this`lastPid, this`nextSafe
      ensures Valid() && lastPid == pid
      ensures 1 <= pid < MAX_PID && pid !in live
      ensures forall q :: Passed(old(lastPid), q, pid) ==> q in live
    {
      ghost var last := lastPid;
      ghost var f := UnusedPid(live);
      var search := false;
      lastPid := lastPid + 1;
      if lastPid >= MAX_PID {
        lastPid, search := 1, true;
      } else if lastPid >= nextSafe {
        search := true;
      }
      if search {
        nextSafe := MAX_PID;
        var i := 0;
        while i < |live|
          invariant 0 <= i <= |live|
          invariant 1 <= lastPid < nextSafe <= MAX_PID
          invariant forall j :: 0 <= j < i ==> live[j] < lastPid || live[j] >= nextSafe
          invariant forall q :: Passed(last, q, lastPid) ==> q in live
          decreases Ahead(lastPid, f), |live| - i
        {
          var p := live[i];
          i := i + 1;
          if p == lastPid {
            lastPid := lastPid + 1;
            if lastPid >= nextSafe {
              if lastPid >= MAX_PID {
                lastPid := 1;
              }
              nextSafe := MAX_PID;
              i := 0;  // goto repeat
            }
          } else if p > lastPid && nextSafe > p {
            nextSafe := p;
          }
        }
      }
      pid := lastPid;
    }

    /** do_fork's part: a new process gets a pid of its own, unless there are too many. */
    method Fork() returns (ok: bool, pid: nat)
      requires Valid()
      modifies this
      ensures Valid()
      ensures ok <==> |old(live)| + 1 < MAX_PROCESS
      ensures ok ==> Forked(old(Now()), Now()) && pid == lastPid
      ensures !ok ==> Now() == old(Now())
    {
      ok, pid := |live| + 1 < MAX_PROCESS, 0;
      if ok {
        pid := GetPid();
        live := [pid] + live;
      }
    }

    /** do_wait's part: the process at place i of the list is reaped. */
    method Reap(i: nat)
      requires Valid() && i < |live|
      modifies this`live
      ensures Valid() && ReapedAt(old(Now()), Now(), i)
    {
      live := RemoveAt(live, i);
      assert forall p :: p in live ==> p in old(live);
    }
  }
}
