/**
 OPT is optimal. The rivals are all ways to run the same reference string in the
 same number of frames, starting empty: a rival may choose any victim, may drop
 pages early and may even load pages nobody asked for. It pays for every load.
 */
module OptOptimal {
  import opened PageReplacement
  import opened Sequences

  /** r[i] is the rival's memory after i accesses; the page accessed is in memory after its access. */
  ghost predicate IsSchedule(trace: seq<int>, frames: nat, r: seq<set<int>>) {
    && |r| == |trace| + 1
    && r[0] == {}
    && (forall i {:trigger trace[i]} :: 0 <= i < |trace| ==> trace[i] in r[i + 1])
    && (forall i :: 0 <= i < |r| ==> |r[i]| <= frames)
  }

  /** The number of pages a rival loads during its first i accesses. */
  ghost function Loads(r: seq<set<int>>, i: nat): nat
    requires i < |r|
  {
    if i == 0 then 0 else Loads(r, i - 1) + |r[i] - r[i - 1]|
  }

  /** The pages of s that are used again at or after access i and by the horizon. */
  ghost function Urgent(trace: seq<int>, s: set<int>, i: nat, horizon: int): set<int>
    requires i <= |trace|
  {
    set p | p in s && NextUse(trace, p, i) <= horizon
  }

  /** How far the rival may be ahead of OPT in urgent pages: only as far as it has paid more. */
  ghost predicate Ahead(trace: seq<int>, i: nat, opt: set<int>, optMisses: nat, rival: set<int>, rivalLoads: nat)
    requires i <= |trace|
  {
    forall horizon :: horizon < |trace| ==>
      |Urgent(trace, rival, i, horizon)| - |Urgent(trace, opt, i, horizon)| <= rivalLoads - optMisses
  }

  lemma SubsetSize(a: set<int>, b: set<int>)
    requires a <= b
    ensures |a| <= |b|
  {
    assert |b| == |a| + |b - a| by { assert b == a + (b - a); }
  }

  lemma UnionSize(a: set<int>, b: set<int>)
    ensures |a + b| <= |a| + |b|
  {
    assert a + b == a + (b - a);
    SubsetSize(b - a, b);
  }

  /** Urgent pages other than the page accessed stay urgent; the page accessed counts apart. */
  lemma UrgentSplit(trace: seq<int>, s: set<int>, i: nat, horizon: int)
    requires i < |trace|
    requires i <= horizon < |trace|
    ensures var p := trace[i];
      |Urgent(trace, s, i, horizon)| == |Urgent(trace, s - {p}, i + 1, horizon)| + if p in s then 1 else 0
  {
    var p := trace[i];
    var rest := Urgent(trace, s - {p}, i + 1, horizon);
    assert Urgent(trace, s, i, horizon) == if p in s then rest + {p} else rest;
  }

  lemma UrgentAfter(trace: seq<int>, s: set<int>, i: nat, horizon: int)
    requires i < |trace|
    requires trace[i] in s
    ensures var p := trace[i];
      |Urgent(trace, s, i + 1, horizon)|
      == |Urgent(trace, s - {p}, i + 1, horizon)| + if NextUse(trace, p, i + 1) <= horizon then 1 else 0
  {
    var p := trace[i];
    var rest := Urgent(trace, s - {p}, i + 1, horizon);
    assert Urgent(trace, s, i + 1, horizon)
      == if NextUse(trace, p, i + 1) <= horizon then rest + {p} else rest;
  }

  /** What a rival's move can gain in urgent pages, against what it loads. */
  lemma RivalGain(trace: seq<int>, s: set<int>, s': set<int>, i: nat, horizon: int)
    requires i < |trace|
    requires trace[i] in s'
    ensures var p := trace[i];
      |Urgent(trace, s' - {p}, i + 1, horizon)|
      <= |Urgent(trace, s - {p}, i + 1, horizon)| + |s' - s| - if p in s then 0 else 1
  {
    var p := trace[i];
    var u, u' := Urgent(trace, s - {p}, i + 1, horizon), Urgent(trace, s' - {p}, i + 1, horizon);
    var extra := (s' - s) - {p};
    assert u' <= u + extra;
    SubsetSize(u', u + extra);
    UnionSize(u, extra);
    assert p !in s ==> s' - s == extra + {p};
    assert p in s ==> s' - s == extra;
  }

  lemma UrgentBound(trace: seq<int>, s: set<int>, i: nat, horizon: int)
    requires i <= |trace|
    ensures |Urgent(trace, s, i, horizon)| <= |s|
  {
    SubsetSize(Urgent(trace, s, i, horizon), s);
  }

  /** OPT's move on a miss in a full memory: either the victim is not urgent, or everything is. */
  lemma OptEviction(trace: seq<int>, mem: seq<int>, i: nat, horizon: int)
    requires i < |trace|
    requires mem != []
    requires Distinct(mem)
    requires trace[i] !in mem
    ensures var v := mem[Victim(OPT, trace, i, mem)];
      var kept := Pages(RemoveAt(mem, Victim(OPT, trace, i, mem)));
      if NextUse(trace, v, i + 1) > horizon
      then |Urgent(trace, kept, i + 1, horizon)| == |Urgent(trace, Pages(mem), i + 1, horizon)|
      else |Urgent(trace, kept, i + 1, horizon)| == |mem| - 1
  {
    var idx := Victim(OPT, trace, i, mem);
    var v, kept := mem[idx], Pages(RemoveAt(mem, idx));
    DistinctRemoveAt(mem, idx);
    if NextUse(trace, v, i + 1) > horizon {
      assert Urgent(trace, kept, i + 1, horizon) == Urgent(trace, Pages(mem), i + 1, horizon);
    } else {
      forall q | q in kept
        ensures NextUse(trace, q, i + 1) <= horizon
      {
        var j :| 0 <= j < |mem| && mem[j] == q;
      }
      assert Urgent(trace, kept, i + 1, horizon) == kept;
      DistinctSize(mem);
    }
  }

  /** OPT's move at one access: it keeps every urgent page but the one accessed, or has only urgent ones. */
  lemma OptMove(trace: seq<int>, frames: nat, i: nat, mem: seq<int>, horizon: int)
    requires frames >= 1
    requires i < |trace|
    requires Distinct(mem)
    requires |mem| <= frames
    ensures var p, next := trace[i], Access(OPT, trace, frames, i, mem);
      var after := |Urgent(trace, Pages(next) - {p}, i + 1, horizon)|;
      after == |Urgent(trace, Pages(mem) - {p}, i + 1, horizon)| || (p !in mem && after == frames - 1)
  {
    var p := trace[i];
    var next := Access(OPT, trace, frames, i, mem);
    if p in mem {
    } else if |mem| == frames {
      var v := Victim(OPT, trace, i, mem);
      OptEviction(trace, mem, i, horizon);
      DistinctRemoveAt(mem, v);
      assert Pages(next) - {p} == Pages(RemoveAt(mem, v));
      assert Pages(mem) - {p} == Pages(mem);
    } else {
      assert Pages(next) - {p} == Pages(mem) - {p};
    }
  }

  /** What is needed by a horizon before this access is nothing. */
  lemma UrgentPast(trace: seq<int>, s: set<int>, i: nat, horizon: int)
    requires horizon < i <= |trace|
    ensures |Urgent(trace, s, i, horizon)| == 0
  {
    assert Urgent(trace, s, i, horizon) == {};
  }

  lemma LoadsIfAbsent(s: set<int>, s': set<int>, p: int)
    requires p in s' && p !in s
    ensures |s' - s| >= 1
  {
    SubsetSize({p}, s' - s);
  }

  /** The exchange argument for one access and one horizon. */
  lemma AheadStep(trace: seq<int>, frames: nat, i: nat, mem: seq<int>, m: nat, s: set<int>, l: nat, s': set<int>, horizon: int)
    requires frames >= 1
    requires i < |trace|
    requires Distinct(mem)
    requires |mem| <= frames
    requires Ahead(trace, i, Pages(mem), m, s, l)
    requires trace[i] in s'
    requires |s'| <= frames
    requires horizon < |trace|
    ensures var next := Access(OPT, trace, frames, i, mem);
      |Urgent(trace, s', i + 1, horizon)| - |Urgent(trace, Pages(next), i + 1, horizon)|
      <= l + |s' - s| - m - if trace[i] in mem then 0 else 1
  {
    hide Urgent, Access, Distinct;
    var p, next := trace[i], Access(OPT, trace, frames, i, mem);
    DistinctAccess(OPT, trace, frames, i, mem);
    // The debt at horizon i is already enough to pay for a miss that the rival does not have.
    assert |Urgent(trace, s, i, i)| - |Urgent(trace, Pages(mem), i, i)| <= l - m;
    UrgentAt(trace, s, i);
    UrgentAt(trace, Pages(mem), i);
    if p !in s {
      LoadsIfAbsent(s, s', p);
    }
    if horizon < i {
      UrgentPast(trace, s', i + 1, horizon);
      UrgentPast(trace, Pages(next), i + 1, horizon);
    } else {
      assert |Urgent(trace, s, i, horizon)| - |Urgent(trace, Pages(mem), i, horizon)| <= l - m;
      UrgentSplit(trace, s, i, horizon);
      UrgentSplit(trace, Pages(mem), i, horizon);
      UrgentAfter(trace, s', i, horizon);
      UrgentAfter(trace, Pages(next), i, horizon);
      RivalGain(trace, s, s', i, horizon);
      UrgentBound(trace, s' - {p}, i + 1, horizon);
      OptMove(trace, frames, i, mem, horizon);
    }
  }

  lemma UrgentAt(trace: seq<int>, s: set<int>, i: nat)
    requires i < |trace|
    ensures |Urgent(trace, s, i, i)| == if trace[i] in s then 1 else 0
  {
    assert Urgent(trace, s, i, i) == if trace[i] in s then {trace[i]} else {};
  }

  lemma UrgentEmpty(trace: seq<int>)
    ensures forall horizon :: Urgent(trace, {}, 0, horizon) == {}
  {
  }

  lemma {:induction false} OptKeepsUp(trace: seq<int>, frames: nat, r: seq<set<int>>, i: nat)
    requires frames >= 1
    requires IsSchedule(trace, frames, r)
    requires i <= |trace|
    ensures Ahead(trace, i, Pages(Memory(OPT, trace, frames, i)), Misses(OPT, trace, frames, i), r[i], Loads(r, i))
  {
    hide Access, Urgent;
    if i == 0 {
      UrgentEmpty(trace);
    } else {
      OptKeepsUp(trace, frames, r, i - 1);
      MemoryShape(OPT, trace, frames, i - 1);
      var mem, m := Memory(OPT, trace, frames, i - 1), Misses(OPT, trace, frames, i - 1);
      forall horizon | horizon < |trace|
        ensures |Urgent(trace, r[i], i, horizon)| - |Urgent(trace, Pages(Memory(OPT, trace, frames, i)), i, horizon)|
          <= Loads(r, i) - Misses(OPT, trace, frames, i)
      {
        assert trace[i - 1] in r[i - 1 + 1];
        AheadStep(trace, frames, i - 1, mem, m, r[i - 1], Loads(r, i - 1), r[i], horizon);
      }
    }
  }

  /**
   OPT is optimal: after every prefix of the reference string it has missed no more
   often than any rival schedule in the same frames has loaded pages.
   */
  lemma OptIsOptimal(trace: seq<int>, frames: nat, r: seq<set<int>>, i: nat)
    requires frames >= 1
    requires IsSchedule(trace, frames, r)
    requires i <= |trace|
    ensures Misses(OPT, trace, frames, i) <= Loads(r, i)
  {
    OptKeepsUp(trace, frames, r, i);
    assert Urgent(trace, r[i], i, i - 1) == {};
    assert Urgent(trace, Pages(Memory(OPT, trace, frames, i)), i, i - 1) == {};
  }

  // ----- Demand paging -----

  /** A demand-paging run loads only the page accessed, and only when it is absent. */
  ghost predicate IsDemandPaging(trace: seq<int>, frames: nat, r: seq<set<int>>) {
    && IsSchedule(trace, frames, r)
    && (forall i {:trigger trace[i]} :: 0 <= i < |trace| ==> r[i + 1] <= r[i] + {trace[i]})
  }

  ghost function DemandMisses(trace: seq<int>, r: seq<set<int>>, i: nat): nat
    requires i <= |trace| <= |r|
  {
    if i == 0 then 0 else DemandMisses(trace, r, i - 1) + if trace[i - 1] in r[i - 1] then 0 else 1
  }

  lemma {:induction false} DemandMissesAreLoads(trace: seq<int>, frames: nat, r: seq<set<int>>, i: nat)
    requires IsDemandPaging(trace, frames, r)
    requires i <= |trace|
    ensures Loads(r, i) == DemandMisses(trace, r, i)
  {
    if i == 0 {
    } else {
      DemandMissesAreLoads(trace, frames, r, i - 1);
      var p := trace[i - 1];
      assert r[i - 1 + 1] <= r[i - 1] + {p} && p in r[i - 1 + 1];
      assert r[i] - r[i - 1] == if p in r[i - 1] then {} else {p};
    }
  }

  /** OPT misses no more often than any demand-paging policy with the same number of frames. */
  lemma OptBeatsDemandPaging(trace: seq<int>, frames: nat, r: seq<set<int>>)
    requires frames >= 1
    requires IsDemandPaging(trace, frames, r)
    ensures Misses(OPT, trace, frames, |trace|) <= DemandMisses(trace, r, |trace|)
  {
    OptIsOptimal(trace, frames, r, |trace|);
    DemandMissesAreLoads(trace, frames, r, |trace|);
  }

  lemma AccessPages(policy: Policy, trace: seq<int>, frames: nat, i: nat, mem: seq<int>)
    requires frames >= 1
    requires i < |trace|
    requires Distinct(mem)
    ensures Pages(Access(policy, trace, frames, i, mem)) <= Pages(mem) + {trace[i]}
  {
    if trace[i] in mem {
      DistinctRemoveAt(mem, IndexOf(mem, trace[i]));
    }
  }

  lemma {:induction false} PolicyMisses(policy: Policy, trace: seq<int>, frames: nat, r: seq<set<int>>, i: nat)
    requires frames >= 1
    requires |r| == |trace| + 1
    requires forall j :: 0 <= j < |r| ==> r[j] == Pages(Memory(policy, trace, frames, j))
    requires i <= |trace|
    ensures DemandMisses(trace, r, i) == Misses(policy, trace, frames, i)
  {
    hide Memory;
    if i == 0 {
    } else {
      PolicyMisses(policy, trace, frames, r, i - 1);
      assert r[i - 1] == Pages(Memory(policy, trace, frames, i - 1));
    }
  }

  lemma MemoryNext(policy: Policy, trace: seq<int>, frames: nat, i: nat)
    requires frames >= 1
    requires i < |trace|
    ensures Memory(policy, trace, frames, i + 1) == Access(policy, trace, frames, i, Memory(policy, trace, frames, i))
  {
  }

  lemma MemoryStart(policy: Policy, trace: seq<int>, frames: nat)
    requires frames >= 1
    ensures Memory(policy, trace, frames, 0) == []
  {
  }

  /** Each of the simulator's policies is such a demand-paging run, so OPT is the best of them. */
  lemma OptBeatsEveryPolicy(policy: Policy, trace: seq<int>, frames: nat)
    requires frames >= 1
    ensures Misses(OPT, trace, frames, |trace|) <= Misses(policy, trace, frames, |trace|)
  {
    hide Access, Memory, Misses, Loads, DemandMisses;
    var r := seq(|trace| + 1, (j: nat) requires j <= |trace| => Pages(Memory(policy, trace, frames, j)));
    forall i | 0 <= i < |r|
      ensures |r[i]| <= frames
      ensures i < |trace| ==> trace[i] in r[i + 1] && r[i + 1] <= r[i] + {trace[i]}
    {
      MemoryShape(policy, trace, frames, i);
      DistinctSize(Memory(policy, trace, frames, i));
      if i < |trace| {
        MemoryNext(policy, trace, frames, i);
        MemoryShape(policy, trace, frames, i + 1);
        AccessPages(policy, trace, frames, i, Memory(policy, trace, frames, i));
      }
    }
    MemoryStart(policy, trace, frames);
    PolicyMisses(policy, trace, frames, r, |trace|);
    OptBeatsDemandPaging(trace, frames, r);
  }
}
