/**
 The page replacement simulator: one pass over a reference string with a memory
 of a fixed number of page frames, under FIFO, LRU or OPT.

 The specification is the function `Memory` (the page list after i accesses) with
 its miss count `Misses`; the method `Simulate` is the program's own loop.
 */
module PageReplacement {
  import opened Sequences

  datatype Policy = FIFO | LRU | OPT

  /** The position of the first occurrence of x, or |s| when there is none. */
  function IndexOf(s: seq<int>, x: int): (i: nat)
    ensures i <= |s|
    ensures i < |s| <==> x in s
    ensures i < |s| ==> s[i] == x
    ensures forall j :: 0 <= j < i ==> s[j] != x
  {
    if s == [] then 0
    else if s[0] == x then 0
    else 1 + IndexOf(s[1..], x)
  }

  /** s without the first occurrence of x. */
  function Without(s: seq<int>, x: int): seq<int> {
    var i := IndexOf(s, x);
    if i < |s| then RemoveAt(s, i) else s
  }

  /** The first reference to `page` at or after position i, or |trace|. */
  function NextUse(trace: seq<int>, page: int, i: nat): (u: nat)
    requires i <= |trace|
    ensures i <= u <= |trace|
    ensures u < |trace| ==> trace[u] == page
    ensures forall j :: i <= j < u ==> trace[j] != page
    decreases |trace| - i
  {
    if i == |trace| || trace[i] == page then i else NextUse(trace, page, i + 1)
  }

  /** Of the first m pages, the index of the last one whose next use is farthest. */
  function Farthest(trace: seq<int>, i: nat, mem: seq<int>, m: nat): (v: nat)
    requires i <= |trace|
    requires 0 < m <= |mem|
    ensures v < m
    ensures forall j :: 0 <= j < m ==> NextUse(trace, mem[j], i) <= NextUse(trace, mem[v], i)
    ensures forall j :: v < j < m ==> NextUse(trace, mem[j], i) < NextUse(trace, mem[v], i)
  {
    if m == 1 then 0
    else
      var v := Farthest(trace, i, mem, m - 1);
      if NextUse(trace, mem[m - 1], i) >= NextUse(trace, mem[v], i) then m - 1 else v
  }

  /** The index of the page that a miss at access i pushes out of a full memory. */
  function Victim(policy: Policy, trace: seq<int>, i: nat, mem: seq<int>): (v: nat)
    requires i < |trace|
    requires mem != []
    ensures v < |mem|
  {
    if policy.OPT? then Farthest(trace, i + 1, mem, |mem|) else 0
  }

  /** The memory after access i, given the memory before it. */
  function Access(policy: Policy, trace: seq<int>, frames: int, i: nat, mem: seq<int>): seq<int>
    requires frames != 0
    requires i < |trace|
  {
    var n := trace[i];
    if n in mem then
      if policy.LRU? then Without(mem, n) + [n] else mem
    else if |mem| == frames then
      RemoveAt(mem, Victim(policy, trace, i, mem)) + [n]
    else
      mem + [n]
  }

  /** The memory after the first i accesses. */
  function Memory(policy: Policy, trace: seq<int>, frames: int, i: nat): seq<int>
    requires frames != 0
    requires i <= |trace|
  {
    if i == 0 then [] else Access(policy, trace, frames, i - 1, Memory(policy, trace, frames, i - 1))
  }

  /** The number of misses among the first i accesses. */
  function Misses(policy: Policy, trace: seq<int>, frames: int, i: nat): nat
    requires frames != 0
    requires i <= |trace|
  {
    if i == 0 then 0
    else
      Misses(policy, trace, frames, i - 1)
      + if trace[i - 1] in Memory(policy, trace, frames, i - 1) then 0 else 1
  }

  /** The scan for the page referenced farthest in the future. */
  method FindFarthest(trace: seq<int>, addrIndex: nat, memory: seq<int>) returns (replaceIdx: int)
    requires addrIndex < |trace|
    requires memory != []
    ensures replaceIdx == Farthest(trace, addrIndex + 1, memory, |memory|)
  {
    var maxReplace := -1;
    replaceIdx := -1;
    for pageIndex := 0 to |memory|
      invariant pageIndex == 0 ==> maxReplace == -1
      invariant pageIndex > 0 ==>
          replaceIdx == Farthest(trace, addrIndex + 1, memory, pageIndex)
          && maxReplace == NextUse(trace, memory[replaceIdx], addrIndex + 1)
    {
      var page := memory[pageIndex];
      var whenReferenced := |trace|;
      var futureIdx := addrIndex + 1;
      while futureIdx < |trace|
        invariant addrIndex + 1 <= futureIdx <= |trace|
        invariant whenReferenced == |trace|
        invariant NextUse(trace, page, addrIndex + 1) == NextUse(trace, page, futureIdx)
      {
        if page == trace[futureIdx] {
          whenReferenced := futureIdx;
          break;
        }
        futureIdx := futureIdx + 1;
      }
      if whenReferenced >= maxReplace {
        replaceIdx := pageIndex;
        maxReplace := whenReferenced;
      }
    }
  }

  /** The simulation loop: one lookup per address, a replacement when memory is full. */
  method Simulate(policy: Policy, trace: seq<int>, frames: int)
    returns (memory: seq<int>, hits: nat, miss: nat)
    requires frames != 0
    ensures memory == Memory(policy, trace, frames, |trace|)
    ensures miss == Misses(policy, trace, frames, |trace|)
    ensures hits + miss == |trace|
  {
    hide Farthest, NextUse, IndexOf, RemoveAt;
    var count := 0;
    memory, hits, miss := [], 0, 0;
    for addrIndex := 0 to |trace|
      invariant count == |memory|
      invariant memory == Memory(policy, trace, frames, addrIndex)
      invariant miss == Misses(policy, trace, frames, addrIndex)
      invariant hits + miss == addrIndex
    {
      var n := trace[addrIndex];
      if n in memory {
        hits := hits + 1;
        if policy == LRU {
          memory := Without(memory, n);
          memory := memory + [n];
        }
      } else {
        miss := miss + 1;
        if count == frames {
          var replaceIdx := 0;
          if policy == OPT {
            replaceIdx := FindFarthest(trace, addrIndex, memory);
          }
          memory := RemoveAt(memory, replaceIdx);
        } else {
          count := count + 1;
        }
        memory := memory + [n];
      }
    }
  }

  // ----- What every policy keeps -----

  ghost function Pages(s: seq<int>): set<int> {
    set p | p in s
  }

  lemma EmptyDistinct()
    ensures Distinct<int>([])
  {
  }

  lemma {:induction false} DistinctSize(s: seq<int>)
    requires Distinct(s)
    ensures |Pages(s)| == |s|
  {
    if s == [] {
    } else {
      var t := s[..|s| - 1];
      DistinctSize(t);
      assert s == t + [s[|s| - 1]];
      assert Pages(s) == Pages(t) + {s[|s| - 1]};
    }
  }

  lemma DistinctRemoveAt(s: seq<int>, v: nat)
    requires Distinct(s)
    requires v < |s|
    ensures Distinct(RemoveAt(s, v))
    ensures Pages(RemoveAt(s, v)) == Pages(s) - {s[v]}
  {
    var t := RemoveAt(s, v);
    forall p | p in s && p != s[v]
      ensures p in t
    {
      var j :| 0 <= j < |s| && s[j] == p;
      assert p == t[if j < v then j else j - 1];
    }
  }

  lemma DistinctAppend(s: seq<int>, n: int)
    requires Distinct(s)
    requires n !in s
    ensures Distinct(s + [n])
    ensures Pages(s + [n]) == Pages(s) + {n}
  {
  }

  lemma DistinctAccess(policy: Policy, trace: seq<int>, frames: int, i: nat, mem: seq<int>)
    requires frames >= 1
    requires i < |trace|
    requires Distinct(mem)
    requires |mem| <= frames
    ensures Distinct(Access(policy, trace, frames, i, mem))
    ensures |Access(policy, trace, frames, i, mem)| <= frames
    ensures trace[i] in Access(policy, trace, frames, i, mem)
  {
    var n := trace[i];
    if n in mem {
      DistinctRemoveAt(mem, IndexOf(mem, n));
      DistinctAppend(Without(mem, n), n);
      assert (Without(mem, n) + [n])[|mem| - 1] == n;
    } else if |mem| == frames {
      var v := Victim(policy, trace, i, mem);
      DistinctRemoveAt(mem, v);
      DistinctAppend(RemoveAt(mem, v), n);
    } else {
      DistinctAppend(mem, n);
    }
  }

  /** Memory never holds a page twice, never holds more than `frames` pages, and holds the last page accessed. */
  lemma {:induction false} MemoryShape(policy: Policy, trace: seq<int>, frames: int, i: nat)
    requires frames >= 1
    requires i <= |trace|
    ensures Distinct(Memory(policy, trace, frames, i))
    ensures |Memory(policy, trace, frames, i)| <= frames
    ensures i > 0 ==> trace[i - 1] in Memory(policy, trace, frames, i)
  {
    hide Access, Distinct;
    if i == 0 {
      assert Distinct<int>([]) by { EmptyDistinct(); }
    } else {
      MemoryShape(policy, trace, frames, i - 1);
      DistinctAccess(policy, trace, frames, i - 1, Memory(policy, trace, frames, i - 1));
    }
  }

  /** Of the pages of a full memory OPT pushes out the one whose next use is farthest, and among several the last. */
  lemma OptPushesOutFarthest(trace: seq<int>, frames: int, i: nat)
    requires frames >= 1
    requires i < |trace|
    ensures var mem, next := Memory(OPT, trace, frames, i), Memory(OPT, trace, frames, i + 1);
      if trace[i] in mem then next == mem
      else if |mem| < frames then next == mem + [trace[i]]
      else exists v :: 0 <= v < |mem| && next == mem[..v] + mem[v + 1..] + [trace[i]] && LastFarthest(trace, i + 1, mem, v)
  {
    MemoryShape(OPT, trace, frames, i);
    var mem := Memory(OPT, trace, frames, i);
    if trace[i] !in mem && |mem| == frames {
      var v := Victim(OPT, trace, i, mem);
      assert LastFarthest(trace, i + 1, mem, v);
      assert Memory(OPT, trace, frames, i + 1) == mem[..v] + mem[v + 1..] + [trace[i]];
    }
  }

  /** No page is used later than the one at v, and those behind it sooner. */
  predicate LastFarthest(trace: seq<int>, i: nat, mem: seq<int>, v: nat)
    requires i <= |trace| && v < |mem|
  {
    && (forall j :: 0 <= j < |mem| ==> NextUse(trace, mem[j], i) <= NextUse(trace, mem[v], i))
    && (forall j :: v < j < |mem| ==> NextUse(trace, mem[j], i) < NextUse(trace, mem[v], i))
  }

  /** The pages that the first i accesses have loaded, one per miss. */
  function Loaded(policy: Policy, trace: seq<int>, frames: int, i: nat): (loads: seq<int>)
    requires frames != 0
    requires i <= |trace|
    ensures |loads| == Misses(policy, trace, frames, i)
  {
    if i == 0 then []
    else
      Loaded(policy, trace, frames, i - 1)
      + if trace[i - 1] in Memory(policy, trace, frames, i - 1) then [] else [trace[i - 1]]
  }

  /** FIFO holds the pages loaded last, in the order of loading. */
  lemma {:induction false} FifoHoldsLastLoaded(trace: seq<int>, frames: int, i: nat)
    requires frames >= 1
    requires i <= |trace|
    ensures Memory(FIFO, trace, frames, i) == Last(Loaded(FIFO, trace, frames, i), frames)
  {
    hide Last, RemoveAt;
    if i == 0 {
      LastNone(frames);
    } else {
      FifoHoldsLastLoaded(trace, frames, i - 1);
      var before := Loaded(FIFO, trace, frames, i - 1);
      LastNext(before, frames, trace[i - 1]);
      assert before + [] == before;
    }
  }

  /** The last k elements of s, or all of them. */
  function Last(s: seq<int>, k: nat): seq<int> {
    if |s| <= k then s else s[|s| - k..]
  }

  lemma LastNone(k: nat)
    ensures Last([], k) == []
  {
  }

  lemma LastNext(s: seq<int>, k: nat, x: int)
    requires k >= 1
    ensures |Last(s, k)| <= k
    ensures Last(s + [x], k) == (if |Last(s, k)| == k then RemoveAt(Last(s, k), 0) else Last(s, k)) + [x]
  {
  }

  // ----- FIFO shows Belady's anomaly: one more frame can cost one more miss -----

  ghost predicate FifoState(trace: seq<int>, frames: int, i: nat, mem: seq<int>, misses: nat)
    requires frames >= 1
    requires i <= |trace|
  {
    Memory(FIFO, trace, frames, i) == mem && Misses(FIFO, trace, frames, i) == misses
  }

  lemma FifoStart(trace: seq<int>, frames: int)
    requires frames >= 1
    ensures FifoState(trace, frames, 0, [], 0)
  {
  }

  lemma FifoHit(trace: seq<int>, frames: int, i: nat, mem: seq<int>, misses: nat)
    requires frames >= 1
    requires i < |trace|
    requires FifoState(trace, frames, i, mem, misses)
    requires trace[i] in mem
    ensures FifoState(trace, frames, i + 1, mem, misses)
  {
  }

  lemma FifoLoad(trace: seq<int>, frames: int, i: nat, mem: seq<int>, misses: nat, next: seq<int>)
    requires frames >= 1
    requires i < |trace|
    requires FifoState(trace, frames, i, mem, misses)
    requires trace[i] !in mem
    requires next == (if |mem| == frames then mem[1..] else mem) + [trace[i]]
    ensures FifoState(trace, frames, i + 1, next, misses + 1)
  {
  }

  ghost predicate BeladyString(t: seq<int>) {
    && |t| == 12
    && t[0] == t[4] == t[7] == 1
    && t[1] == t[5] == t[8] == 2
    && t[2] == t[9] == 3
    && t[3] == t[10] == 4
    && t[6] == t[11] == 5
  }

  lemma ABeladyString() returns (t: seq<int>)
    ensures BeladyString(t) && |t| == 12
  {
    t := [1, 2, 3, 4, 1, 2, 5, 1, 2, 3, 4, 5];
  }

  lemma FifoThree(t: seq<int>)
    requires BeladyString(t)
    ensures FifoState(t, 3, 12, [5, 3, 4], 9)
  {
    hide FifoState;
    FifoStart(t, 3);
    FifoLoad(t, 3, 0, [], 0, [1]);
    FifoLoad(t, 3, 1, [1], 1, [1, 2]);
    FifoLoad(t, 3, 2, [1, 2], 2, [1, 2, 3]);
    FifoLoad(t, 3, 3, [1, 2, 3], 3, [2, 3, 4]);
    FifoLoad(t, 3, 4, [2, 3, 4], 4, [3, 4, 1]);
    FifoLoad(t, 3, 5, [3, 4, 1], 5, [4, 1, 2]);
    FifoLoad(t, 3, 6, [4, 1, 2], 6, [1, 2, 5]);
    FifoHit(t, 3, 7, [1, 2, 5], 7);
    FifoHit(t, 3, 8, [1, 2, 5], 7);
    FifoLoad(t, 3, 9, [1, 2, 5], 7, [2, 5, 3]);
    FifoLoad(t, 3, 10, [2, 5, 3], 8, [5, 3, 4]);
    FifoHit(t, 3, 11, [5, 3, 4], 9);
  }

  lemma FifoFour(t: seq<int>)
    requires BeladyString(t)
    ensures FifoState(t, 4, 12, [2, 3, 4, 5], 10)
  {
    hide FifoState;
    FifoStart(t, 4);
    FifoLoad(t, 4, 0, [], 0, [1]);
    FifoLoad(t, 4, 1, [1], 1, [1, 2]);
    FifoLoad(t, 4, 2, [1, 2], 2, [1, 2, 3]);
    FifoLoad(t, 4, 3, [1, 2, 3], 3, [1, 2, 3, 4]);
    FifoHit(t, 4, 4, [1, 2, 3, 4], 4);
    FifoHit(t, 4, 5, [1, 2, 3, 4], 4);
    FifoLoad(t, 4, 6, [1, 2, 3, 4], 4, [2, 3, 4, 5]);
    FifoLoad(t, 4, 7, [2, 3, 4, 5], 5, [3, 4, 5, 1]);
    FifoLoad(t, 4, 8, [3, 4, 5, 1], 6, [4, 5, 1, 2]);
    FifoLoad(t, 4, 9, [4, 5, 1, 2], 7, [5, 1, 2, 3]);
    FifoLoad(t, 4, 10, [5, 1, 2, 3], 8, [1, 2, 3, 4]);
    FifoLoad(t, 4, 11, [1, 2, 3, 4], 9, [2, 3, 4, 5]);
  }

  /** More frames can hurt FIFO: the miss count is not monotone in the number of frames. */
  lemma FifoBeladyAnomaly() returns (trace: seq<int>)
    ensures Misses(FIFO, trace, 3, |trace|) < Misses(FIFO, trace, 4, |trace|)
  {
    hide BeladyString;
    trace := ABeladyString();
    FifoThree(trace);
    FifoFour(trace);
  }
}
