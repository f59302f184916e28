/**
 What the swapping of children in a skew heap is for: merging costs a number of steps that is
 logarithmic when averaged over any run of insertions and removals of the root.
 */
module SkewCost {
  import opened Process
  import opened SkewHeap
  import opened Strides
  import opened Words

  ghost predicate RightHeavy(t: Tree) {
    t.Node? && Size(t.r) > Size(t.l)
  }

  /** The potential: how many nodes have the larger subtree on the right. */
  ghost function Potential(t: Tree): nat {
    if t.Leaf? then 0
    else Potential(t.l) + Potential(t.r) + if RightHeavy(t) then 1 else 0
  }

  /** How many nodes on the rightmost path do not. */
  ghost function Light(t: Tree): nat {
    if t.Leaf? then 0
    else Light(t.r) + if RightHeavy(t) then 0 else 1
  }

  /** The steps of a merge are paid by the light nodes of its two right paths and by the potential. */
  lemma {:induction false} MergeCost(a: Tree, b: Tree)
    ensures MergeSteps(a, b) + Potential(MergeTree(a, b)) <= Potential(a) + Potential(b) + 2 * (Light(a) + Light(b))
    decreases Size(a) + Size(b)
  {
    hide Compare, Wrap;
    if a.Node? && b.Node? {
      if Compare(Wrap(a.stride), Wrap(b.stride)) == -1 {
        MergeCost(a.r, b);
        MergeSize(a.r, b);
      } else {
        MergeCost(a, b.r);
        MergeSize(a, b.r);
      }
    }
  }

  function Pow2(k: nat): (n: nat)
    ensures n >= 1
  {
    if k == 0 then 1 else 2 * Pow2(k - 1)
  }

  /** The light nodes are few: each halves what is left. */
  lemma {:induction false} LightIsLog(t: Tree)
    ensures Pow2(Light(t)) <= Size(t) + 1
  {
    if t.Node? {
      LightIsLog(t.r);
    }
  }

  lemma {:induction false} Pow2Grows(i: nat, j: nat)
    requires i < j
    ensures Pow2(i) < Pow2(j)
  {
    if i + 1 < j {
      Pow2Grows(i, j - 1);
    }
  }

  lemma LightBelow(t: Tree, k: nat)
    requires Size(t) < Pow2(k)
    ensures Light(t) <= k
  {
    LightIsLog(t);
    if Light(t) > k {
      Pow2Grows(k, Light(t));
    }
  }

  // ----- Runs -----

  datatype Op = Push(p: Proc, stride: int) | Pop

  ghost function After(t: Tree, ops: seq<Op>): Tree {
    if ops == [] then t else Apply(After(t, ops[..|ops| - 1]), ops[|ops| - 1])
  }

  /** skew_heap_insert, or skew_heap_remove of the root. */
  ghost function Apply(t: Tree, op: Op): Tree {
    match op
    case Push(p, stride) => MergeTree(t, Node(p, stride, Leaf, Leaf))
    case Pop => if t.Leaf? then t else MergeTree(t.l, t.r)
  }

  ghost function Steps(t: Tree, op: Op): nat {
    match op
    case Push(p, stride) => MergeSteps(t, Node(p, stride, Leaf, Leaf))
    case Pop => if t.Leaf? then 0 else MergeSteps(t.l, t.r)
  }

  ghost function AllSteps(t: Tree, ops: seq<Op>): nat {
    if ops == [] then 0
    else AllSteps(t, ops[..|ops| - 1]) + Steps(After(t, ops[..|ops| - 1]), ops[|ops| - 1])
  }

  lemma {:induction false} OpCost(t: Tree, op: Op, k: nat)
    requires Size(t) < Pow2(k)
    ensures Steps(t, op) + Potential(Apply(t, op)) <= Potential(t) + 4 * k + 2
  {
    match op {
      case Push(p, stride) =>
        var one := Node(p, stride, Leaf, Leaf);
        MergeCost(t, one);
        LightBelow(t, k);
        assert Light(one) == 1 && Potential(one) == 0;
      case Pop =>
        if t.Node? {
          MergeCost(t.l, t.r);
          LightBelow(t.l, k);
          LightBelow(t.r, k);
        }
    }
  }

  /**
   Over any run on a heap that starts empty and never holds 2^k processes, the operations cost 4 k + 2
   comparisons each on average.
   */
  lemma {:induction false} LogarithmicOnAverage(ops: seq<Op>, k: nat)
    requires forall i :: 0 <= i < |ops| ==> Size(After(Leaf, ops[..i])) < Pow2(k)
    ensures AllSteps(Leaf, ops) + Potential(After(Leaf, ops)) <= |ops| * (4 * k + 2)
  {
    hide Apply, Steps;
    if ops != [] {
      var before := ops[..|ops| - 1];
      forall i | 0 <= i < |before|
        ensures Size(After(Leaf, before[..i])) < Pow2(k)
      {
        assert before[..i] == ops[..i];
      }
      LogarithmicOnAverage(before, k);
      OpCost(After(Leaf, before), ops[|ops| - 1], k);
      assert |ops| * (4 * k + 2) == |before| * (4 * k + 2) + (4 * k + 2);
    }
  }
}
