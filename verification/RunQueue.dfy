/**
 The stride scheduler's run queue on the skew heap: enqueue, dequeue, pick_next, and the
 switch that puts them together.
 */
module RunQueue {
  import opened Process
  import opened Strides
  import opened Words
  import opened SkewHeap

  // ----- Heap order -----

  ghost predicate Ordered(t: Tree) {
    match t
    case Leaf => true
    case Node(_, s, l, r) =>
      && (l.Node? ==> s <= l.stride) && (r.Node? ==> s <= r.stride)
      && Ordered(l) && Ordered(r)
  }

  /** All true strides lie in the window that starts at lo. */
  ghost predicate Within(t: Tree, lo: int) {
    match t
    case Leaf => true
    case Node(_, s, l, r) => lo <= s <= lo + BIG_STRIDE && Within(l, lo) && Within(r, lo)
  }

  /** Merging ordered heaps whose strides share a window gives an ordered heap. */
  lemma {:induction false} MergeOrdered(a: Tree, b: Tree, lo: int)
    requires Ordered(a) && Ordered(b) && Within(a, lo) && Within(b, lo)
    ensures Ordered(MergeTree(a, b)) && Within(MergeTree(a, b), lo)
    ensures var m := MergeTree(a, b); m.Node? ==>
      (a.Node? && m.stride == a.stride) || (b.Node? && m.stride == b.stride)
    decreases Size(a) + Size(b)
  {
    hide Compare, Wrap;
    if a.Node? && b.Node? {
      CompareIsTrueOrder(a.stride, b.stride);
      if Compare(Wrap(a.stride), Wrap(b.stride)) == -1 {
        MergeOrdered(a.r, b, lo);
      } else {
        MergeOrdered(a, b.r, lo);
      }
    }
  }

  /** Order everywhere but, if p is the root, between the root and its children. */
  ghost predicate OrderedBut(t: Tree, p: Proc) {
    if t.Node? && t.p == p then Ordered(t.l) && Ordered(t.r) else Ordered(t)
  }

  ghost predicate WithinBut(t: Tree, p: Proc, lo: int) {
    match t
    case Leaf => true
    case Node(q, s, l, r) => (q != p ==> lo <= s <= lo + BIG_STRIDE) && WithinBut(l, p, lo) && WithinBut(r, p, lo)
  }

  lemma {:induction false} WithinOthers(t: Tree, p: Proc, lo: int)
    requires WithinBut(t, p, lo) && p !in Procs(t)
    ensures Within(t, lo)
  {
    if t.Node? {
      WithinOthers(t.l, p, lo);
      WithinOthers(t.r, p, lo);
    }
  }

  /** Removing any node keeps the order; removing the root even repairs it there. */
  lemma {:induction false} RemoveOrdered(t: Tree, p: Proc, lo: int)
    requires p in Procs(t) && Disjoint(t)
    requires OrderedBut(t, p) && WithinBut(t, p, lo)
    ensures Ordered(RemoveTree(t, p)) && Within(RemoveTree(t, p), lo)
    ensures var m := RemoveTree(t, p); t.p != p ==> m.Node? && m.stride == t.stride
    ensures var m := RemoveTree(t, p); Ordered(t) && m.Node? ==> t.stride <= m.stride
  {
    hide MergeTree;
    if t.p == p {
      WithinOthers(t.l, p, lo);
      WithinOthers(t.r, p, lo);
      MergeOrdered(t.l, t.r, lo);
    } else if p in Procs(t.l) {
      assert Ordered(t.l) && t.l.Node?;
      RemoveOrdered(t.l, p, lo);
      WithinOthers(t.r, p, lo);
    } else {
      assert Ordered(t.r) && t.r.Node?;
      RemoveOrdered(t.r, p, lo);
      WithinOthers(t.l, p, lo);
    }
  }

  // ----- Contents -----

  lemma {:induction false} MergeStride(a: Tree, b: Tree, p: Proc)
    requires Disjoint(a) && Disjoint(b) && Procs(a) !! Procs(b)
    requires p in Procs(a) || p in Procs(b)
    ensures p in Procs(MergeTree(a, b))
    ensures Sub(MergeTree(a, b), p).stride == if p in Procs(a) then Sub(a, p).stride else Sub(b, p).stride
    decreases Size(a) + Size(b)
  {
    hide Compare, Wrap;
    MergeProcs(a, b);
    if a.Node? && b.Node? {
      if Compare(Wrap(a.stride), Wrap(b.stride)) == -1 {
        MergeProcs(a.r, b);
        if p in Procs(a.r) || p in Procs(b) {
          MergeStride(a.r, b, p);
        }
      } else {
        MergeProcs(a, b.r);
        if p in Procs(a) || p in Procs(b.r) {
          MergeStride(a, b.r, p);
        }
      }
    }
  }

  /** Merging keeps every process with its stride. */
  lemma MergeContents(a: Tree, b: Tree)
    requires Disjoint(a) && Disjoint(b) && Procs(a) !! Procs(b)
    ensures Contents(MergeTree(a, b)) == Contents(a) + Contents(b)
  {
    hide MergeTree, Disjoint, Sub, Procs;
    MergeProcs(a, b);
    var t, sum := MergeTree(a, b), Contents(a) + Contents(b);
    forall p | p in Procs(t)
      ensures p in sum && Sub(t, p).stride == sum[p]
    {
      MergeStride(a, b, p);
    }
    assert forall p :: p in sum ==> p in Procs(t);
  }

  lemma {:induction false} RemoveProcs(t: Tree, p: Proc)
    requires p in Procs(t) && Disjoint(t)
    ensures Procs(RemoveTree(t, p)) == Procs(t) - {p}
    ensures Disjoint(RemoveTree(t, p))
    ensures Size(RemoveTree(t, p)) == Size(t) - 1
  {
    hide MergeTree;
    if t.p == p {
      MergeProcs(t.l, t.r);
      MergeSize(t.l, t.r);
    } else if p in Procs(t.l) {
      RemoveProcs(t.l, p);
    } else {
      RemoveProcs(t.r, p);
    }
  }

  lemma {:induction false} RemoveStride(t: Tree, p: Proc, q: Proc)
    requires p in Procs(t) && Disjoint(t)
    requires q in Procs(t) && q != p
    ensures q in Procs(RemoveTree(t, p))
    ensures Sub(RemoveTree(t, p), q).stride == Sub(t, q).stride
  {
    hide MergeTree;
    RemoveProcs(t, p);
    if t.p == p {
      MergeStride(t.l, t.r, q);
    } else if p in Procs(t.l) {
      RemoveProcs(t.l, p);
      if q in Procs(t.l) {
        RemoveStride(t.l, p, q);
      }
    } else {
      RemoveProcs(t.r, p);
      if q in Procs(t.r) {
        RemoveStride(t.r, p, q);
      }
    }
  }

  /** Removing takes out the one process and keeps every other with its stride. */
  lemma RemoveContents(t: Tree, p: Proc)
    requires p in Procs(t) && Disjoint(t)
    ensures Contents(RemoveTree(t, p)) == Contents(t) - {p}
  {
    hide RemoveTree, Sub, Disjoint;
    RemoveProcs(t, p);
    forall q | q in Procs(t) && q != p
      ensures q in Procs(RemoveTree(t, p))
      ensures Sub(RemoveTree(t, p), q).stride == Sub(t, q).stride
    {
      RemoveStride(t, p, q);
    }
  }

  /** The root of an ordered heap holds a smallest stride. */
  lemma {:induction false} RootSmallest(t: Tree)
    requires t.Node? && Ordered(t)
    ensures forall q :: q in Procs(t) ==> t.stride <= Sub(t, q).stride
  {
    if t.l.Node? {
      RootSmallest(t.l);
    }
    if t.r.Node? {
      RootSmallest(t.r);
    }
  }

  /** Strides in one window from lo, other than p's, are so in the tree. */
  lemma {:induction false} ContentsWithin(t: Tree, p: Proc, lo: int)
    requires Disjoint(t)
    requires forall q :: q in Procs(t) && q != p ==> lo <= Sub(t, q).stride <= lo + BIG_STRIDE
    ensures WithinBut(t, p, lo)
  {
    if t.Node? {
      assert Sub(t, t.p).stride == t.stride;
      assert forall q :: q in Procs(t.l) ==> q in Procs(t) && Sub(t, q) == Sub(t.l, q);
      assert forall q :: q in Procs(t.r) ==> q in Procs(t) && Sub(t, q) == Sub(t.r, q);
      ContentsWithin(t.l, p, lo);
      ContentsWithin(t.r, p, lo);
    }
  }

  lemma {:induction false} Least<P>(strides: map<P, int>) returns (lo: int)
    requires strides != map[]
    ensures exists p :: p in strides && strides[p] == lo
    ensures forall p :: p in strides ==> lo <= strides[p]
    decreases |strides|
  {
    var p :| p in strides;
    var rest := strides - {p};
    assert strides == rest[p := strides[p]];
    lo := strides[p];
    if rest != map[] {
      var least := Least(rest);
      if least < lo {
        var q :| q in rest && rest[q] == least;
        assert q in strides && strides[q] == least;
        lo := least;
      }
    }
  }

  /** Strides no further apart than the window lie in one, from the least of them on. */
  lemma WindowStart<P>(strides: map<P, int>) returns (lo: int)
    requires InWindow(strides)
    ensures forall p :: p in strides ==> lo <= strides[p] <= lo + BIG_STRIDE
  {
    if strides == map[] {
      lo := 0;
    } else {
      lo := Least(strides);
    }
  }

  // ----- The run queue -----

  /** lab6_stride += BIG_STRIDE / lab6_priority, on the root of a heap. */
  method Advance(p: Proc, ghost t: Tree)
    requires p == Root(t) && Links(t) && Disjoint(t)
    modifies p`stride
    ensures Links(t.(stride := t.stride + Pass(p.priority)))
    ensures p.stride == Wrap(t.stride + Pass(p.priority))
  {
    WrapSum(t.stride, Pass(p.priority));
    assert allocated(Procs(t.l)) && allocated(Procs(t.r));
    hide Wrap;
    if p.priority == 0 {
      p.stride := Wrap(p.stride + BIG_STRIDE);
    } else {
      p.stride := Wrap(p.stride + BIG_STRIDE / p.priority);
    }
  }

  class RunQueue {
    var pool: Proc?
    var procNum: nat
    ghost var tree: Tree

    ghost predicate Linked()
      reads this, Procs(tree)
    {
      && Root(tree) == pool && Disjoint(tree) && Links(tree)
      && (pool != null ==> pool.parent == null)
      && procNum == Size(tree)
    }

    ghost predicate Valid()
      reads this, Procs(tree)
    {
      Linked() && Ordered(tree) && InWindow(Contents(tree))
    }

    /** stride_init */
    constructor ()
      ensures Valid() && tree == Leaf
    {
      pool := null;
      procNum := 0;
      tree := Leaf;
    }

    /** stride_enqueue */
    method Enqueue(proc: Proc, ghost stride: int)
      requires Linked()
      requires proc !in Procs(tree)
      requires proc.stride == Wrap(stride)
      modifies this, Procs(tree)`left, Procs(tree)`right, Procs(tree)`parent, proc`left, proc`right, proc`parent
      ensures Linked()
      ensures old(Ordered(tree)) && InWindow(Contents(tree)) ==> Valid()
      ensures Contents(tree) == old(Contents(tree))[proc := stride]
      ensures Procs(tree) == old(Procs(tree)) + {proc}
      ensures procNum == old(procNum) + 1
    {
      ghost var one := Node(proc, stride, Leaf, Leaf);
      InsertContents(tree, proc, stride);
      if Ordered(tree) && InWindow(Contents(tree)[proc := stride]) {
        InsertOrdered(tree, proc, stride);
      }
      pool := SkewHeap.Insert(pool, proc, tree, stride);
      tree := MergeTree(tree, one);
      procNum := procNum + 1;
    }

    /**
     stride_pick_next: the root, whose stride is smallest, has its stride advanced by its pass.
     Only the order between it and its children may break.
     */
    method PickNext() returns (p: Proc?)
      requires Valid()
      modifies this`tree, (if pool == null then {} else {pool})`stride
      ensures Linked() && Procs(tree) == old(Procs(tree))
      ensures p == null <==> old(Contents(tree)) == map[]
      ensures p == null ==> tree == old(tree)
      ensures p != null ==>
          && IsSmallest(old(Contents(tree)), p)
          && p in Procs(tree) && OrderedBut(tree, p)
          && p.stride == Wrap(old(Contents(tree))[p] + Pass(p.priority))
          && Contents(tree) == old(Contents(tree))[p := old(Contents(tree))[p] + Pass(p.priority)]
    {
      hide Sub, Contents, Wrap, Links, Disjoint, Ordered, OrderedBut, Size, Procs;
      if pool == null {
        EmptyContents(tree);
        return null;
      }
      p := pool;
      PickFacts(tree, Pass(p.priority));
      Advance(p, tree);
      tree := tree.(stride := tree.stride + Pass(p.priority));
    }

    /** stride_dequeue: of any process; if it is the root, the order below it is enough. */
    method Dequeue(proc: Proc)
      requires Linked()
      requires proc in Procs(tree)
      modifies this, Procs(tree)`left, Procs(tree)`right, Procs(tree)`parent
      ensures Linked()
      ensures old(OrderedBut(tree, proc)) && InWindow(Contents(tree)) ==> Valid()
      ensures Contents(tree) == old(Contents(tree)) - {proc}
      ensures Procs(tree) == old(Procs(tree)) - {proc}
      ensures procNum == old(procNum) - 1
    {
      RemoveProcs(tree, proc);
      RemoveContents(tree, proc);
      if OrderedBut(tree, proc) && InWindow(Contents(tree) - {proc}) {
        RemovedOrdered(tree, proc);
      }
      pool := SkewHeap.Remove(pool, proc, tree);
      tree := RemoveTree(tree, proc);
      procNum := procNum - 1;
    }

    /** Picking the next process and taking it out of the queue. */
    method TakeNext() returns (next: Proc?)
      requires Valid()
      modifies this, Procs(tree)
      ensures Valid()
      ensures next == null <==> old(Contents(tree)) == map[]
      ensures next == null ==> Contents(tree) == map[]
      ensures next != null ==>
          var strides := old(Contents(tree));
          && IsSmallest(strides, next)
          && next.stride == Wrap(strides[next] + Pass(next.priority))
          && Contents(tree) == strides - {next}
    {
      hide Sub, Contents, Wrap, Links, Ordered, Size, OrderedBut, Disjoint;
      ghost var strides := Contents(tree);
      next := PickNext();
      if next != null {
        ScheduleMaps(strides, next, Pass(next.priority));
        Dequeue(next);
      }
    }

    /**
     The switch of `schedule`: the current process, if it is still runnable, goes back into the
     queue; then a process with the smallest true stride of all is picked and taken out.
     `strides` are the true strides of the processes in the queue and of the current one.
     */
    method Schedule(current: Proc?, ghost strides: map<Proc, int>) returns (next: Proc?)
      requires Valid()
      requires current != null ==>
        current !in Procs(tree) && current in strides && current.stride == Wrap(strides[current])
      requires Contents(tree) == if current == null then strides else strides - {current}
      requires InWindow(strides)
      modifies this, Procs(tree), if current == null then {} else {current}
      ensures Valid()
      ensures next == null <==> strides == map[]
      ensures next != null ==>
          && IsSmallest(strides, next)
          && next.stride == Wrap(strides[next] + Pass(next.priority))
          && Contents(tree) == strides - {next}
          && InWindow(strides[next := strides[next] + Pass(next.priority)])
    {
      hide Sub, Contents, Wrap, Links, Ordered, Size, OrderedBut, Disjoint;
      assert allocated(Procs(tree));
      if current != null {
        assert Contents(tree)[current := strides[current]] == strides;
        Enqueue(current, strides[current]);
      }
      next := TakeNext();
      if next != null {
        ScheduleMaps(strides, next, Pass(next.priority));
      }
    }

    /**
     k switches in a row among the same processes, each of which is still runnable when its turn ends.
     The real heap with its wrapped strides makes every one of the picks by the true strides, so it
     shares the processor in proportion, and the strides never leave the window.
     */
    method Switches(first: Proc, k: nat, ghost strides: map<Proc, int>) returns (current: Proc, ghost picks: seq<Proc>)
      requires Valid()
      requires first !in Procs(tree) && first in strides && first.stride == Wrap(strides[first])
      requires Contents(tree) == strides - {first} && InWindow(strides)
      modifies this, Procs(tree), first
      ensures Valid() && current in strides
      ensures |picks| == k && (k > 0 ==> current == picks[k - 1]) && forall p :: p in picks ==> p in strides
      ensures var pass := Passes(strides.Keys);
        && PicksSmallest(strides, pass, picks)
        && var after := AfterPicks(strides, pass, picks);
           InWindow(after) && Contents(tree) == after - {current} && current.stride == Wrap(after[current])
      ensures Fair(strides, picks)
    {
      hide Valid, Contents, Wrap, Procs, InWindow, AfterPicks, PicksSmallest, Fair, Passes;
      ghost var pass := Passes(strides.Keys);
      current, picks := first, [];
      ContentsKeys(tree);
      assert strides.Keys == Procs(tree) + {first};
      NoPicks(strides, pass);
      for i := 0 to k
        invariant Valid() && |picks| == i && forall p :: p in picks ==> p in strides
        invariant current !in Procs(tree) && current in strides && (i > 0 ==> current == picks[i - 1])
        invariant Procs(tree) <= strides.Keys == old(Procs(tree)) + {first}
        invariant PicksSmallest(strides, pass, picks)
        invariant Contents(tree) == AfterPicks(strides, pass, picks) - {current}
        invariant current.stride == Wrap(AfterPicks(strides, pass, picks)[current])
      {
        ghost var now := AfterPicks(strides, pass, picks);
        WindowForever(strides, pass, picks);
        assert current in now;
        var next := Schedule(current, now);
        PickedNext(strides, pass, picks, next);
        ContentsKeys(tree);
        current, picks := next, picks + [next];
      }
      WindowForever(strides, pass, picks);
      FairPicks(strides, picks);
    }
  }

  /** The passes of a set of processes. */
  function Passes(procs: set<Proc>): (pass: map<Proc, nat>)
    ensures pass.Keys == procs && forall p :: p in procs ==> pass[p] == Pass(p.priority)
    ensures forall p :: p in pass ==> pass[p] <= BIG_STRIDE
  {
    map p | p in procs :: Pass(p.priority)
  }

  lemma ContentsKeys(t: Tree)
    ensures Contents(t).Keys == Procs(t)
  {
  }

  lemma NoPicks(strides: map<Proc, int>, pass: map<Proc, nat>)
    requires strides.Keys <= pass.Keys
    ensures PicksSmallest(strides, pass, []) && AfterPicks(strides, pass, []) == strides
  {
  }

  /** One more pick. */
  lemma PickedNext(strides: map<Proc, int>, pass: map<Proc, nat>, picks: seq<Proc>, next: Proc)
    requires strides.Keys <= pass.Keys && forall p :: p in picks ==> p in strides
    requires PicksSmallest(strides, pass, picks) && IsSmallest(AfterPicks(strides, pass, picks), next)
    ensures next in strides && forall p :: p in picks + [next] ==> p in strides
    ensures PicksSmallest(strides, pass, picks + [next])
    ensures AfterPicks(strides, pass, picks + [next]) == Picked(AfterPicks(strides, pass, picks), pass, next)
    ensures var after := AfterPicks(strides, pass, picks + [next]);
      && after - {next} == AfterPicks(strides, pass, picks) - {next}
      && after[next] == AfterPicks(strides, pass, picks)[next] + pass[next]
  {
    assert (picks + [next])[..|picks|] == picks;
  }

  /** Processes that start level get turns in proportion to their priorities. */
  ghost predicate Fair(strides: map<Proc, int>, picks: seq<Proc>) {
    forall p: Proc, q: Proc :: p in strides && q in strides && strides[p] == strides[q] && Weight(p.priority) <= BIG_STRIDE ==>
      InProportion(Times<Proc>(picks, p), p.priority, Times<Proc>(picks, q), q.priority)
  }

  lemma FairPicks(strides: map<Proc, int>, picks: seq<Proc>)
    requires (forall p :: p in picks ==> p in strides) && PicksSmallest(strides, Passes(strides.Keys), picks)
    ensures Fair(strides, picks)
  {
    hide Times, PicksSmallest, Passes, Pass, InProportion;
    forall p: Proc, q: Proc | p in strides && q in strides && strides[p] == strides[q] && Weight(p.priority) <= BIG_STRIDE
      ensures InProportion(Times<Proc>(picks, p), p.priority, Times<Proc>(picks, q), q.priority)
    {
      var pass := Passes(strides.Keys);
      FairShare<Proc>(strides, pass, picks, p, q);
      FairTurns(Times<Proc>(picks, p), p.priority, Times<Proc>(picks, q), q.priority, pass[p], pass[q]);
    }
  }

  /** What a pick does to the tree, all in terms of its contents. */
  lemma PickFacts(t: Tree, pass: nat)
    requires t.Node? && Ordered(t) && Disjoint(t)
    ensures var t' := t.(stride := t.stride + pass);
      && t.p in Contents(t) && Contents(t)[t.p] == t.stride && t.p in Procs(t')
      && IsSmallest(Contents(t), t.p) && Contents(t) != map[]
      && OrderedBut(t', t.p) && Disjoint(t') && Size(t') == Size(t) && Procs(t') == Procs(t)
      && Contents(t') == Contents(t)[t.p := Contents(t)[t.p] + pass]
  {
    hide Contents, Sub;
    RootFacts(t);
    RootAdvanced(t, t.stride + pass);
    RootIn(t);
  }

  lemma RootFacts(t: Tree)
    requires t.Node? && Ordered(t)
    ensures t.p in Contents(t) && Contents(t)[t.p] == t.stride
    ensures IsSmallest(Contents(t), t.p)
  {
    RootSmallest(t);
  }

  lemma SingleContents(proc: Proc, stride: int)
    ensures var one := Node(proc, stride, Leaf, Leaf);
      Procs(one) == {proc} && Contents(one) == map[proc := stride] && Disjoint(one) && Size(one) == 1
  {
  }

  lemma InsertContents(t: Tree, proc: Proc, stride: int)
    requires Disjoint(t) && proc !in Procs(t)
    ensures var m := MergeTree(t, Node(proc, stride, Leaf, Leaf));
      && Disjoint(m) && Procs(m) == Procs(t) + {proc} && Size(m) == Size(t) + 1
      && Contents(m) == Contents(t)[proc := stride]
  {
    hide MergeTree, Sub, Contents, Disjoint, Procs, Size;
    var one := Node(proc, stride, Leaf, Leaf);
    SingleContents(proc, stride);
    MergeProcs(t, one);
    MergeContents(t, one);
    MergeSize(t, one);
    assert Contents(t) + map[proc := stride] == Contents(t)[proc := stride];
  }

  lemma InsertOrdered(t: Tree, proc: Proc, stride: int)
    requires Disjoint(t) && Ordered(t)
    requires proc !in Procs(t)
    requires InWindow(Contents(t)[proc := stride])
    ensures Ordered(MergeTree(t, Node(proc, stride, Leaf, Leaf)))
  {
    hide MergeTree, Disjoint, InWindow;
    var all := Contents(t)[proc := stride];
    var lo := WindowStart(all);
    assert proc in all && lo <= stride <= lo + BIG_STRIDE;
    forall q | q in Procs(t)
      ensures lo <= Sub(t, q).stride <= lo + BIG_STRIDE
    {
      assert q in all && all[q] == Sub(t, q).stride;
    }
    ContentsWithin(t, proc, lo);
    WithinOthers(t, proc, lo);
    MergeOrdered(t, Node(proc, stride, Leaf, Leaf), lo);
  }

  lemma RemovedOrdered(t: Tree, p: Proc)
    requires p in Procs(t) && Disjoint(t)
    requires OrderedBut(t, p) && InWindow(Contents(t) - {p})
    ensures Ordered(RemoveTree(t, p))
  {
    hide RemoveTree, InWindow;
    var rest := Contents(t) - {p};
    var lo := WindowStart(rest);
    assert forall q :: q in Procs(t) && q != p ==> q in rest && rest[q] == Sub(t, q).stride;
    ContentsWithin(t, p, lo);
    RemoveOrdered(t, p, lo);
  }

  /** Advancing the root's stride changes its stride alone; only the order at the root may break. */
  lemma RootAdvanced(t: Tree, stride: int)
    requires t.Node? && Disjoint(t) && Ordered(t)
    ensures var t' := t.(stride := stride);
      && OrderedBut(t', t.p) && Disjoint(t') && Size(t') == Size(t) && Procs(t') == Procs(t)
      && Contents(t') == Contents(t)[t.p := stride]
  {
    hide Contents, Sub;
    RootAdvancedContents(t, stride);
  }

  lemma RootAdvancedContents(t: Tree, stride: int)
    requires t.Node?
    ensures Contents(t.(stride := stride)) == Contents(t)[t.p := stride]
  {
    var t' := t.(stride := stride);
    assert Procs(t') == Procs(t);
    hide Procs;
    assert t.p in Procs(t) by { RootIn(t); }
    forall q | q in Procs(t)
      ensures Sub(t', q).stride == if q == t.p then stride else Sub(t, q).stride
    {
    }
    hide Sub;
  }

  lemma EmptyContents(t: Tree)
    requires t.Leaf?
    ensures Contents(t) == map[]
  {
  }

  /** What happens to the true strides around a pick. */
  lemma ScheduleMaps(strides: map<Proc, int>, next: Proc, pass: nat)
    requires InWindow(strides) && IsSmallest(strides, next) && pass <= BIG_STRIDE
    ensures var after := strides[next := strides[next] + pass];
      after - {next} == strides - {next} && InWindow(after) && InWindow(after - {next})
  {
    PickKeepsWindow(strides, map[next := pass], next);
  }
}
