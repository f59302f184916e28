/**
 The skew heap of runnable processes: nodes linked in place through left, right and parent
 pointers. The specification is a tree of the same processes with their true strides; the
 pointers store the strides wrapped to 32 bits.
 */
module SkewHeap {
  import opened Process
  import opened Strides
  import opened Words

  datatype Tree = Leaf | Node(p: Proc, stride: int, l: Tree, r: Tree)

  ghost function Procs(t: Tree): set<Proc> {
    match t
    case Leaf => {}
    case Node(p, _, l, r) => {p} + Procs(l) + Procs(r)
  }

  /** No process occurs twice. */
  ghost predicate Disjoint(t: Tree) {
    match t
    case Leaf => true
    case Node(p, _, l, r) =>
      p !in Procs(l) && p !in Procs(r) && Procs(l) !! Procs(r) && Disjoint(l) && Disjoint(r)
  }

  function Root(t: Tree): Proc? {
    match t
    case Leaf => null
    case Node(p, _, _, _) => p
  }

  /** The pointers of the tree's processes are the tree; only the root's parent is left open. */
  ghost predicate Links(t: Tree)
    reads Procs(t)
  {
    match t
    case Leaf => true
    case Node(p, stride, l, r) =>
      && p.stride == Wrap(stride)
      && p.left == Root(l) && p.right == Root(r)
      && Links(l) && Links(r)
      && (l.Node? ==> l.p.parent == p)
      && (r.Node? ==> r.p.parent == p)
  }

  // ----- The specification -----

  ghost function Size(t: Tree): nat {
    match t
    case Leaf => 0
    case Node(_, _, l, r) => 1 + Size(l) + Size(r)
  }

  ghost function MergeTree(a: Tree, b: Tree): Tree
    decreases Size(a) + Size(b)
  {
    if a.Leaf? then b
    else if b.Leaf? then a
    else if Compare(Wrap(a.stride), Wrap(b.stride)) == -1 then Node(a.p, a.stride, MergeTree(a.r, b), a.l)
    else Node(b.p, b.stride, MergeTree(a, b.r), b.l)
  }

  /** The calls of skew_heap_merge that compare two nodes. */
  ghost function MergeSteps(a: Tree, b: Tree): nat
    decreases Size(a) + Size(b)
  {
    if a.Leaf? || b.Leaf? then 0
    else if Compare(Wrap(a.stride), Wrap(b.stride)) == -1 then 1 + MergeSteps(a.r, b)
    else 1 + MergeSteps(a, b.r)
  }

  /** The subtree under process p. */
  ghost function Sub(t: Tree, p: Proc): (s: Tree)
    requires p in Procs(t)
    ensures s.Node? && s.p == p && Procs(s) <= Procs(t)
    ensures Disjoint(t) ==> Disjoint(s)
    ensures Disjoint(t) && t.p != p ==> t.p !in Procs(s)
  {
    if t.p == p then t else if p in Procs(t.l) then Sub(t.l, p) else Sub(t.r, p)
  }

  /** The tree with the node of process p replaced by the merge of its two subtrees. */
  ghost function RemoveTree(t: Tree, p: Proc): Tree
    requires p in Procs(t)
  {
    if t.p == p then MergeTree(t.l, t.r)
    else if p in Procs(t.l) then t.(l := RemoveTree(t.l, p))
    else t.(r := RemoveTree(t.r, p))
  }

  /** What the heap holds: each process with its true stride. */
  ghost function Contents(t: Tree): map<Proc, int> {
    map p | p in Procs(t) :: Sub(t, p).stride
  }

  // ----- The pointer operations -----

  lemma RootIn(t: Tree)
    ensures Root(t) != null ==> Root(t) in Procs(t)
    ensures Root(t) == null <==> t.Leaf?
  {
  }

  /** Merging keeps exactly the processes of both heaps, each once. */
  lemma {:induction false} MergeProcs(a: Tree, b: Tree)
    requires Disjoint(a) && Disjoint(b) && Procs(a) !! Procs(b)
    ensures Procs(MergeTree(a, b)) == Procs(a) + Procs(b)
    ensures Disjoint(MergeTree(a, b))
    decreases Size(a) + Size(b)
  {
    hide Compare, Wrap;
    if a.Node? && b.Node? {
      if Compare(Wrap(a.stride), Wrap(b.stride)) == -1 {
        MergeProcs(a.r, b);
      } else {
        MergeProcs(a, b.r);
      }
    }
  }

  lemma {:induction false} MergeSize(a: Tree, b: Tree)
    ensures Size(MergeTree(a, b)) == Size(a) + Size(b)
    decreases Size(a) + Size(b)
  {
    hide Compare, Wrap;
    if a.Node? && b.Node? {
      MergeSize(a.r, b);
      MergeSize(a, b.r);
    }
  }

  /** A root's parent can be set without touching the tree below it. */
  method SetParent(rep: Proc, p: Proc?, ghost trep: Tree)
    requires rep == Root(trep) && Links(trep) && Disjoint(trep)
    modifies rep`parent
    ensures Links(trep) && rep.parent == p
  {
    assert allocated(Procs(trep.l)) && allocated(Procs(trep.r));
    rep.parent := p;
  }

  /** The last steps of a merge: l and r become the children of p. */
  method Attach(p: Proc, l: Proc?, r: Proc?, ghost tl: Tree, ghost tr: Tree, ghost stride: int)
    requires l == Root(tl) && r == Root(tr)
    requires Links(tl) && Links(tr)
    requires p !in Procs(tl) && p !in Procs(tr) && Procs(tl) !! Procs(tr)
    requires Disjoint(tl)
    requires p.stride == Wrap(stride)
    requires r != null ==> r.parent == p
    modifies p`left, p`right, (if tl.Node? then {tl.p} else {})`parent
    ensures Links(Node(p, stride, tl, tr))
  {
    assert allocated(Procs(tl)) && allocated(Procs(tr));
    RootIn(tl);
    RootIn(tr);
    hide Disjoint, Wrap;
    if l != null {
      SetParent(l, p, tl);
    }
    p.left := l;
    p.right := r;
  }

  /** skew_heap_merge */
  method Merge(a: Proc?, b: Proc?, ghost ta: Tree, ghost tb: Tree) returns (root: Proc?, ghost steps: nat)
    requires Root(ta) == a && Root(tb) == b
    requires Disjoint(ta) && Disjoint(tb) && Procs(ta) !! Procs(tb)
    requires Links(ta) && Links(tb)
    modifies Procs(ta)`left, Procs(ta)`right, Procs(ta)`parent, Procs(tb)`left, Procs(tb)`right, Procs(tb)`parent
    ensures root == Root(MergeTree(ta, tb)) && steps == MergeSteps(ta, tb)
    ensures Links(MergeTree(ta, tb))
    ensures root != null ==> root.parent == old(root.parent)
    decreases Size(ta) + Size(tb)
  {
    hide Compare, Wrap;
    if a == null {
      return b, 0;
    } else if b == null {
      return a, 0;
    }
    assert allocated(Procs(ta.l)) && allocated(Procs(tb.l));
    if Compare(a.stride, b.stride) == -1 {
      MergeProcs(ta.r, tb);
      RootIn(MergeTree(ta.r, tb));
      var r := a.left;
      var l;
      l, steps := Merge(a.right, b, ta.r, tb);
      assert Links(ta.l);
      Attach(a, l, r, MergeTree(ta.r, tb), ta.l, ta.stride);
      return a, steps + 1;
    } else {
      MergeProcs(ta, tb.r);
      RootIn(MergeTree(ta, tb.r));
      var r := b.left;
      var l;
      l, steps := Merge(a, b.right, ta, tb.r);
      assert Links(tb.l);
      Attach(b, l, r, MergeTree(ta, tb.r), tb.l, tb.stride);
      return b, steps + 1;
    }
  }

  /** skew_heap_insert */
  method Insert(a: Proc?, b: Proc, ghost ta: Tree, ghost stride: int) returns (root: Proc?)
    requires Root(ta) == a && Disjoint(ta) && Links(ta)
    requires a != null ==> a.parent == null
    requires b !in Procs(ta) && b.stride == Wrap(stride)
    modifies Procs(ta)`left, Procs(ta)`right, Procs(ta)`parent, b`left, b`right, b`parent
    ensures var t := MergeTree(ta, Node(b, stride, Leaf, Leaf));
      root == Root(t) && Links(t) && root.parent == null
  {
    assert allocated(Procs(ta));
    b.left, b.right, b.parent := null, null, null;
    ghost var tb := Node(b, stride, Leaf, Leaf);
    assert Procs(tb) == {b};
    MergeProcs(ta, tb);
    RootIn(MergeTree(ta, tb));
    ghost var steps;
    root, steps := Merge(a, b, ta, tb);
  }

  // ----- Removing any node -----

  /** The process whose child p is. */
  ghost function ParentIn(t: Tree, p: Proc): (q: Proc)
    requires p in Procs(t) && t.p != p
    ensures q in Procs(t)
  {
    if p in Procs(t.l) then (if t.l.p == p then t.p else ParentIn(t.l, p))
    else
      assert p in Procs(t.r);
      if t.r.p == p then t.p else ParentIn(t.r, p)
  }

  /** The parent pointer of a node below the root leads to its parent, which points back at it. */
  lemma {:induction false} ParentLinks(t: Tree, p: Proc)
    requires Links(t) && Disjoint(t)
    requires p in Procs(t)
    ensures Links(Sub(t, p))
    ensures t.Node? && (t.p != p ==>
      var q := ParentIn(t, p);
      && p.parent == q && q !in Procs(Sub(t, p)) && q != p
      && (q.left == p || q.right == p))
  {
    if t.p == p {
    } else if p in Procs(t.l) {
      ParentLinks(t.l, p);
    } else {
      ParentLinks(t.r, p);
    }
  }

  twostate predicate Same(n: Proc)
    reads n
  {
    n.stride == old(n.stride) && n.parent == old(n.parent) && n.left == old(n.left) && n.right == old(n.right)
  }

  twostate lemma {:induction false} LinksSame(t: Tree)
    requires old(Links(t))
    requires old(allocated(Procs(t)))
    requires forall n :: n in Procs(t) ==> Same(n)
    ensures Links(t)
  {
    if t.Node? {
      assert Same(t.p);
      assert t.l.Node? ==> Same(t.l.p);
      assert t.r.Node? ==> Same(t.r.p);
      LinksSame(t.l);
      LinksSame(t.r);
    }
  }

  /** Node n after a removal: as before, but if it is q its child p is now rep. */
  twostate predicate Rehung(n: Proc, new q: Proc, new p: Proc, new rep: Proc?)
    reads n
  {
    && n.stride == old(n.stride) && n.parent == old(n.parent)
    && n.left == (if n == q && old(n.left) == p then rep else old(n.left))
    && n.right == (if n == q && old(n.left) != p then rep else old(n.right))
  }

  /**
   The pointer surgery of a removal below the root: when p's place under its parent is taken by
   `rep`, and nothing else of the tree outside p's subtree changes, the pointers are the tree
   without p.
   */
  twostate lemma {:induction false} Relinked(t: Tree, new p: Proc, new sub: Tree, new q: Proc, new rep: Proc?, new trep: Tree)
    requires old(Links(t)) && Disjoint(t)
    requires p in Procs(t) && t.p != p
    requires sub == Sub(t, p) && q == ParentIn(t, p)
    requires old(allocated(Procs(t)))
    requires trep == MergeTree(sub.l, sub.r)
    requires rep == Root(trep) && Links(trep)
    requires rep != null ==> rep.parent == old(p.parent)
    requires forall n :: n in Procs(t) - Procs(sub) ==> Rehung(n, q, p, rep)
    ensures Links(RemoveTree(t, p))
    ensures Root(RemoveTree(t, p)) == Root(t)
  {
    assert Rehung(t.p, q, p, rep);
    if p in Procs(t.l) {
      RelinkedOther(t.r, q, p, rep);
      if t.l.p != p {
        Relinked(t.l, p, sub, q, rep, trep);
        assert Rehung(t.l.p, q, p, rep);
      }
    } else {
      RelinkedOther(t.l, q, p, rep);
      if t.r.p != p {
        Relinked(t.r, p, sub, q, rep, trep);
        assert Rehung(t.r.p, q, p, rep);
      }
    }
  }

  twostate lemma RelinkedOther(t: Tree, new q: Proc, new p: Proc, new rep: Proc?)
    requires old(Links(t))
    requires old(allocated(Procs(t)))
    requires q !in Procs(t)
    requires forall n :: n in Procs(t) ==> Rehung(n, q, p, rep)
    ensures Links(t)
  {
    forall n | n in Procs(t)
      ensures Same(n)
    {
      assert Rehung(n, q, p, rep);
    }
    LinksSame(t);
  }

  lemma SubMerged(sub: Tree)
    requires sub.Node? && Disjoint(sub)
    ensures Disjoint(sub.l) && Disjoint(sub.r) && Procs(sub.l) !! Procs(sub.r)
    ensures var m := MergeTree(sub.l, sub.r);
      Disjoint(m) && Procs(m) == Procs(sub) - {sub.p}
  {
    MergeProcs(sub.l, sub.r);
  }

  /** skew_heap_remove */
  method Remove(a: Proc?, b: Proc, ghost t: Tree) returns (root: Proc?)
    requires Root(t) == a && Disjoint(t) && Links(t)
    requires b in Procs(t)
    requires a.parent == null
    modifies Procs(t)`left, Procs(t)`right, Procs(t)`parent
    ensures root == Root(RemoveTree(t, b)) && Links(RemoveTree(t, b))
    ensures root != null ==> root.parent == null
  {
    hide MergeTree, Disjoint;
    ghost var sub := Sub(t, b);
    ghost var trep := MergeTree(sub.l, sub.r);
    ParentLinks(t, b);
    SubMerged(sub);
    RootIn(trep);
    assert allocated(Procs(t));
    var p := b.parent;
    var rep;
    ghost var steps;
    rep, steps := Merge(b.left, b.right, sub.l, sub.r);
    if rep != null {
      SetParent(rep, p, trep);
    }
    if p != null {
      assert p !in Procs(trep) && p !in Procs(sub);
      assert forall n :: n in Procs(t) - Procs(sub) ==> Same(n);
      HangUnder(p, b, rep, trep);
      forall n | n in Procs(t) - Procs(sub)
        ensures Rehung(n, p, b, rep)
      {
      }
      Relinked(t, b, sub, p, rep, trep);
      return a;
    } else {
      return rep;
    }
  }

  /** p's child b gives its place to rep. */
  method HangUnder(p: Proc, b: Proc, rep: Proc?, ghost trep: Tree)
    requires Links(trep) && p !in Procs(trep)
    modifies p`left, p`right
    ensures Links(trep)
    ensures p.left == if old(p.left) == b then rep else old(p.left)
    ensures p.right == if old(p.left) != b then rep else old(p.right)
  {
    assert allocated(Procs(trep));
    if p.left == b {
      p.left := rep;
    } else {
      p.right := rep;
    }
  }
}
