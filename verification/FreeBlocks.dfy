/**
 The page allocator's free list as a value: blocks of free pages, lowest address first. Such a
 list is canonical when no two blocks touch; then it is determined by the set of free pages.
 */
module FreeBlocks {

  /** The pages base .. base + size - 1. */
  datatype Block = Block(base: nat, size: nat) {
    function End(): nat {
      base + size
    }

    predicate Has(p: nat) {
      base <= p < End()
    }
  }

  /** Page p is free. */
  ghost predicate Free(list: seq<Block>, p: nat) {
    exists i :: 0 <= i < |list| && list[i].Has(p)
  }

  /** In address order, disjoint and fully coalesced. */
  ghost predicate Canonical(list: seq<Block>) {
    && (forall i :: 0 <= i < |list| ==> list[i].size > 0)
    && (forall i, j :: 0 <= i < j < |list| ==> list[i].End() < list[j].base)
  }

  ghost predicate SamePages(a: seq<Block>, b: seq<Block>) {
    forall p: nat :: Free(a, p) <==> Free(b, p)
  }

  function Total(list: seq<Block>): nat {
    if list == [] then 0 else list[0].size + Total(list[1..])
  }

  // ----- A canonical list is determined by its pages -----

  lemma {:induction false} FreeCons(list: seq<Block>, p: nat)
    requires list != []
    ensures Free(list, p) <==> list[0].Has(p) || Free(list[1..], p)
  {
    if Free(list, p) {
      var i :| 0 <= i < |list| && list[i].Has(p);
      assert i > 0 ==> list[1..][i - 1].Has(p);
    }
    if Free(list[1..], p) {
      var i :| 0 <= i < |list[1..]| && list[1..][i].Has(p);
      assert list[i + 1].Has(p);
    }
  }

  lemma {:induction false} TailAbove(list: seq<Block>, p: nat)
    requires list != [] && Canonical(list) && Free(list[1..], p)
    ensures p > list[0].End()
  {
    var i :| 0 <= i < |list[1..]| && list[1..][i].Has(p);
    assert list[0].End() < list[i + 1].base;
  }

  /** The first block begins at the lowest free page and ends before the next page that is not free. */
  lemma {:induction false} FirstBlock(list: seq<Block>)
    requires list != [] && Canonical(list)
    ensures Free(list, list[0].base) && !Free(list, list[0].End())
    ensures forall p: nat :: list[0].Has(p) ==> Free(list, p)
    ensures forall p: nat :: Free(list, p) ==> p >= list[0].base
  {
    var e := list[0].End();
    FreeCons(list, e);
    if Free(list[1..], e) {
      TailAbove(list, e);
    }
    forall p: nat | Free(list, p)
      ensures p >= list[0].base
    {
      FreeCons(list, p);
      if Free(list[1..], p) {
        TailAbove(list, p);
      }
    }
  }

  lemma {:induction false} Determined(a: seq<Block>, b: seq<Block>)
    requires Canonical(a) && Canonical(b) && SamePages(a, b)
    ensures a == b
    decreases |a|
  {
    if a == [] || b == [] {
      if a != [] { FirstBlock(a); }
      if b != [] { FirstBlock(b); }
    } else {
      FirstBlock(a);
      FirstBlock(b);
      SameFirst(a, b);
      forall p: nat
        ensures Free(a[1..], p) <==> Free(b[1..], p)
      {
        FreeCons(a, p);
        FreeCons(b, p);
        if Free(a[1..], p) { TailAbove(a, p); }
        if Free(b[1..], p) { TailAbove(b, p); }
      }
      Determined(a[1..], b[1..]);
      assert a == [a[0]] + a[1..] && b == [b[0]] + b[1..];
    }
  }

  lemma {:induction false} SameFirst(a: seq<Block>, b: seq<Block>)
    requires a != [] && b != [] && Canonical(a) && Canonical(b) && SamePages(a, b)
    ensures a[0] == b[0]
  {
    EndsNoLater(a, b);
    EndsNoLater(b, a);
  }

  lemma {:induction false} EndsNoLater(a: seq<Block>, b: seq<Block>)
    requires a != [] && b != [] && Canonical(a) && Canonical(b) && SamePages(a, b)
    ensures a[0].base == b[0].base
    ensures b[0].End() <= a[0].End()
  {
    FirstBlock(a);
    FirstBlock(b);
    assert !Free(b, a[0].End());
    assert !b[0].Has(a[0].End());
  }

  // ----- Allocation -----

  /** The first block with at least n pages, or the length of the list. */
  function FirstFit(list: seq<Block>, n: nat): (i: nat)
    ensures i <= |list|
    ensures i < |list| ==> list[i].size >= n
    ensures forall j :: 0 <= j < i ==> list[j].size < n
  {
    if list == [] || list[0].size >= n then 0 else 1 + FirstFit(list[1..], n)
  }

  /** The list once block i has given its first n pages away. */
  function Taken(list: seq<Block>, i: nat, n: nat): seq<Block>
    requires i < |list| && list[i].size >= n
  {
    if list[i].size > n then list[i := Block(list[i].base + n, list[i].size - n)] else list[..i] + list[i + 1..]
  }

  /** The n pages from a on are all free. */
  ghost predicate Fits(list: seq<Block>, a: nat, n: nat) {
    forall p: nat :: a <= p < a + n ==> Free(list, p)
  }

  /** A free range lies within one block. */
  lemma {:induction false} FitsInBlock(list: seq<Block>, a: nat, n: nat) returns (j: nat)
    requires Canonical(list) && n > 0 && Fits(list, a, n)
    ensures j < |list| && list[j].base <= a && a + n <= list[j].End()
  {
    assert Free(list, a);
    j :| 0 <= j < |list| && list[j].Has(a);
    var e := list[j].End();
    forall i | 0 <= i < |list|
      ensures !list[i].Has(e)
    {
    }
    assert !Free(list, e);
  }

  /** First fit finds the lowest address at which n pages are free, and fails only if there is none. */
  lemma {:induction false} FirstFitIsLowest(list: seq<Block>, n: nat)
    requires Canonical(list) && n > 0
    ensures var i := FirstFit(list, n);
      && (i < |list| ==> Fits(list, list[i].base, n))
      && forall a: nat :: Fits(list, a, n) ==> i < |list| && list[i].base <= a
  {
    var i := FirstFit(list, n);
    if i < |list| {
      forall p: nat | list[i].base <= p < list[i].base + n
        ensures Free(list, p)
      {
        assert list[i].Has(p);
      }
    }
    forall a: nat | Fits(list, a, n)
      ensures i < |list| && list[i].base <= a
    {
      var j := FitsInBlock(list, a, n);
      assert i <= j;
    }
  }

  lemma {:induction false} TotalConcat(a: seq<Block>, b: seq<Block>)
    ensures Total(a + b) == Total(a) + Total(b)
  {
    if a == [] {
      assert a + b == b;
    } else {
      TotalConcat(a[1..], b);
      assert (a + b)[1..] == a[1..] + b;
    }
  }

  lemma {:induction false} TotalAt(list: seq<Block>, i: nat)
    requires i < |list|
    ensures Total(list) == Total(list[..i]) + list[i].size + Total(list[i + 1..])
  {
    var tail := [list[i]] + list[i + 1..];
    assert list == list[..i] + tail && tail[1..] == list[i + 1..];
    TotalConcat(list[..i], tail);
  }

  lemma {:induction false} TakenCanonical(list: seq<Block>, i: nat, n: nat)
    requires Canonical(list) && i < |list| && 0 < n <= list[i].size
    ensures Canonical(Taken(list, i, n))
  {
  }

  lemma {:induction false} TakenTotal(list: seq<Block>, i: nat, n: nat)
    requires i < |list| && 0 < n <= list[i].size
    ensures Total(Taken(list, i, n)) == Total(list) - n
  {
    TotalAt(list, i);
    if list[i].size > n {
      var taken := Taken(list, i, n);
      TotalAt(taken, i);
      assert taken[..i] == list[..i] && taken[i + 1..] == list[i + 1..];
    } else {
      TotalConcat(list[..i], list[i + 1..]);
    }
  }

  /** Allocation takes exactly the n pages out of the free ones. */
  lemma {:induction false} TakenMeaning(list: seq<Block>, i: nat, n: nat)
    requires Canonical(list) && i < |list| && 0 < n <= list[i].size
    ensures Canonical(Taken(list, i, n))
    ensures Total(Taken(list, i, n)) == Total(list) - n
    ensures forall p: nat :: Free(Taken(list, i, n), p) <==> Free(list, p) && !(list[i].base <= p < list[i].base + n)
  {
    hide Free, Total, Canonical, Taken;
    TakenCanonical(list, i, n);
    TakenTotal(list, i, n);
    forall p: nat
      ensures Free(Taken(list, i, n), p) <==> Free(list, p) && !(list[i].base <= p < list[i].base + n)
    {
      TakenPage(list, i, n, p);
    }
  }

  lemma {:induction false} TakenPage(list: seq<Block>, i: nat, n: nat, p: nat)
    requires Canonical(list) && i < |list| && 0 < n <= list[i].size
    ensures Free(Taken(list, i, n), p) <==> Free(list, p) && !(list[i].base <= p < list[i].base + n)
  {
    if list[i].size > n {
      SplitPage(list, i, n, p);
    } else {
      RemovedPage(list, i, p);
    }
  }

  lemma {:induction false} SplitPage(list: seq<Block>, i: nat, n: nat, p: nat)
    requires Canonical(list) && i < |list| && 0 < n < list[i].size
    ensures Free(list[i := Block(list[i].base + n, list[i].size - n)], p)
      <==> Free(list, p) && !(list[i].base <= p < list[i].base + n)
  {
    var taken := list[i := Block(list[i].base + n, list[i].size - n)];
    if Free(list, p) && !(list[i].base <= p < list[i].base + n) {
      var j :| 0 <= j < |list| && list[j].Has(p);
      assert taken[j].Has(p);
    }
    if Free(taken, p) {
      var j :| 0 <= j < |taken| && taken[j].Has(p);
      assert list[j].Has(p);
    }
  }

  lemma {:induction false} RemovedPage(list: seq<Block>, i: nat, p: nat)
    requires Canonical(list) && i < |list|
    ensures Free(list[..i] + list[i + 1..], p) <==> Free(list, p) && !list[i].Has(p)
  {
    hide Free, Canonical;
    if Free(list, p) && !list[i].Has(p) {
      RemovedKeeps(list, i, p);
    }
    if Free(list[..i] + list[i + 1..], p) {
      RemovedHad(list, i, p);
    }
  }

  lemma RemovedKeeps(list: seq<Block>, i: nat, p: nat)
    requires i < |list| && Free(list, p) && !list[i].Has(p)
    ensures Free(list[..i] + list[i + 1..], p)
  {
    var rest := list[..i] + list[i + 1..];
    var j :| 0 <= j < |list| && list[j].Has(p);
    assert rest[if j < i then j else j - 1] == list[j];
  }

  lemma RemovedHad(list: seq<Block>, i: nat, p: nat)
    requires Canonical(list) && i < |list| && Free(list[..i] + list[i + 1..], p)
    ensures Free(list, p) && !list[i].Has(p)
  {
    var rest := list[..i] + list[i + 1..];
    var j :| 0 <= j < |rest| && rest[j].Has(p);
    var k := if j < i then j else j + 1;
    assert list[k] == rest[j];
    assert if k < i then list[k].End() < list[i].base else list[i].End() < list[k].base;
  }

  // ----- Freeing -----

  /** Walking the list: every block that touches cur is taken off the list and joined to it. */
  function Absorbed(list: seq<Block>, cur: Block): (r: (seq<Block>, Block)) {
    if list == [] then (list, cur)
    else
      var p := list[0];
      if cur.End() == p.base then Absorbed(list[1..], Block(cur.base, cur.size + p.size))
      else if p.End() == cur.base then Absorbed(list[1..], Block(p.base, p.size + cur.size))
      else
        var (rest, big) := Absorbed(list[1..], cur);
        ([p] + rest, big)
  }

  /** b put before the first block with a greater address. */
  function Placed(list: seq<Block>, b: Block): seq<Block> {
    if list == [] || list[0].base > b.base then [b] + list else [list[0]] + Placed(list[1..], b)
  }

  /** default_free_pages */
  function Freed(list: seq<Block>, b: Block): seq<Block> {
    var (rest, big) := Absorbed(list, b);
    Placed(rest, big)
  }

  ghost predicate Apart(list: seq<Block>, b: Block) {
    forall i :: 0 <= i < |list| ==> list[i].End() <= b.base || b.End() <= list[i].base
  }

  /** No block of the list even touches b. */
  ghost predicate Loose(list: seq<Block>, b: Block) {
    forall i :: 0 <= i < |list| ==> list[i].End() < b.base || b.End() < list[i].base
  }

  lemma LooseHead(list: seq<Block>, cur: Block)
    requires Loose(list, cur) && list != []
    ensures Loose(list[1..], cur) && cur.End() != list[0].base && list[0].End() != cur.base
  {
    var p := list[0];
    assert p.End() < cur.base || cur.End() < p.base;
  }

  lemma {:induction false} AbsorbedNothing(list: seq<Block>, cur: Block)
    requires Loose(list, cur)
    ensures Absorbed(list, cur) == (list, cur)
    decreases |list|
  {
    hide Loose;
    if list != [] {
      LooseHead(list, cur);
      AbsorbedNothing(list[1..], cur);
      assert list == [list[0]] + list[1..];
    }
  }

  ghost predicate Above(list: seq<Block>, x: nat) {
    forall i :: 0 <= i < |list| ==> x < list[i].base
  }

  lemma CanonicalCons(p: Block, rest: seq<Block>)
    requires p.size > 0 && Canonical(rest) && Above(rest, p.End())
    ensures Canonical([p] + rest)
  {
  }

  lemma {:induction false} AbsorbedAbove(list: seq<Block>, cur: Block, x: nat)
    requires Above(list, x) && x < cur.base
    ensures var (rest, big) := Absorbed(list, cur); Above(rest, x) && x < big.base
    decreases |list|
  {
    if list != [] {
      var p, tail := list[0], list[1..];
      if cur.End() == p.base {
        AbsorbedAbove(tail, Block(cur.base, cur.size + p.size), x);
      } else if p.End() == cur.base {
        AbsorbedAbove(tail, Block(p.base, p.size + cur.size), x);
      } else {
        AbsorbedAbove(tail, cur, x);
      }
    }
  }

  /** The head of a canonical list next to a block that is apart from the list. */
  lemma HeadFacts(list: seq<Block>, cur: Block)
    requires Canonical(list) && Apart(list, cur) && cur.size > 0 && list != []
    ensures var p, tail := list[0], list[1..];
      && p.size > 0 && Canonical(tail) && Above(tail, p.End()) && Apart(tail, cur)
      && (cur.End() == p.base ==> Loose(tail, Block(cur.base, cur.size + p.size)))
      && (p.End() == cur.base ==> Apart(tail, Block(p.base, p.size + cur.size)))
      && (cur.End() < p.base ==> Loose(list, cur))
      && (cur.End() < p.base || cur.End() == p.base || p.End() <= cur.base)
  {
  }

  lemma LooseCons(p: Block, rest: seq<Block>, b: Block)
    requires Loose(rest, b) && p.End() < b.base
    ensures Loose([p] + rest, b)
  {
  }

  /** What is kept does not touch the joined block. */
  lemma {:induction false} AbsorbedLoose(list: seq<Block>, cur: Block)
    requires Canonical(list) && Apart(list, cur) && cur.size > 0
    ensures var (rest, big) := Absorbed(list, cur); Canonical(rest) && Loose(rest, big) && big.size > 0
    decreases |list|
  {
    if list == [] {
      assert Loose(list, cur);
    } else {
      var p, tail := list[0], list[1..];
      HeadFacts(list, cur);
      if cur.End() == p.base {
        AbsorbedNothing(tail, Block(cur.base, cur.size + p.size));
      } else if p.End() == cur.base {
        AbsorbedLoose(tail, Block(p.base, p.size + cur.size));
      } else if cur.End() < p.base {
        AbsorbedNothing(list, cur);
      } else {
        AbsorbedLoose(tail, cur);
        var (rest, big) := Absorbed(tail, cur);
        AbsorbedAbove(tail, cur, p.End());
        CanonicalCons(p, rest);
        LooseCons(p, rest, big);
      }
    }
    hide Canonical, Apart, Loose, Above;
  }

  /** Joining neither loses nor gains a page. */
  lemma {:induction false} AbsorbedPages(list: seq<Block>, cur: Block, p: nat)
    requires Canonical(list) && cur.size > 0
    ensures var (rest, big) := Absorbed(list, cur);
      (Free(rest, p) || big.Has(p) <==> Free(list, p) || cur.Has(p)) && Total(rest) + big.size == Total(list) + cur.size
    decreases |list|
  {
    if list != [] {
      var b, tail := list[0], list[1..];
      FreeCons(list, p);
      if cur.End() == b.base {
        AbsorbedPages(tail, Block(cur.base, cur.size + b.size), p);
      } else if b.End() == cur.base {
        AbsorbedPages(tail, Block(b.base, b.size + cur.size), p);
      } else {
        AbsorbedPages(tail, cur, p);
        var (rest, _) := Absorbed(tail, cur);
        FreeCons([b] + rest, p);
        assert ([b] + rest)[1..] == rest;
      }
    }
  }

  lemma {:induction false} PlacedPages(list: seq<Block>, b: Block, p: nat)
    ensures Free(Placed(list, b), p) <==> Free(list, p) || b.Has(p)
    decreases |list|
  {
    FreeCons(Placed(list, b), p);
    if list == [] || list[0].base > b.base {
      assert ([b] + list)[1..] == list;
    } else {
      FreeCons(list, p);
      PlacedPages(list[1..], b, p);
      assert Placed(list, b)[1..] == Placed(list[1..], b);
    }
  }

  lemma {:induction false} PlacedCanonical(list: seq<Block>, b: Block)
    requires Canonical(list) && Loose(list, b) && b.size > 0
    ensures Canonical(Placed(list, b))
    ensures Total(Placed(list, b)) == Total(list) + b.size
    ensures forall x: nat :: Above(list, x) && x < b.base ==> Above(Placed(list, b), x)
    decreases |list|
  {
    if list == [] || list[0].base > b.base {
      CanonicalCons(b, list);
      assert ([b] + list)[1..] == list;
    } else {
      PlacedCanonical(list[1..], b);
      assert Above(list[1..], list[0].End());
      CanonicalCons(list[0], Placed(list[1..], b));
      assert forall x: nat :: Above(list, x) ==> Above(list[1..], x);
    }
  }

  /** Freeing adds exactly the block's pages, and the list stays canonical. */
  lemma {:induction false} FreedMeaning(list: seq<Block>, b: Block)
    requires Canonical(list) && Apart(list, b) && b.size > 0
    ensures Canonical(Freed(list, b))
    ensures Total(Freed(list, b)) == Total(list) + b.size
    ensures forall p: nat :: Free(Freed(list, b), p) <==> Free(list, p) || b.Has(p)
  {
    hide Free, Total, Canonical, Absorbed, Placed, Loose;
    var (rest, big) := Absorbed(list, b);
    AbsorbedLoose(list, b);
    PlacedCanonical(rest, big);
    AbsorbedPages(list, b, 0);
    forall p: nat
      ensures Free(Freed(list, b), p) <==> Free(list, p) || b.Has(p)
    {
      AbsorbedPages(list, b, p);
      PlacedPages(rest, big, p);
    }
  }

  // ----- Round trips -----

  /** Pages that were taken are apart from what is left. */
  lemma {:induction false} TakenApart(list: seq<Block>, i: nat, n: nat)
    requires Canonical(list) && i < |list| && 0 < n <= list[i].size
    ensures Apart(Taken(list, i, n), Block(list[i].base, n))
  {
  }

  /** Freeing what was just allocated restores the identical list. */
  lemma {:induction false} FreeUndoesAlloc(list: seq<Block>, i: nat, n: nat)
    requires Canonical(list) && i < |list| && 0 < n <= list[i].size
    ensures Freed(Taken(list, i, n), Block(list[i].base, n)) == list
  {
    var b, taken := Block(list[i].base, n), Taken(list, i, n);
    TakenMeaning(list, i, n);
    TakenApart(list, i, n);
    FreedMeaning(taken, b);
    forall p: nat
      ensures Free(Freed(taken, b), p) <==> Free(list, p)
    {
      if b.Has(p) {
        assert list[i].Has(p);
      }
    }
    Determined(Freed(taken, b), list);
  }

  function FreedAll(list: seq<Block>, blocks: seq<Block>): seq<Block>
    decreases |blocks|
  {
    if blocks == [] then list else FreedAll(Freed(list, blocks[0]), blocks[1..])
  }

  /** The blocks are apart from the list and from each other. */
  ghost predicate Freeable(list: seq<Block>, blocks: seq<Block>) {
    && (forall i :: 0 <= i < |blocks| ==> blocks[i].size > 0 && Apart(list, blocks[i]))
    && (forall i, j :: 0 <= i < j < |blocks| ==>
        blocks[i].End() <= blocks[j].base || blocks[j].End() <= blocks[i].base)
  }

  /** Being apart is a matter of the pages alone. */
  lemma {:induction false} ApartPages(list: seq<Block>, b: Block)
    requires Canonical(list) && b.size > 0
    ensures Apart(list, b) <==> forall p: nat :: b.Has(p) ==> !Free(list, p)
  {
    if forall p: nat :: b.Has(p) ==> !Free(list, p) {
      forall i | 0 <= i < |list|
        ensures list[i].End() <= b.base || b.End() <= list[i].base
      {
        var p := if list[i].base < b.base then b.base else list[i].base;
        assert list[i].Has(p) ==> Free(list, p);
      }
    }
  }

  lemma {:induction false} FreedKeepsFreeable(list: seq<Block>, blocks: seq<Block>)
    requires Canonical(list) && blocks != [] && Freeable(list, blocks)
    ensures Freeable(Freed(list, blocks[0]), blocks[1..])
  {
    hide Free, Canonical, Apart, Freed;
    var b := blocks[0];
    FreedMeaning(list, b);
    forall i | 0 <= i < |blocks| - 1
      ensures Apart(Freed(list, b), blocks[1..][i])
    {
      var c := blocks[i + 1];
      ApartPages(list, c);
      ApartPages(Freed(list, b), c);
    }
  }

  lemma {:induction false} FreedAllMeaning(list: seq<Block>, blocks: seq<Block>)
    requires Canonical(list) && Freeable(list, blocks)
    ensures Canonical(FreedAll(list, blocks))
    ensures forall p: nat :: Free(FreedAll(list, blocks), p) <==> Free(list, p) || Free(blocks, p)
    decreases |blocks|
  {
    hide Freed, Canonical, Apart;
    if blocks != [] {
      FreedKeepsFreeable(list, blocks);
      FreedMeaning(list, blocks[0]);
      FreedAllMeaning(Freed(list, blocks[0]), blocks[1..]);
      forall p: nat
        ensures Free(blocks, p) <==> blocks[0].Has(p) || Free(blocks[1..], p)
      {
        FreeCons(blocks, p);
      }
      hide Free;
    }
  }

  /** Freeing the same blocks in any order gives the same list. */
  lemma {:induction false} OrderDoesNotMatter(list: seq<Block>, a: seq<Block>, b: seq<Block>)
    requires Canonical(list) && Freeable(list, a) && Freeable(list, b)
    requires forall x :: x in a <==> x in b
    ensures FreedAll(list, a) == FreedAll(list, b)
  {
    FreedAllMeaning(list, a);
    FreedAllMeaning(list, b);
    forall p: nat
      ensures Free(a, p) <==> Free(b, p)
    {
      if Free(a, p) {
        var i :| 0 <= i < |a| && a[i].Has(p);
        assert a[i] in b;
      }
      if Free(b, p) {
        var i :| 0 <= i < |b| && b[i].Has(p);
        assert b[i] in a;
      }
    }
    Determined(FreedAll(list, a), FreedAll(list, b));
  }
}
