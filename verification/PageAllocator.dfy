/** The first-fit page allocator: page descriptors in arrays, and a list of block heads edited in place. */
module PageAllocator {
  import opened FreeBlocks
  import opened Sequences

  predicate InRange(heads: seq<nat>, pages: nat) {
    forall i :: 0 <= i < |heads| ==> heads[i] < pages
  }

  /** The blocks that a list of heads and the property fields spell. */
  ghost function Entries(heads: seq<nat>, property: seq<nat>): (list: seq<Block>)
    requires InRange(heads, |property|)
    ensures |list| == |heads|
  {
    seq(|heads|, (i: nat) requires i < |heads| => Block(heads[i], property[heads[i]]))
  }

  /** No block reaches into the next one. */
  ghost predicate InOrder(list: seq<Block>) {
    forall i :: 0 < i < |list| ==> list[i - 1].End() <= list[i].base
  }

  predicate Ascending(heads: seq<nat>) {
    forall i, j :: 0 <= i < j < |heads| ==> heads[i] < heads[j]
  }

  class Allocator {
    const property: array<nat>  // the size of a free block, at its head
    const head: array<bool>     // PG_property
    const reserved: array<bool> // PG_reserved
    var freeList: seq<nat>
    var nrFree: nat

    ghost predicate Linked()
      reads this, property, head, reserved
    {
      && property.Length == head.Length == reserved.Length && head != reserved
      && InRange(freeList, property.Length)
      && Ascending(freeList)
      && (forall p :: 0 <= p < head.Length ==> (head[p] <==> p in freeList))
      && nrFree == Total(Blocks())
    }

    ghost function Blocks(): seq<Block>
      reads this, property
      requires InRange(freeList, property.Length)
    {
      Entries(freeList, property[..])
    }

    /** The list is canonical, its heads are exactly the pages flagged, and free pages are not reserved. */
    ghost predicate Valid()
      reads this, property, head, reserved
    {
      && Linked() && Canonical(Blocks())
      && (forall p: nat :: Free(Blocks(), p) ==> p < property.Length && !reserved[p])
    }

    /** default_init, with all pages still reserved as page_init leaves them */
    constructor (pages: nat)
      ensures Valid() && Blocks() == [] && property.Length == pages
      ensures forall p :: 0 <= p < pages ==> reserved[p]
      ensures fresh(property) && fresh(head) && fresh(reserved)
    {
      property := new nat[pages](_ => 0);
      head := new bool[pages](_ => false);
      reserved := new bool[pages](_ => true);
      freeList, nrFree := [], 0;
    }

    /** The walk of default_alloc_pages along the list. */
    method Search(n: nat) returns (i: nat)
      requires InRange(freeList, property.Length)
      ensures i == FirstFit(Blocks(), n)
    {
      i := 0;
      while i < |freeList| && property[freeList[i]] < n
        invariant 0 <= i <= |freeList|
        invariant forall j :: 0 <= j < i ==> Blocks()[j].size < n
      {
        i := i + 1;
      }
      FirstFitIs(Blocks(), i, n);
    }

    /** default_alloc_pages */
    method AllocPages(n: nat) returns (ok: bool, page: nat)
      requires Valid() && n > 0
      modifies this, property, head
      ensures Valid()
      ensures ok <==> exists a: nat :: Fits(old(Blocks()), a, n)
      ensures ok ==>
        var i := FirstFit(old(Blocks()), n);
        && i < |old(Blocks())| && page == old(Blocks())[i].base
        && Blocks() == Taken(old(Blocks()), i, n) && nrFree == old(nrFree) - n
        && Fits(old(Blocks()), page, n) && forall a: nat :: Fits(old(Blocks()), a, n) ==> page <= a
      ensures !ok ==> Blocks() == old(Blocks())
    {
      hide Canonical, Free, Fits, Total, Taken, Ascending, InOrder, FirstFit, RemoveAt;
      ghost var list, heads, prop := Blocks(), freeList, property[..];
      FirstFitIsLowest(list, n);
      ok, page := false, 0;
      if n > nrFree {
        TooFew(list, n);
        return;
      }
      var i := Search(n);
      if i < |freeList| {
        ok, page := true, freeList[i];
        assert Fits(list, page, n);
        TakenMeaning(list, i, n);
        if property[page] > n {
          var p := page + n;
          InsideIsFree(list, i, n);
          FrontTaken(heads, prop, i, n);
          property[p] := property[page] - n;
          head[p] := true;
          freeList := freeList[i := p];
          assert property[..] == prop[p := prop[page] - n];
        } else {
          WholeTaken(heads, prop, i, n);
          freeList := RemoveAt(freeList, i);
        }
        nrFree := nrFree - n;
        head[page] := false;
      }
      assert Blocks() == if ok then Taken(list, i, n) else list;
      CanonicalInOrder(Blocks());
      var ordered := CheckOrder();
      assert ordered;
    }

    /** check_order, which panics where this fails. */
    method CheckOrder() returns (ok: bool)
      requires InRange(freeList, property.Length)
      ensures ok <==> InOrder(Blocks())
    {
      var i := 1;
      while i < |freeList|
        invariant 1 <= i
        invariant forall j :: 0 < j < i && j < |freeList| ==> Blocks()[j - 1].End() <= Blocks()[j].base
      {
        var before := freeList[i - 1];
        if before + property[before] > freeList[i] {
          assert Blocks()[i - 1].End() > Blocks()[i].base;
          return false;
        }
        i := i + 1;
      }
      return true;
    }

    /**
     default_init_memmap: reserved pages become one free block, put at the front of the list. That is its
     place only if the region lies below all free blocks; otherwise check_order panics. A region that
     ends where the first free block begins passes, and is not joined with it.
     */
    method InitMemmap(base: nat, n: nat) returns (ok: bool)
      requires Valid() && n > 0 && base + n <= property.Length
      requires forall p :: base <= p < base + n ==> reserved[p]
      modifies this, property, head, reserved
      ensures InRange(freeList, property.Length)
      ensures Blocks() == [Block(base, n)] + old(Blocks()) && nrFree == old(nrFree) + n
      ensures ok <==> old(freeList) == [] || base + n <= old(freeList)[0]
      ensures ok ==> Linked() && (Valid() <==> old(freeList) == [] || base + n < old(freeList)[0])
      ensures forall p :: 0 <= p < reserved.Length && !(base <= p < base + n) ==> reserved[p] == old(reserved[p])
    {
      hide Canonical, Free, Total, Ascending, Entries, InOrder;
      ghost var list, heads, prop := Blocks(), freeList, property[..];
      HeadsReserved(heads, prop, reserved[..]);
      ResetFlags(base, n);
      forall p | base <= p < base + n {
        property[p] := 0;
      }
      property[base] := n;
      head[base] := true;
      FrontEntries(heads, prop, property[..], base, n);
      nrFree := nrFree + n;
      freeList := [base] + freeList;
      FrontInOrder(heads, prop, base, n);
      if heads == [] || base + n <= heads[0] {
        FrontHeads(heads, prop, base, n);
      }
      ok := CheckOrder();
    }

    /** The first loop of default_free_pages and default_init_memmap: the pages' flags are cleared. */
    method ResetFlags(base: nat, n: nat)
      requires head.Length == reserved.Length && head != reserved && base + n <= head.Length
      modifies head, reserved
      ensures forall p :: 0 <= p < head.Length ==> head[p] == (old(head[p]) && !(base <= p < base + n))
      ensures forall p :: 0 <= p < head.Length ==> reserved[p] == (old(reserved[p]) && !(base <= p < base + n))
    {
      var p := base;
      while p != base + n
        invariant base <= p <= base + n
        invariant forall q :: 0 <= q < head.Length ==> head[q] == (old(head[q]) && !(base <= q < p))
        invariant forall q :: 0 <= q < head.Length ==> reserved[q] == (old(reserved[q]) && !(base <= q < p))
      {
        head[p] := false;
        reserved[p] := false;
        p := p + 1;
      }
    }

    /** default_free_pages: join the block with those it touches, and put it in its place. */
    method FreePages(base: nat, n: nat)
      requires Valid() && n > 0 && base + n <= property.Length
      requires Apart(Blocks(), Block(base, n))
      requires forall p :: base <= p < base + n ==> !reserved[p]
      modifies this, property, head, reserved
      ensures Valid()
      ensures Blocks() == Freed(old(Blocks()), Block(base, n)) && nrFree == old(nrFree) + n
      ensures reserved[..] == old(reserved[..])
    {
      hide Canonical, Free, Total, Apart, Absorbed, Placed, Ascending, InOrder;
      ghost var list, given := Blocks(), Block(base, n);
      HeadsApart(freeList, property[..], given);
      FreedMeaning(list, given);
      ResetFlags(base, n);
      property[base] := n;
      head[base] := true;
      assert given.Has(base);
      EntriesSame(freeList, old(property[..]), property[..]);
      var b := Absorb(base, given);
      Link(b);
      nrFree := nrFree + n;
      CanonicalInOrder(Blocks());
      var ordered := CheckOrder();
      assert ordered;
    }

    /** The second loop of default_free_pages, which ends with the head of the joined block. */
    method Absorb(base: nat, ghost given: Block) returns (b: nat)
      requires property.Length == head.Length && InRange(freeList, property.Length) && Ascending(freeList)
      requires base < property.Length && base !in freeList && given == Block(base, property[base])
      requires forall p :: 0 <= p < head.Length ==> (head[p] <==> p in freeList || p == base)
      modifies `freeList, property, head
      ensures InRange(freeList, property.Length) && Ascending(freeList)
      ensures b < property.Length && b !in freeList
      ensures forall p :: 0 <= p < head.Length ==> (head[p] <==> p in freeList || p == b)
      ensures (Blocks(), Block(b, property[b])) == Absorbed(old(Blocks()), given)
    {
      hide Absorbed;
      b := base;
      var i := 0;
      ghost var list := Blocks();
      WalkStarts(list, given);
      while i < |freeList|
        invariant 0 <= i <= |freeList|
        invariant InRange(freeList, property.Length) && Ascending(freeList)
        invariant b < property.Length && b !in freeList
        invariant forall p :: 0 <= p < head.Length ==> (head[p] <==> p in freeList || p == b)
        invariant WalkedTo(list, given, Blocks(), i, Block(b, property[b]))
        decreases |freeList| - i
      {
        var p := freeList[i];
        WalkOn(list, given, Blocks(), i, Block(b, property[b]));
        WithoutMembers(freeList, i);
        ghost var heads, prop := freeList, property[..];
        if b + property[b] == p {
          property[b] := property[b] + property[p];
          head[p] := false;
          freeList := RemoveAt(freeList, i);
          EntriesWithout(heads, prop, property[..], i);
        } else if p + property[p] == b {
          property[p] := property[p] + property[b];
          head[b] := false;
          b := p;
          freeList := RemoveAt(freeList, i);
          EntriesWithout(heads, prop, property[..], i);
        } else {
          i := i + 1;
        }
      }
      WalkedOver(list, given, Blocks(), Block(b, property[b]));
    }

    /** The end of default_free_pages: the head is linked at its place by address. */
    method Link(b: nat)
      requires InRange(freeList, property.Length) && Ascending(freeList)
      requires b < property.Length && b !in freeList
      modifies `freeList
      ensures InRange(freeList, property.Length) && Ascending(freeList)
      ensures forall p :: p in freeList <==> p in old(freeList) || p == b
      ensures Blocks() == Placed(old(Blocks()), Block(b, property[b]))
    {
      hide Ascending;
      var k := 0;
      if freeList == [] || b < freeList[0] {
      } else if b > freeList[|freeList| - 1] {
        k := |freeList|;
      } else {
        while freeList[k] <= b
          invariant 0 <= k < |freeList| && b <= freeList[|freeList| - 1]
          invariant forall j :: 0 <= j < k ==> freeList[j] < b
          decreases |freeList| - k
        {
          k := k + 1;
        }
      }
      assert k < |freeList| ==> freeList[k] != b;
      LinkedAt(freeList, property[..], b, k);
      freeList := freeList[..k] + [b] + freeList[k..];
    }
  }

  lemma CanonicalInOrder(list: seq<Block>)
    requires Canonical(list)
    ensures InOrder(list)
  {
  }

  /** Heads are free pages, so they are not reserved. */
  lemma {:induction false} HeadsReserved(heads: seq<nat>, prop: seq<nat>, reserved: seq<bool>)
    requires InRange(heads, |prop|) && Canonical(Entries(heads, prop))
    requires forall p: nat :: Free(Entries(heads, prop), p) ==> p < |reserved| && !reserved[p]
    ensures forall h :: h in heads ==> h < |reserved| && !reserved[h]
  {
    forall i | 0 <= i < |heads|
      ensures Free(Entries(heads, prop), heads[i])
    {
      assert Entries(heads, prop)[i].Has(heads[i]);
    }
  }

  /** The list with a block put in front of it. */
  lemma {:induction false} FrontEntries(heads: seq<nat>, prop: seq<nat>, prop': seq<nat>, base: nat, n: nat)
    requires InRange(heads, |prop|) && base < |prop| == |prop'| && prop'[base] == n
    requires forall h :: h in heads ==> prop'[h] == prop[h]
    ensures InRange([base] + heads, |prop|)
    ensures Entries([base] + heads, prop') == [Block(base, n)] + Entries(heads, prop)
  {
    EntriesSame(heads, prop, prop');
  }

  lemma {:induction false} FrontInOrder(heads: seq<nat>, prop: seq<nat>, base: nat, n: nat)
    requires InRange(heads, |prop|) && Canonical(Entries(heads, prop))
    ensures InOrder([Block(base, n)] + Entries(heads, prop)) <==> heads == [] || base + n <= heads[0]
  {
    var list, all := Entries(heads, prop), [Block(base, n)] + Entries(heads, prop);
    CanonicalInOrder(list);
    assert heads != [] ==> all[1].base == heads[0];
    assert InOrder(all) && heads != [] ==> all[1 - 1].End() <= all[1].base;
    forall i | 1 < i < |all|
      ensures all[i - 1].End() <= all[i].base
    {
      assert list[i - 1 - 1].End() <= list[i - 1].base;
    }
  }

  /** A block in front of all others: the list stays canonical exactly if it does not touch the first of them. */
  lemma {:induction false} FrontHeads(heads: seq<nat>, prop: seq<nat>, base: nat, n: nat)
    requires InRange(heads, |prop|) && Ascending(heads) && Canonical(Entries(heads, prop))
    requires n > 0 && (heads != [] ==> base + n <= heads[0])
    ensures Ascending([base] + heads)
    ensures var list := Entries(heads, prop);
      && (Canonical([Block(base, n)] + list) <==> heads == [] || base + n < heads[0])
      && Total([Block(base, n)] + list) == n + Total(list)
      && forall p: nat :: Free([Block(base, n)] + list, p) <==> base <= p < base + n || Free(list, p)
  {
    var list, b := Entries(heads, prop), Block(base, n);
    if heads == [] || b.End() < heads[0] {
      assert Above(list, b.End());
      CanonicalCons(b, list);
    } else {
      assert ([b] + list)[1].base == heads[0];
    }
    assert ([b] + list)[1..] == list;
    forall p: nat
      ensures Free([b] + list, p) <==> b.Has(p) || Free(list, p)
    {
      FreeCons([b] + list, p);
    }
    hide Canonical, Free;
  }

  /** Of four pages the upper two are handed over first, and then the lower two. */
  method TouchingRegions() returns (a: Allocator, ordered: bool)
    ensures ordered && InRange(a.freeList, a.property.Length)
    ensures a.Blocks() == [Block(0, 2), Block(2, 2)] && !Canonical(a.Blocks())
    ensures Fits(a.Blocks(), 0, 4) && FirstFit(a.Blocks(), 4) == |a.Blocks()|
  {
    a := new Allocator(4);
    ordered := a.InitMemmap(2, 2);
    assert a.Blocks() == [Block(2, 2)] && a.freeList[0] == 2;
    ordered := a.InitMemmap(0, 2);
    FourApart(a.Blocks());
  }

  lemma FourApart(list: seq<Block>)
    requires list == [Block(0, 2), Block(2, 2)]
    ensures !Canonical(list) && Fits(list, 0, 4) && FirstFit(list, 4) == |list|
  {
    assert list[0].Has(0) && list[0].Has(1) && list[1].Has(2) && list[1].Has(3);
  }

  /** The lower two come first, and then the upper two. */
  method RegionAbove() returns (ordered: bool)
    ensures !ordered
  {
    var a := new Allocator(4);
    ordered := a.InitMemmap(0, 2);
    assert a.Blocks() == [Block(0, 2)] && a.freeList[0] == 0;
    ordered := a.InitMemmap(2, 2);
  }

  /** After the first i entries of the present list, walking the rest of it is what remains to be done. */
  ghost predicate WalkedTo(list: seq<Block>, given: Block, now: seq<Block>, i: nat, cur: Block) {
    i <= |now| && Absorbed(list, given) == (now[..i] + Absorbed(now[i..], cur).0, Absorbed(now[i..], cur).1)
  }

  lemma WalkStarts(list: seq<Block>, given: Block)
    ensures WalkedTo(list, given, list, 0, given)
  {
    var r := Absorbed(list, given);
    assert list[0..] == list && list[..0] + r.0 == r.0 && r == (r.0, r.1);
  }

  lemma {:induction false} AbsorbedCons(p: Block, tail: seq<Block>, cur: Block)
    ensures Absorbed([p] + tail, cur)
      == if cur.End() == p.base then Absorbed(tail, Block(cur.base, cur.size + p.size))
         else if p.End() == cur.base then Absorbed(tail, Block(p.base, p.size + cur.size))
         else ([p] + Absorbed(tail, cur).0, Absorbed(tail, cur).1)
  {
    assert ([p] + tail)[1..] == tail;
  }

  lemma {:induction false} WalkOn(list: seq<Block>, given: Block, now: seq<Block>, i: nat, cur: Block)
    requires i < |now| && WalkedTo(list, given, now, i, cur)
    ensures var p, rest := now[i], now[..i] + now[i + 1..];
      if cur.End() == p.base then WalkedTo(list, given, rest, i, Block(cur.base, cur.size + p.size))
      else if p.End() == cur.base then WalkedTo(list, given, rest, i, Block(p.base, p.size + cur.size))
      else WalkedTo(list, given, now, i + 1, cur)
  {
    hide Absorbed;
    var p, rest, tail := now[i], now[..i] + now[i + 1..], now[i + 1..];
    assert now[i..] == [p] + tail && rest[i..] == tail && rest[..i] == now[..i];
    AbsorbedCons(p, tail, cur);
    var (x, _) := Absorbed(tail, cur);
    assert now[..i] + ([p] + x) == now[..i + 1] + x;
  }

  lemma WalkedOver(list: seq<Block>, given: Block, now: seq<Block>, cur: Block)
    requires WalkedTo(list, given, now, |now|, cur)
    ensures Absorbed(list, given) == (now, cur)
  {
    assert now[|now|..] == [] && now[..|now|] + [] == now;
  }

  /** No head of a block lies in a block that is apart from them all. */
  lemma {:induction false} HeadsApart(heads: seq<nat>, prop: seq<nat>, given: Block)
    requires InRange(heads, |prop|) && Canonical(Entries(heads, prop)) && Apart(Entries(heads, prop), given)
    ensures forall h :: h in heads ==> !given.Has(h)
  {
    forall i | 0 <= i < |heads|
      ensures !given.Has(heads[i])
    {
      assert Entries(heads, prop)[i].size > 0;
    }
  }

  lemma {:induction false} EntriesSame(heads: seq<nat>, prop: seq<nat>, prop': seq<nat>)
    requires InRange(heads, |prop|) && |prop| == |prop'|
    requires forall h :: h in heads ==> prop'[h] == prop[h]
    ensures Entries(heads, prop') == Entries(heads, prop)
  {
  }

  lemma {:induction false} EntriesWithout(heads: seq<nat>, prop: seq<nat>, prop': seq<nat>, i: nat)
    requires InRange(heads, |prop|) && |prop| == |prop'| && i < |heads|
    requires forall j :: 0 <= j < |heads| && j != i ==> prop'[heads[j]] == prop[heads[j]]
    ensures InRange(RemoveAt(heads, i), |prop|)
    ensures Entries(RemoveAt(heads, i), prop') == Entries(heads, prop)[..i] + Entries(heads, prop)[i + 1..]
  {
  }

  lemma {:induction false} InsertedAscending(heads: seq<nat>, b: nat, k: nat)
    requires Ascending(heads)
    requires k <= |heads| && (k > 0 ==> heads[k - 1] < b) && (k < |heads| ==> b < heads[k])
    ensures Ascending(heads[..k] + [b] + heads[k..])
  {
    var heads' := heads[..k] + [b] + heads[k..];
    forall i, j | 0 <= i < j < |heads'|
      ensures heads'[i] < heads'[j]
    {
      assert i < k ==> heads'[i] == heads[i] <= heads[k - 1];
      assert j > k ==> heads'[j] == heads[j - 1] >= heads[k];
    }
  }

  lemma {:induction false} InsertedMembers(heads: seq<nat>, b: nat, k: nat)
    requires k <= |heads|
    ensures forall p :: p in heads[..k] + [b] + heads[k..] <==> p in heads || p == b
  {
    assert heads == heads[..k] + heads[k..];
  }

  /** Linking head b before place k, where the addresses become greater than b. */
  lemma {:induction false} LinkedAt(heads: seq<nat>, prop: seq<nat>, b: nat, k: nat)
    requires InRange(heads, |prop|) && Ascending(heads) && b < |prop| && b !in heads
    requires k <= |heads| && (k > 0 ==> heads[k - 1] < b) && (k < |heads| ==> b < heads[k])
    ensures var heads' := heads[..k] + [b] + heads[k..];
      && InRange(heads', |prop|) && Ascending(heads')
      && (forall p :: p in heads' <==> p in heads || p == b)
      && Entries(heads', prop) == Placed(Entries(heads, prop), Block(b, prop[b]))
  {
    var list := Entries(heads, prop);
    PlacedAt(list, Block(b, prop[b]), k);
    InsertedAscending(heads, b, k);
    InsertedMembers(heads, b, k);
    hide Placed, Ascending;
  }

  lemma {:induction false} PlacedAt(list: seq<Block>, b: Block, k: nat)
    requires k <= |list| && (forall j :: 0 <= j < k ==> list[j].base <= b.base)
    requires k < |list| ==> list[k].base > b.base
    ensures Placed(list, b) == list[..k] + [b] + list[k..]
  {
    if k > 0 {
      PlacedAt(list[1..], b, k - 1);
      assert list == [list[0]] + list[1..];
      assert list[1..][..k - 1] == list[1..k] && list[..k] == [list[0]] + list[1..k];
    }
  }

  lemma InsideIsFree(list: seq<Block>, i: nat, n: nat)
    requires i < |list| && n < list[i].size
    ensures Free(list, list[i].base + n)
  {
    assert list[i].Has(list[i].base + n);
  }

  /** Taking all of block i off the list. */
  lemma {:induction false} WholeTaken(heads: seq<nat>, prop: seq<nat>, i: nat, n: nat)
    requires InRange(heads, |prop|) && Ascending(heads)
    requires i < |heads| && n == prop[heads[i]]
    ensures var rest := RemoveAt(heads, i);
      && InRange(rest, |prop|) && Ascending(rest) && Entries(rest, prop) == Taken(Entries(heads, prop), i, n)
      && forall p :: p in rest <==> p in heads && p != heads[i]
  {
    WithoutMembers(heads, i);
  }

  /** Taking n pages off the front of block i: the rest stays in its place. */
  lemma {:induction false} FrontTaken(heads: seq<nat>, prop: seq<nat>, i: nat, n: nat)
    requires InRange(heads, |prop|) && Ascending(heads) && Canonical(Entries(heads, prop))
    requires i < |heads| && 0 < n < prop[heads[i]] && heads[i] + n < |prop|
    ensures var p := heads[i] + n;
      var rest, prop' := heads[i := p], prop[p := prop[heads[i]] - n];
      && InRange(rest, |prop|) && Ascending(rest) && Entries(rest, prop') == Taken(Entries(heads, prop), i, n)
      && forall q :: q in rest <==> (q in heads && q != heads[i]) || q == p
  {
    var p := heads[i] + n;
    FrontBeforeNext(heads, prop, i, n);
    UpdateMembers(heads, i, p);
    MovedHead(heads, prop, i, p, prop[heads[i]] - n);
    hide Ascending, Canonical, Entries;
  }

  lemma {:induction false} FrontBeforeNext(heads: seq<nat>, prop: seq<nat>, i: nat, n: nat)
    requires InRange(heads, |prop|) && Ascending(heads) && Canonical(Entries(heads, prop))
    requires i < |heads| && 0 < n < prop[heads[i]]
    ensures forall j :: i < j < |heads| ==> heads[i] + n < heads[j]
    ensures heads[i] + n !in heads
  {
    var list := Entries(heads, prop);
    forall j | i < j < |heads|
      ensures heads[i] + n < heads[j]
    {
      assert list[i].End() < list[j].base;
    }
  }

  /** Replacing head i by a page that is not a head, with a size of its own. */
  lemma {:induction false} MovedHead(heads: seq<nat>, prop: seq<nat>, i: nat, p: nat, size: nat)
    requires InRange(heads, |prop|) && i < |heads| && p < |prop| && p !in heads
    ensures InRange(heads[i := p], |prop|)
    ensures Entries(heads[i := p], prop[p := size]) == Entries(heads, prop)[i := Block(p, size)]
  {
    forall j | 0 <= j < |heads| && j != i
      ensures prop[p := size][heads[j]] == prop[heads[j]]
    {
      assert heads[j] in heads;
    }
  }

  lemma {:induction false} WithoutMembers(heads: seq<nat>, i: nat)
    requires i < |heads| && Ascending(heads)
    ensures Ascending(RemoveAt(heads, i))
    ensures forall p :: p in RemoveAt(heads, i) <==> p in heads && p != heads[i]
  {
    var rest := RemoveAt(heads, i);
    forall p | p in heads && p != heads[i]
      ensures p in rest
    {
      var j :| 0 <= j < |heads| && heads[j] == p;
      assert rest[if j < i then j else j - 1] == p;
    }
  }

  lemma {:induction false} UpdateMembers(heads: seq<nat>, i: nat, p: nat)
    requires i < |heads| && Ascending(heads) && heads[i] < p
    requires forall j :: i < j < |heads| ==> p < heads[j]
    ensures Ascending(heads[i := p])
    ensures forall q :: q in heads[i := p] <==> (q in heads && q != heads[i]) || q == p
  {
    var rest := heads[i := p];
    assert rest[i] == p;
    forall q | q in heads && q != heads[i]
      ensures q in rest
    {
      var j :| 0 <= j < |heads| && heads[j] == q;
      assert rest[j] == q;
    }
  }

  lemma {:induction false} FirstFitIs(list: seq<Block>, i: nat, n: nat)
    requires i <= |list| && (i < |list| ==> list[i].size >= n)
    requires forall j :: 0 <= j < i ==> list[j].size < n
    ensures FirstFit(list, n) == i
  {
  }

  lemma {:induction false} TooFew(list: seq<Block>, n: nat)
    requires n > Total(list)
    ensures FirstFit(list, n) == |list|
  {
    var i := FirstFit(list, n);
    if i < |list| {
      TotalAt(list, i);
    }
  }
}
