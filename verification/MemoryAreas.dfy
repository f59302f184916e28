/** The memory areas of an address space: a sorted list with a lookup cache, and range checks that hop over it. */
module MemoryAreas {
  import opened MemLayout
  import opened Options
  import opened Words

  datatype Area = Area(start: nat, end: nat, read: bool, write: bool, stack: bool) {
    predicate Has(a: nat) {
      start <= a < end
    }

    /** Address a of the area may be read, or written; the lowest page of a stack guards it. */
    predicate Allows(a: nat, writing: bool) {
      Has(a) && if writing then write && !(stack && a < start + PGSIZE) else read
    }
  }

  /** Areas are not empty, do not overlap and lie in the order of their addresses. */
  predicate Sorted(areas: seq<Area>) {
    && (forall i :: 0 <= i < |areas| ==> areas[i].start < areas[i].end)
    && (forall i, j :: 0 <= i < j < |areas| ==> areas[i].end <= areas[j].start)
  }

  predicate Disjoint(a: Area, b: Area) {
    a.end <= b.start || b.end <= a.start
  }

  /** The area with an address, by a scan of the whole list. */
  function Scan(areas: seq<Area>, a: nat): (r: Option<Area>)
    ensures r.Some? ==> r.value in areas && r.value.Has(a)
    ensures r.None? ==> forall x :: x in areas ==> !x.Has(a)
  {
    if areas == [] then None
    else if areas[0].Has(a) then Some(areas[0])
    else Scan(areas[1..], a)
  }

  lemma OnlyArea(areas: seq<Area>, x: Area, y: Area, a: nat)
    requires Sorted(areas) && x in areas && y in areas && x.Has(a) && y.Has(a)
    ensures x == y
  {
    var i :| 0 <= i < |areas| && areas[i] == x;
    var j :| 0 <= j < |areas| && areas[j] == y;
    assert i == j;
  }

  /** The list with a new area in its place by address. */
  function Inserted(areas: seq<Area>, x: Area): seq<Area> {
    if areas == [] || areas[0].start > x.start then [x] + areas else [areas[0]] + Inserted(areas[1..], x)
  }

  lemma SortedCons(x: Area, rest: seq<Area>)
    requires x.start < x.end && Sorted(rest) && forall y :: y in rest ==> x.end <= y.start
    ensures Sorted([x] + rest)
  {
  }

  lemma SortedHead(areas: seq<Area>)
    requires Sorted(areas) && areas != []
    ensures areas[0].start < areas[0].end && Sorted(areas[1..])
    ensures forall y :: y in areas[1..] ==> areas[0].end <= y.start < y.end
  {
  }

  lemma {:induction false} InsertedSorted(areas: seq<Area>, x: Area)
    requires Sorted(areas) && x.start < x.end && forall y :: y in areas ==> Disjoint(x, y)
    ensures Sorted(Inserted(areas, x))
    ensures forall y :: y in Inserted(areas, x) <==> y in areas || y == x
  {
    hide Sorted;
    if areas != [] {
      SortedHead(areas);
      assert areas == [areas[0]] + areas[1..];
    }
    if areas == [] || areas[0].start > x.start {
      assert areas != [] ==> Disjoint(x, areas[0]);
      SortedCons(x, areas);
    } else {
      assert Disjoint(x, areas[0]);
      InsertedSorted(areas[1..], x);
      SortedCons(areas[0], Inserted(areas[1..], x));
    }
  }

  lemma {:induction false} InsertedAt(areas: seq<Area>, x: Area, k: nat)
    requires k <= |areas| && (forall j :: 0 <= j < k ==> areas[j].start <= x.start)
    requires k < |areas| ==> areas[k].start > x.start
    ensures Inserted(areas, x) == areas[..k] + [x] + areas[k..]
  {
    if k > 0 {
      InsertedAt(areas[1..], x, k - 1);
      assert areas[1..][..k - 1] == areas[1..k] && areas[..k] == [areas[0]] + areas[1..k];
    }
  }

  /** The assertions of check_vma_overlap. */
  predicate Follow(prev: Area, next: Area) {
    prev.start < prev.end && prev.end <= next.start && next.start < next.end
  }

  /** A look at the two neighbours of its place is enough to see whether an area overlaps any other. */
  lemma {:induction false} Neighbours(areas: seq<Area>, x: Area, k: nat)
    requires Sorted(areas) && x.start < x.end && k <= |areas|
    requires (forall j :: 0 <= j < k ==> areas[j].start <= x.start) && (k < |areas| ==> areas[k].start > x.start)
    ensures (forall y :: y in areas ==> Disjoint(x, y)) <==>
      (k > 0 ==> Follow(areas[k - 1], x)) && (k < |areas| ==> Follow(x, areas[k]))
  {
    if k > 0 {
      assert areas[k - 1] in areas;
    }
    if k < |areas| {
      assert areas[k] in areas;
    }
  }

  predicate Allowed(areas: seq<Area>, a: nat, writing: bool) {
    exists x :: x in areas && x.Allows(a, writing)
  }

  /** Every byte of the range may be accessed. */
  ghost predicate RangeAllowed(areas: seq<Area>, from: nat, to: nat, writing: bool) {
    forall a: nat :: from <= a < to ==> Allowed(areas, a, writing)
  }

  /** If one address of an area is allowed, so is the rest of the area from there on. */
  lemma {:induction false} AllowedOn(areas: seq<Area>, x: Area, from: nat, to: nat, writing: bool)
    requires x in areas && x.Allows(from, writing)
    ensures RangeAllowed(areas, from, to, writing) <==> RangeAllowed(areas, x.end, to, writing)
  {
    forall a: nat | from <= a < x.end
      ensures Allowed(areas, a, writing)
    {
      assert x.Allows(a, writing);
    }
  }

  lemma NotAllowed(areas: seq<Area>, from: nat, to: nat, writing: bool)
    requires Sorted(areas) && from < to
    requires var r := Scan(areas, from); r.None? || !r.value.Allows(from, writing)
    ensures !RangeAllowed(areas, from, to, writing)
  {
    if Allowed(areas, from, writing) {
      var x :| x in areas && x.Allows(from, writing);
      var r := Scan(areas, from);
      if r.Some? {
        OnlyArea(areas, x, r.value, from);
      }
    }
  }

  /** start .. end are the pages of the range of len bytes from addr, its end being taken modulo the word. */
  predicate PagesOf(start: nat, end: nat, addr: nat, len: nat) {
    && start % PGSIZE == 0 && start <= addr < start + PGSIZE
    && end % PGSIZE == 0 && end < WORD && Wrap(end - (addr + len)) < PGSIZE
  }

  lemma RoundedPages(addr: nat, len: nat)
    requires addr < WORD && len < WORD
    ensures PagesOf(addr / PGSIZE * PGSIZE, Wrap(Wrap(addr + len) + PGSIZE - 1) / PGSIZE * PGSIZE, addr, len)
  {
    var sum := Wrap(addr + len);
    var laps := if addr + len < WORD then 0 else 1;
    WrapIs(addr + len, laps, addr + len - laps * WORD);
    assert WORD == 1048576 * PGSIZE;
    hide Wrap;
    if sum + PGSIZE - 1 < WORD {
      WrapIs(sum + PGSIZE - 1, 0, sum + PGSIZE - 1);
      var end := (sum + PGSIZE - 1) / PGSIZE * PGSIZE;
      WrapIs(end - (addr + len), -laps, end - sum);
    } else {
      WrapIs(sum + PGSIZE - 1, 1, sum + PGSIZE - 1 - WORD);
      WrapIs(0 - (addr + len), -laps - 1, WORD - sum);
    }
  }

  lemma WrapIs(x: int, laps: int, w: int)
    requires 0 <= w < WORD && x == w + laps * WORD
    ensures Wrap(x) == w
  {
  }

  /** What the pages of an accepted range are: they cover it tightly, unless its end wrapped; then they are a single page. */
  lemma PagesCover(start: nat, end: nat, addr: nat, len: nat)
    requires addr < WORD && len < WORD && PagesOf(start, end, addr, len) && UserAccess(start, end)
    ensures if addr + len < WORD then addr + len <= end < addr + len + PGSIZE else end == start + PGSIZE
  {
    var sum := Wrap(addr + len);
    assert WORD == 1048576 * PGSIZE;
    if addr + len < WORD {
      assert sum == addr + len;
    } else {
      assert sum == addr + len - WORD < addr;
      assert Wrap(end - (addr + len)) == Wrap(end - sum);
      assert end / PGSIZE == start / PGSIZE + 1;
    }
  }

  datatype Ret = Done | Invalid | Panicked

  class Mm {
    var areas: seq<Area>
    var cache: Option<Area>

    predicate Valid()
      reads this
    {
      Sorted(areas) && (cache.Some? ==> cache.value in areas)
    }

    constructor ()
      ensures Valid() && areas == []
    {
      areas, cache := [], None;
    }

    /** find_vma: with the cache, the answer is the same as that of the plain scan. */
    method FindVma(a: nat) returns (vma: Option<Area>)
      requires Valid()
      modifies this`cache
      ensures Valid()
      ensures vma == Scan(areas, a)
      ensures cache == if vma.Some? then vma else old(cache)
    {
      vma := cache;
      if vma.Some? && vma.value.Has(a) {
        OnlyArea(areas, vma.value, Scan(areas, a).value, a);
      } else {
        var i := 0;
        vma := None;
        while i < |areas|
          invariant 0 <= i <= |areas|
          invariant Scan(areas, a) == Scan(areas[i..], a)
        {
          if areas[i].Has(a) {
            vma := Some(areas[i]);
            break;
          }
          assert areas[i..][1..] == areas[i + 1..];
          i := i + 1;
        }
      }
      if vma.Some? {
        cache := vma;
      }
    }

    /** insert_vma_struct; it fails where the source's assertions on the area and its two neighbours do. */
    method InsertVma(vma: Area) returns (ok: bool)
      requires Valid()
      modifies this`areas
      ensures Valid()
      ensures ok <==> vma.start < vma.end && forall x :: x in old(areas) ==> Disjoint(vma, x)
      ensures areas == if ok then Inserted(old(areas), vma) else old(areas)
    {
      if vma.start >= vma.end {
        return false;
      }
      var k := 0;
      while k < |areas| && areas[k].start <= vma.start
        invariant 0 <= k <= |areas|
        invariant forall j :: 0 <= j < k ==> areas[j].start <= vma.start
      {
        k := k + 1;
      }
      Neighbours(areas, vma, k);
      if k > 0 && !Follow(areas[k - 1], vma) {
        return false;
      }
      if k < |areas| && !Follow(vma, areas[k]) {
        return false;
      }
      InsertedAt(areas, vma, k);
      InsertedSorted(areas, vma);
      areas := areas[..k] + [vma] + areas[k..];
      return true;
    }

    /**
     mm_map: a range whose first address is in an area is refused. One that overlaps only areas that
     begin inside it is not, and trips an assertion of insert_vma_struct. Done, the list has gained the
     pages of the range with the flags asked for; they cover it exactly if its end did not wrap.
     */
    method MmMap(addr: nat, len: nat, read: bool, write: bool, stack: bool) returns (ret: Ret, vma: Area)
      requires Valid() && addr < WORD && len < WORD
      modifies this
      ensures Valid()
      ensures PagesOf(vma.start, vma.end, addr, len) && vma.read == read && vma.write == write && vma.stack == stack
      ensures ret == Done <==> UserAccess(vma.start, vma.end) && forall x :: x in old(areas) ==> Disjoint(vma, x)
      ensures ret == Panicked <==>
        && UserAccess(vma.start, vma.end)
        && (forall x :: x in old(areas) ==> !x.Has(vma.start)) && exists x :: x in old(areas) && !Disjoint(vma, x)
      ensures areas == if ret == Done then Inserted(old(areas), vma) else old(areas)
      ensures ret == Done ==>
        if addr + len < WORD then addr + len <= vma.end < addr + len + PGSIZE else vma.end == vma.start + PGSIZE
    {
      var start, end := addr / PGSIZE * PGSIZE, Wrap(Wrap(addr + len) + PGSIZE - 1) / PGSIZE * PGSIZE;
      RoundedPages(addr, len);
      vma := Area(start, end, read, write, stack);
      if !UserAccess(start, end) {
        return Invalid, vma;
      }
      PagesCover(start, end, addr, len);
      hide Wrap, PagesOf;
      var found := FindVma(start);
      if found.Some? && end > found.value.start {
        assert !Disjoint(vma, found.value);
        return Invalid, vma;
      }
      var ok := InsertVma(vma);
      ret := if ok then Done else Panicked;
    }

    /** user_mem_check for a process with a memory of its own */
    method UserMemCheck(addr: nat, len: nat, write: bool) returns (ok: bool)
      requires Valid() && addr < WORD && len < WORD
      modifies this`cache
      ensures Valid()
      ensures ok <==> UserAccess(addr, addr + len) && RangeAllowed(areas, addr, addr + len, write)
    {
      var start, end := addr, Wrap(addr + len);
      if !UserAccess(start, end) {
        return false;
      }
      while start < end
        invariant Valid() && addr <= start && end == addr + len
        invariant RangeAllowed(areas, addr, end, write) <==> RangeAllowed(areas, start, end, write)
        decreases end - start
      {
        var vma := FindVma(start);
        if vma.None? || start < vma.value.start
           || !(if write then vma.value.write else vma.value.read)
           || (write && vma.value.stack && start < vma.value.start + PGSIZE) {
          NotAllowed(areas, start, end, write);
          return false;
        }
        AllowedOn(areas, vma.value, start, end, write);
        start := vma.value.end;
      }
      return true;
    }
  }

  /** An area goes in front of those behind it. */
  lemma BackInFront(areas: seq<Area>, i: nat)
    requires Sorted(areas) && i < |areas|
    ensures areas[i].start < areas[i].end
    ensures forall x :: x in areas[i + 1..] ==> Disjoint(areas[i], x)
    ensures Inserted(areas[i + 1..], areas[i]) == areas[i..]
  {
    assert areas[i..] == [areas[i]] + areas[i + 1..];
  }

  /** dup_mmap, but for the contents: walking backwards, the copy ends with the same list. */
  method DupMmap(to: Mm, from: Mm)
    requires to != from && from.Valid() && to.Valid() && to.areas == []
    modifies to
    ensures to.Valid() && to.areas == from.areas
  {
    hide Inserted, Sorted, Disjoint;
    var i := |from.areas|;
    while i > 0
      invariant 0 <= i <= |from.areas|
      invariant to.Valid() && to.areas == from.areas[i..]
    {
      i := i - 1;
      var vma := from.areas[i];
      BackInFront(from.areas, i);
      var ok := to.InsertVma(vma);
      assert ok;
    }
  }

  /** Two pages are mapped, the upper one of which is mapped already. */
  method OverlapFromBelow() returns (upper: Ret, both: Ret)
    ensures upper == Done && both == Panicked
  {
    var mm := new Mm();
    var vma;
    upper, vma := mm.MmMap(USERBASE + PGSIZE, PGSIZE, true, true, false);
    assert mm.areas == [vma] && vma in mm.areas;
    both, vma := mm.MmMap(USERBASE, 2 * PGSIZE, true, true, false);
  }

  /** A request of all but a page of the address space, from the middle of a page on: it gets that page. */
  method WrappedRange() returns (ret: Ret, vma: Area)
    ensures ret == Done && vma.end == vma.start + PGSIZE
  {
    var mm := new Mm();
    ret, vma := mm.MmMap(USERBASE + PGSIZE / 2, WORD - PGSIZE / 4, true, true, false);
  }
}
