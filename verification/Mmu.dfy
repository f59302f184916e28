/** Mapping, unmapping and copying pages, on frames and reference counts that are changed in place. */
module Mmu {
  import opened Integers
  import opened MemLayout
  import opened PageTables

  const PTSIZE: nat := PGSIZE * NENTRY

  /** Page v of space d has the same entry and, if it is mapped, the same content. */
  ghost predicate SamePage(m: Memory, m': Memory, d: nat, v: nat) {
    && Entry(m', d, v) == Entry(m, d, v)
    && (Present(Entry(m, d, v)) ==>
        var f := FrameOf(Entry(m, d, v));
        f < |m.mem| == |m'.mem| && m'.mem[f] == m.mem[f])
  }

  /** Data frames stay in use, but for those, now free, that lost their last mapping. */
  ghost predicate FreedExactly(m: Memory, m': Memory) {
    forall f: nat :: IsData(m, f) ==>
      && (f in m'.free <==> Mappings(m, f) != {} && Mappings(m', f) == {})
      && (IsData(m', f) <==> f !in m'.free)
  }

  /** No directory entry has changed, but that a missing table may have been added, open to the user. */
  ghost predicate TablesKept(m: Memory, m': Memory) {
    forall d: nat, i: nat :: Pde(m', d, i) == Pde(m, d, i) || (!Present(Pde(m, d, i)) && BitsOf(Pde(m', d, i)) == 7)
  }

  /** Page v of space d got entry w; every other page is the same. */
  ghost predicate Remapped(m: Memory, m': Memory, d: nat, v: nat, w: nat) {
    && Valid(m') && m'.dirs == m.dirs && |m'.mem| == |m.mem|
    && Entry(m', d, v) == w && TablesKept(m, m')
    && (forall d': nat, v': nat :: !(d' == d && v' == v) ==> SamePage(m, m', d', v'))
    && FreedExactly(m, m')
  }

  lemma {:induction false} ReplacedRemaps(m: Memory, d: nat, v: nat, w: nat)
    requires Valid(m) && d in m.dirs && v < NPAGES && HasTable(m, d, v / NENTRY, FrameOf(Pde(m, d, v / NENTRY)))
    requires Present(w) ==> IsData(m, FrameOf(w))
    ensures FrameOf(Pde(m, d, v / NENTRY)) < |m.mem| == |m.ref|
    ensures Present(Entry(m, d, v)) ==> FrameOf(Entry(m, d, v)) < |m.ref|
    ensures var m' := Replaced(m, d, v, w);
      && Remapped(m, m', d, v, w) && (forall f: nat :: IsData(m, f) ==> m'.mem[f] == m.mem[f])
      && forall d': nat, i: nat :: Pde(m', d', i) == Pde(m, d', i)
  {
    ReplacedMeaning(m, d, v, w);
    ReplacedShape(m, d, v, w);
    var m' := Replaced(m, d, v, w);
    var t := FrameOf(Pde(m, d, v / NENTRY));
    forall f: nat | IsData(m, f)
      ensures f != t && m'.mem[f] == m.mem[f]
    {
      assert HasTable(m, d, v / NENTRY, t);
    }
    forall d': nat, v': nat | !(d' == d && v' == v)
      ensures SamePage(m, m', d', v')
    {
      if Present(Entry(m, d', v')) {
        assert Maps(m, d', v', FrameOf(Entry(m, d', v')));
      }
    }
    hide Valid, Entry, IsData, Mappings;
  }

  lemma {:induction false} TableKeepsPages(m: Memory, d: nat, i: nat, t: nat)
    requires Valid(m) && d in m.dirs && i < USERDIRS && !Present(Pde(m, d, i)) && t in m.free
    ensures d < |m.mem| && t < |m.mem| == |m.ref|
    ensures var m' := WithTable(m, d, i, t);
      && Valid(m') && HasTable(m', d, i, t) && m'.dirs == m.dirs && |m'.mem| == |m.mem| && TablesKept(m, m')
      && (forall d': nat, v: nat :: SamePage(m, m', d', v))
      && FreedExactly(m, m')
      && (forall f: nat :: IsData(m, f) ==> IsData(m', f) && m'.mem[f] == m.mem[f])
  {
    TableAdded(m, d, i, t);
    var m' := WithTable(m, d, i, t);
    forall f: nat | IsData(m, f)
      ensures f != t && f != d && m'.mem[f] == m.mem[f]
    {
    }
    forall d': nat, v: nat
      ensures SamePage(m, m', d', v)
    {
      if Present(Entry(m, d', v)) {
        assert Maps(m, d', v, FrameOf(Entry(m, d', v)));
      }
    }
    forall f: nat | IsData(m, f)
      ensures Mappings(m', f) == Mappings(m, f) && f !in m'.free
    {
    }
    hide Valid, Entry, IsData;
  }

  /** The pages lo .. hi - 1 of space d are not mapped any more, and every other page is the same. */
  ghost predicate Unmapped(m: Memory, m': Memory, d: nat, lo: nat, hi: nat) {
    && Valid(m') && m'.dirs == m.dirs && |m'.mem| == |m.mem| && m.free <= m'.free
    && FreedExactly(m, m') && (forall d': nat, i: nat :: Pde(m', d', i) == Pde(m, d', i))
    && forall d': nat, v: nat ::
         if d' == d && lo <= v < hi then Entry(m', d', v) == (if Present(Entry(m, d', v)) then 0 else Entry(m, d', v))
         else SamePage(m, m', d', v)
  }

  lemma {:induction false} UnmapStarts(m: Memory, d: nat, lo: nat)
    requires Valid(m)
    ensures Unmapped(m, m, d, lo, lo)
  {
    forall d': nat, v: nat
      ensures SamePage(m, m, d', v)
    {
      if Present(Entry(m, d', v)) {
        assert Maps(m, d', v, FrameOf(Entry(m, d', v)));
      }
    }
  }

  lemma {:induction false} UnmapSkips(m: Memory, u: Memory, d: nat, lo: nat, v: nat, hi: nat)
    requires Unmapped(m, u, d, lo, v) && lo <= v <= hi
    requires forall x: nat :: v <= x < hi ==> !Present(Entry(u, d, x))
    ensures Unmapped(m, u, d, lo, hi)
  {
    hide Valid, FreedExactly, Entry;
    forall x: nat | v <= x < hi
      ensures Entry(u, d, x) == (if Present(Entry(m, d, x)) then 0 else Entry(m, d, x))
    {
      assert SamePage(m, u, d, x);
    }
  }

  lemma PageNumbers(la: nat, end: nat)
    requires la % PGSIZE == 0 && end % PGSIZE == 0 && la < end <= USERTOP
    ensures la / PGSIZE / NENTRY == la / PTSIZE && la / PGSIZE < NPAGES
    ensures Min(la, end) / PGSIZE == la / PGSIZE && Min(la + PGSIZE, end) / PGSIZE == la / PGSIZE + 1
  {
  }

  lemma NextTable(la: nat, end: nat)
    requires la % PGSIZE == 0 && end % PGSIZE == 0 && la < end <= USERTOP
    ensures var next := (la + PTSIZE) / PTSIZE * PTSIZE;
      && la < next <= la + PTSIZE && next % PGSIZE == 0
      && la / PGSIZE == Min(la, end) / PGSIZE <= Min(next, end) / PGSIZE
  {
    var q, next := la / PTSIZE, (la + PTSIZE) / PTSIZE * PTSIZE;
    assert (la + PTSIZE) / PTSIZE == q + 1;
    assert next == (q + 1) * NENTRY * PGSIZE;
    assert next % PGSIZE == 0;
    assert la / PGSIZE <= Min(next, end) / PGSIZE;
  }

  /** Without a table, no page of its range is mapped. */
  lemma NoTable(m: Memory, d: nat, la: nat, hi: nat)
    requires !Present(Pde(m, d, la / PTSIZE)) && la % PGSIZE == 0 && hi <= (la + PTSIZE) / PTSIZE * PTSIZE
    ensures forall x: nat :: la / PGSIZE <= x < hi / PGSIZE ==> !Present(Entry(m, d, x))
  {
    forall x: nat | la / PGSIZE <= x < hi / PGSIZE
      ensures x / NENTRY == la / PTSIZE
    {
      assert la <= x * PGSIZE < hi;
    }
  }

  /** Clearing one page's entry, if it was mapped. */
  lemma {:induction false} UnmapsNext(m: Memory, u: Memory, m': Memory, d: nat, lo: nat, v: nat)
    requires Unmapped(m, u, d, lo, v) && lo <= v
    requires if Present(Entry(u, d, v)) then Remapped(u, m', d, v, 0) && u.free <= m'.free else m' == u
    requires forall d': nat, i: nat :: Pde(m', d', i) == Pde(u, d', i)
    ensures Unmapped(m, m', d, lo, v + 1) && Valid(m')
  {
    hide Valid, Entry, IsData, Mappings;
    if !Present(Entry(u, d, v)) {
      UnmapSkips(m, u, d, lo, v, v + 1);
    } else {
      assert SamePage(m, u, d, v);
      forall d': nat, x: nat
        ensures if d' == d && lo <= x < v + 1 then Entry(m', d', x) == (if Present(Entry(m, d', x)) then 0 else Entry(m, d', x))
                else SamePage(m, m', d', x)
      {
        if d' == d && x == v {
          assert Entry(m', d, v) == 0;
        } else {
          assert SamePage(u, m', d', x);
          if d' == d && lo <= x < v {
            assert Entry(u, d, x) == if Present(Entry(m, d, x)) then 0 else Entry(m, d, x);
          } else {
            assert SamePage(m, u, d', x);
          }
        }
      }
      UnmappedShrinks(m, u, d, lo, v);
      FreedTwice(m, u, m');
    }
  }

  lemma {:induction false} UnmappedShrinks(m: Memory, u: Memory, d: nat, lo: nat, hi: nat)
    requires Unmapped(m, u, d, lo, hi)
    ensures forall f: nat :: Mappings(u, f) <= Mappings(m, f)
  {
    hide Valid, FreedExactly, Entry;
    forall d': nat, v: nat, f: nat | Maps(u, d', v, f)
      ensures Maps(m, d', v, f)
    {
      assert SamePage(m, u, d', v) || Entry(u, d', v) == (if Present(Entry(m, d', v)) then 0 else Entry(m, d', v));
    }
  }

  lemma {:induction false} FreedTwice(m: Memory, u: Memory, m': Memory)
    requires FreedExactly(m, u) && FreedExactly(u, m') && u.free <= m'.free && Valid(u) && Valid(m')
    requires forall f: nat :: Mappings(u, f) <= Mappings(m, f)
    ensures FreedExactly(m, m')
  {
    hide Valid, IsData;
    forall f: nat | IsData(m, f)
      ensures f in m'.free <==> Mappings(m, f) != {} && Mappings(m', f) == {}
      ensures IsData(m', f) <==> f !in m'.free
    {
      if f in u.free {
        FreeUnmapped(m', f);
      }
    }
  }

  lemma {:induction false} FreeUnmapped(m: Memory, f: nat)
    requires Valid(m) && f in m.free
    ensures Mappings(m, f) == {} && !IsData(m, f)
  {
    assert forall d: nat, v: nat :: !Maps(m, d, v, f);
  }

  /** The entry is present, names frame f, and has the permission bits asked for. */
  predicate Names(w: nat, f: nat, perm: nat) {
    Present(w) && FrameOf(w) == f && BitsOf(w) / 2 == perm / 2 && (Present(perm) ==> BitsOf(w) == perm)
  }

  datatype Ret = Done | NoMemory | Panicked

  /** Page v of space d is mapped with the given user bits to a frame that nobody else maps, with the content. */
  ghost predicate OwnCopy(m: Memory, d: nat, v: nat, perm: nat, content: Frame) {
    var w := Entry(m, d, v);
    && Present(w) && BitsOf(w) == perm
    && FrameOf(w) < |m.mem| && m.mem[FrameOf(w)] == content
    && Mappings(m, FrameOf(w)) == {(d, v)}
  }

  /** The pages lo .. hi - 1 that `from` maps have copies in `to`; every other page is the same. */
  ghost predicate Copied(m: Memory, m': Memory, to: nat, from: nat, lo: nat, hi: nat) {
    && Valid(m') && m'.dirs == m.dirs && |m'.mem| == |m.mem| && TablesKept(m, m')
    && (forall d: nat, v: nat :: !(d == to && lo <= v < hi && Present(Entry(m, from, v))) ==> SamePage(m, m', d, v))
    && (forall v: nat :: lo <= v < hi && Present(Entry(m, from, v)) ==>
         var f := FrameOf(Entry(m, from, v));
         f < |m.mem| && OwnCopy(m', to, v, Entry(m, from, v) % 8, m.mem[f]))
  }

  /** After m, page v of `to` is the copy of that of `from`, in frame f, which was not mapped before. */
  ghost predicate GotCopy(m: Memory, m': Memory, to: nat, from: nat, v: nat, f: nat) {
    && Valid(m') && m'.dirs == m.dirs && |m'.mem| == |m.mem| && TablesKept(m, m')
    && Mappings(m, f) == {} && FrameOf(Entry(m', to, v)) == f
    && Present(Entry(m', to, v)) && BitsOf(Entry(m', to, v)) == Entry(m, from, v) % 8
    && f < |m'.mem| && FrameOf(Entry(m, from, v)) < |m.mem| && m'.mem[f] == m.mem[FrameOf(Entry(m, from, v))]
    && forall d: nat, x: nat :: !(d == to && x == v) ==> SamePage(m, m', d, x)
  }

  lemma {:induction false} SameAll(m: Memory)
    requires Valid(m)
    ensures forall d: nat, v: nat :: SamePage(m, m, d, v)
  {
    UnmapStarts(m, 0, 0);
  }

  lemma {:induction false} CopyStarts(m: Memory, to: nat, from: nat, lo: nat)
    requires Valid(m)
    ensures Copied(m, m, to, from, lo, lo)
  {
    SameAll(m);
  }

  lemma {:induction false} CopySkips(m: Memory, u: Memory, to: nat, from: nat, lo: nat, v: nat, hi: nat)
    requires Copied(m, u, to, from, lo, v) && lo <= v <= hi && to != from
    requires forall x: nat :: v <= x < hi ==> !Present(Entry(u, from, x))
    ensures Copied(m, u, to, from, lo, hi)
  {
    hide Valid, Entry, OwnCopy;
    forall x: nat | v <= x < hi
      ensures !Present(Entry(m, from, x))
    {
      assert SamePage(m, u, from, x);
    }
  }

  /** Pages and mappings after another address space's frames were only looked at. */
  lemma {:induction false} StillCopied(m: Memory, u: Memory, m': Memory, to: nat, from: nat, lo: nat, hi: nat)
    requires Copied(m, u, to, from, lo, hi) && Valid(m') && m'.dirs == u.dirs && |m'.mem| == |u.mem| && TablesKept(u, m')
    requires forall d: nat, v: nat :: SamePage(u, m', d, v)
    requires forall x: nat :: Mappings(m', x) == Mappings(u, x)
    ensures Copied(m, m', to, from, lo, hi)
  {
    hide Valid, Entry, Mappings;
    forall d: nat, v: nat | !(d == to && lo <= v < hi && Present(Entry(m, from, v)))
      ensures SamePage(m, m', d, v)
    {
      assert SamePage(m, u, d, v) && SamePage(u, m', d, v);
    }
    forall v: nat | lo <= v < hi && Present(Entry(m, from, v))
      ensures OwnCopy(m', to, v, Entry(m, from, v) % 8, m.mem[FrameOf(Entry(m, from, v))])
    {
      assert SamePage(u, m', to, v);
    }
  }

  /** One more page copied. */
  lemma {:induction false} CopiesNext(m: Memory, u: Memory, m': Memory, to: nat, from: nat, lo: nat, v: nat, f: nat)
    requires Copied(m, u, to, from, lo, v) && lo <= v && to != from && to in u.dirs && v < NPAGES
    requires Present(Entry(u, from, v)) && GotCopy(u, m', to, from, v, f)
    ensures Copied(m, m', to, from, lo, v + 1) && Valid(m')
  {
    hide Mappings;
    assert SamePage(m, u, from, v);
    CopyAlone(u, m', to, from, v, f);
    hide Valid, Entry;
    forall d: nat, x: nat | !(d == to && lo <= x < v + 1 && Present(Entry(m, from, x)))
      ensures SamePage(m, m', d, x)
    {
      assert SamePage(m, u, d, x) && SamePage(u, m', d, x);
    }
    forall x: nat | lo <= x < v && Present(Entry(m, from, x))
      ensures OwnCopy(m', to, x, Entry(m, from, x) % 8, m.mem[FrameOf(Entry(m, from, x))])
    {
      assert SamePage(u, m', to, x);
      OthersAlone(u, m', to, from, v, f, x);
    }
  }

  /** The new copy's frame is mapped by its page only. */
  lemma {:induction false} CopyAlone(u: Memory, m': Memory, to: nat, from: nat, v: nat, f: nat)
    requires GotCopy(u, m', to, from, v, f) && to in u.dirs && v < NPAGES && Present(Entry(u, from, v))
    ensures OwnCopy(m', to, v, Entry(u, from, v) % 8, u.mem[FrameOf(Entry(u, from, v))])
  {
    hide Valid, Entry;
    forall d: nat, x: nat | d in u.dirs && x < NPAGES
      ensures Maps(m', d, x, f) <==> d == to && x == v
    {
      if !(d == to && x == v) {
        assert SamePage(u, m', d, x);
        assert (d, x) !in Mappings(u, f);
      }
    }
    assert Mappings(m', f) == {(to, v)};
  }

  /** A frame that was mapped by one other page is so still. */
  lemma {:induction false} OthersAlone(u: Memory, m': Memory, to: nat, from: nat, v: nat, f: nat, x: nat)
    requires GotCopy(u, m', to, from, v, f) && x != v && Present(Entry(u, to, x))
    requires Mappings(u, FrameOf(Entry(u, to, x))) == {(to, x)}
    ensures Mappings(m', FrameOf(Entry(u, to, x))) == {(to, x)}
  {
    hide Valid, Entry;
    var g := FrameOf(Entry(u, to, x));
    assert g != f;
    assert (to, x) in Mappings(u, g);
    forall d: nat, y: nat | d in u.dirs && y < NPAGES
      ensures Maps(m', d, y, g) <==> d == to && y == x
    {
      if d == to && y == v {
        assert (d, y) !in {(to, x)};
      } else {
        assert SamePage(u, m', d, y);
        assert Maps(u, d, y, g) <==> (d, y) in Mappings(u, g);
      }
    }
    assert Mappings(m', g) == {(to, x)};
  }

  class Machine {
    const mem: array<Frame>
    const ref: array<nat>
    ghost const dirs: set<nat>
    var free: set<nat>

    ghost function Mem(): Memory
      reads this, mem, ref
    {
      Memory(mem[..], ref[..], free, dirs)
    }

    constructor (m: Memory)
      ensures Mem() == m && fresh(mem) && fresh(ref)
    {
      mem := new Frame[|m.mem|](i requires 0 <= i < |m.mem| => m.mem[i]);
      ref := new nat[|m.ref|](i requires 0 <= i < |m.ref| => m.ref[i]);
      free, dirs := m.free, m.dirs;
    }

    /** get_pte: the table for an address, made if it is missing and asked for. */
    method GetPte(pgdir: nat, la: nat, create: bool) returns (ok: bool, t: nat)
      requires Valid(Mem()) && pgdir in dirs && la < USERTOP
      modifies this, mem, ref
      ensures var i := la / PTSIZE;
        if Present(Pde(old(Mem()), pgdir, i)) || !create || old(free) == {}
        then Mem() == old(Mem()) && (ok <==> Present(Pde(Mem(), pgdir, i))) && (ok ==> HasTable(Mem(), pgdir, i, t))
        else ok && t in old(free) && pgdir < mem.Length == ref.Length && t < mem.Length
             && Mem() == WithTable(old(Mem()), pgdir, i, t)
    {
      hide TablesOk, CountsOk;
      ghost var m := Mem();
      var pdx := la / PTSIZE;
      assert pgdir < mem.Length && mem.Length == ref.Length;
      var pde := mem[pgdir][pdx];
      if !Present(pde) {
        if !create || free == {} {
          return false, 0;
        }
        t :| t in free;
        free := free - {t};
        ref[t] := 1;
        mem[t] := ZeroFrame();
        mem[pgdir] := mem[pgdir][pdx := Word(t, 7)];
        return true, t;
      }
      return true, FrameOf(pde);
    }

    /** page_remove_pte: the frame loses a reference, the last of which frees it, and the entry is cleared. */
    method PageRemovePte(t: nat, ptx: nat)
      requires t < mem.Length && ptx < NENTRY
      requires Present(mem[t][ptx]) ==> FrameOf(mem[t][ptx]) < ref.Length && ref[FrameOf(mem[t][ptx])] > 0
      modifies this, mem, ref
      ensures Mem() == if Present(old(mem[t][ptx])) then Dropped(old(Mem()), t, ptx) else old(Mem())
    {
      var pte := mem[t][ptx];
      if Present(pte) {
        var p := FrameOf(pte);
        ref[p] := ref[p] - 1;
        if ref[p] == 0 {
          free := free + {p};
        }
        mem[t] := mem[t][ptx := 0];
      }
    }

    /** The end of page_insert: take the reference, give up the old one, set the entry. */
    method PutPte(t: nat, ptx: nat, f: nat, w: nat)
      requires t < mem.Length && ptx < NENTRY && f < ref.Length
      requires Present(mem[t][ptx]) ==> FrameOf(mem[t][ptx]) < ref.Length && ref[FrameOf(mem[t][ptx])] > 0
      modifies this, mem, ref
      ensures Mem() == Put(old(Mem()), t, ptx, f, w)
    {
      ref[f] := ref[f] + 1;
      var pte := mem[t][ptx];
      if Present(pte) {
        if FrameOf(pte) == f {
          ref[f] := ref[f] - 1;
          assert ref[..] == old(ref[..]);
        } else {
          PageRemovePte(t, ptx);
        }
      }
      mem[t] := mem[t][ptx := w];
    }

    /** page_insert: map page la of a space to frame f. */
    method PageInsert(pgdir: nat, f: nat, la: nat, perm: nat) returns (ok: bool)
      requires Valid(Mem()) && pgdir in dirs && la < USERTOP
      requires IsData(Mem(), f) && perm < PGSIZE
      modifies this, mem, ref
      ensures !ok ==> Mem() == old(Mem()) && free == {} && !Present(Pde(Mem(), pgdir, la / PTSIZE))
      ensures ok ==>
        && Remapped(old(Mem()), Mem(), pgdir, la / PGSIZE, Word(f, perm))
        && Names(Entry(Mem(), pgdir, la / PGSIZE), f, perm)
        && IsData(Mem(), f) && f < mem.Length && mem[f] == old(mem[f])
    {
      hide Valid, IsData, Remapped, Put, WithTable, HasTable, Pde;
      ghost var m := Mem();
      var t;
      ok, t := GetPte(pgdir, la, true);
      if !ok {
        return;
      }
      assert la / PGSIZE / NENTRY == la / PTSIZE && la / PGSIZE < NPAGES;
      InsertReady(m, Mem(), pgdir, la / PGSIZE, t, f, perm);
      PutPte(t, la / PGSIZE % NENTRY, f, Word(f, perm));
    }

    /** unmap_range: a missing table is skipped as a whole. */
    method UnmapRange(pgdir: nat, start: nat, end: nat)
      requires Valid(Mem()) && pgdir in dirs
      requires start % PGSIZE == 0 && end % PGSIZE == 0 && UserAccess(start, end)
      modifies this, mem, ref
      ensures Unmapped(old(Mem()), Mem(), pgdir, start / PGSIZE, end / PGSIZE)
    {
      hide Valid, Unmapped, Dropped, Entry, Remapped, HasTable, Pde;
      ghost var m := Mem();
      var la := start;
      UnmapStarts(m, pgdir, start / PGSIZE);
      while la != 0 && la < end
        invariant la > 0 && la % PGSIZE == 0 && start <= la
        invariant Valid(Mem())
        invariant Unmapped(m, Mem(), pgdir, start / PGSIZE, Min(la, end) / PGSIZE)
        decreases USERTOP + PTSIZE - la
      {
        ghost var u := Mem();
        var ok, t := GetPte(pgdir, la, false);
        if !ok {
          var next := (la + PTSIZE) / PTSIZE * PTSIZE;
          NoTable(u, pgdir, la, Min(next, end));
          NextTable(la, end);
          UnmapSkips(m, u, pgdir, start / PGSIZE, la / PGSIZE, Min(next, end) / PGSIZE);
          la := next;
          continue;
        }
        var v, ptx := la / PGSIZE, la / PGSIZE % NENTRY;
        PageNumbers(la, end);
        EntryIn(u, pgdir, v, t);
        if mem[t][ptx] != 0 {
          DroppedRemaps(u, pgdir, v, t);
          PageRemovePte(t, ptx);
        }
        UnmapsNext(m, u, Mem(), pgdir, start / PGSIZE, v);
        la := la + PGSIZE;
      }
    }

    /** alloc_page: any free frame. */
    method AllocPage() returns (ok: bool, f: nat)
      modifies this
      ensures ok <==> old(free) != {}
      ensures ok ==> f in old(free) && free == old(free) - {f}
      ensures !ok ==> free == old(free)
    {
      if free == {} {
        return false, 0;
      }
      f :| f in free;
      free := free - {f};
      ok := true;
    }

    /**
     copy_range: every page that `from` maps gets a frame of its own in `to`, with the same content and
     the same user bits. Out of memory, it stops at page `reached`; without a frame for the data it panics.
     */
    method CopyRange(to: nat, from: nat, start: nat, end: nat) returns (ret: Ret, ghost reached: nat)
      requires Valid(Mem()) && to in dirs && from in dirs && to != from
      requires start % PGSIZE == 0 && end % PGSIZE == 0 && UserAccess(start, end)
      modifies this, mem, ref
      ensures start / PGSIZE <= reached <= end / PGSIZE
      ensures Copied(old(Mem()), Mem(), to, from, start / PGSIZE, reached)
      ensures if ret == Done then reached == end / PGSIZE else free == {}
      ensures ret != Done ==> (ret == NoMemory <==> !Present(Pde(Mem(), to, reached / NENTRY)))
    {
      hide Valid, Copied, Entry, Remapped, HasTable, Pde, IsData, SamePage, WithTable;
      ghost var m := Mem();
      var la := start;
      CopyStarts(m, to, from, start / PGSIZE);
      while la != 0 && la < end
        invariant la > 0 && la % PGSIZE == 0 && start <= la
        invariant Valid(Mem())
        invariant Copied(m, Mem(), to, from, start / PGSIZE, Min(la, end) / PGSIZE)
        decreases USERTOP + PTSIZE - la
      {
        ghost var u := Mem();
        var ok, t := GetPte(from, la, false);
        if !ok {
          var next := (la + PTSIZE) / PTSIZE * PTSIZE;
          NoTable(u, from, la, Min(next, end));
          NextTable(la, end);
          CopySkips(m, u, to, from, start / PGSIZE, la / PGSIZE, Min(next, end) / PGSIZE);
          la := next;
          continue;
        }
        var v, ptx := la / PGSIZE, la / PGSIZE % NENTRY;
        PageNumbers(la, end);
        EntryIn(u, from, v, t);
        var pte := mem[t][ptx];
        if !Present(pte) {
          CopySkips(m, u, to, from, start / PGSIZE, v, v + 1);
        } else {
          var made;
          ret, made := CopyPage(to, from, la, pte);
          if ret != Done {
            StillCopied(m, u, Mem(), to, from, start / PGSIZE, v);
            return ret, v;
          }
          CopiesNext(m, u, Mem(), to, from, start / PGSIZE, v, made);
        }
        la := la + PGSIZE;
      }
      return Done, end / PGSIZE;
    }

    /** One page of copy_range. */
    method CopyPage(to: nat, from: nat, la: nat, pte: nat) returns (ret: Ret, f: nat)
      requires Valid(Mem()) && to in dirs && from in dirs && to != from && la < USERTOP
      requires pte == Entry(Mem(), from, la / PGSIZE) && Present(pte)
      modifies this, mem, ref
      ensures ret != Done ==> free == {} && Valid(Mem()) && forall d: nat, v: nat :: SamePage(old(Mem()), Mem(), d, v)
      ensures ret != Done ==> TablesKept(old(Mem()), Mem()) && forall x: nat :: Mappings(Mem(), x) == Mappings(old(Mem()), x)
      ensures ret != Done ==> (ret == NoMemory <==> !Present(Pde(Mem(), to, la / PTSIZE)))
      ensures ret == Done ==> GotCopy(old(Mem()), Mem(), to, from, la / PGSIZE, f)
    {
      hide Valid, Entry, Remapped, Pde, IsData, SamePage, WithTable, GotCopy, Mappings;
      ghost var m, v := Mem(), la / PGSIZE;
      var ok, nt := GetPte(to, la, true);
      if !ok {
        SameAll(m);
        return NoMemory, 0;
      }
      ghost var u := Mem();
      TablePages(m, u, to, la / PTSIZE, nt);
      var perm := pte % 8;
      MappedIsData(u, from, v);
      var page := FrameOf(pte);
      ok, f := AllocPage();
      if !ok {
        return Panicked, 0;
      }
      DataAllocated(u, f);
      ghost var a := Mem();
      mem[f] := mem[page];
      DataWritten(a, f, u.mem[page]);
      ghost var w := Mem();
      FilledPages(m, u, w, from, v, f);
      ok := PageInsert(to, f, la, perm);
      assert ok;
      CopyMade(m, w, Mem(), to, from, v, f);
      ret := Done;
    }
  }

  /** The reference of the frame in entry ptx of table t is given up, and the entry cleared. */
  function Dropped(m: Memory, t: nat, ptx: nat): Memory
    requires t < |m.mem| && ptx < NENTRY
    requires FrameOf(m.mem[t][ptx]) < |m.ref| && m.ref[FrameOf(m.mem[t][ptx])] > 0
  {
    var p := FrameOf(m.mem[t][ptx]);
    var left := m.ref[p] - 1;
    Memory(m.mem[t := m.mem[t][ptx := 0]], m.ref[p := left], if left == 0 then m.free + {p} else m.free, m.dirs)
  }

  /** Entry ptx of table t set to w, which names frame f. */
  function Put(m: Memory, t: nat, ptx: nat, f: nat, w: nat): Memory
    requires t < |m.mem| && ptx < NENTRY && f < |m.ref|
    requires Present(m.mem[t][ptx]) ==> FrameOf(m.mem[t][ptx]) < |m.ref| && m.ref[FrameOf(m.mem[t][ptx])] > 0
  {
    var up := m.(ref := m.ref[f := m.ref[f] + 1]);
    var now := if !Present(m.mem[t][ptx]) then up
               else if FrameOf(m.mem[t][ptx]) == f then m
               else Dropped(up, t, ptx);
    now.(mem := now.mem[t := now.mem[t][ptx := w]])
  }

  lemma {:induction false} DroppedRemaps(m: Memory, d: nat, v: nat, t: nat)
    requires Valid(m) && d in m.dirs && v < NPAGES && HasTable(m, d, v / NENTRY, t)
    ensures t < |m.mem| == |m.ref| && m.mem[t][v % NENTRY] == Entry(m, d, v)
    ensures Present(Entry(m, d, v)) ==> FrameOf(Entry(m, d, v)) < |m.ref| && m.ref[FrameOf(Entry(m, d, v))] > 0
    ensures Present(Entry(m, d, v)) ==>
      && Remapped(m, Dropped(m, t, v % NENTRY), d, v, 0) && m.free <= Dropped(m, t, v % NENTRY).free
      && forall d': nat, i: nat :: Pde(Dropped(m, t, v % NENTRY), d', i) == Pde(m, d', i)
  {
    hide Valid, Entry, Remapped;
    EntryIn(m, d, v, t);
    if Present(Entry(m, d, v)) {
      ReplacedRemaps(m, d, v, 0);
      assert Dropped(m, t, v % NENTRY) == Replaced(m, d, v, 0);
    }
  }

  /** The pages are the same once a table was added, or was there. */
  lemma {:induction false} TablePages(m: Memory, u: Memory, d: nat, i: nat, t: nat)
    requires Valid(m) && d in m.dirs && i < USERDIRS
    requires (u == m && HasTable(m, d, i, t))
      || (!Present(Pde(m, d, i)) && t in m.free && d < |m.mem| == |m.ref| && t < |m.mem| && u == WithTable(m, d, i, t))
    ensures Valid(u) && HasTable(u, d, i, t) && u.dirs == m.dirs && |u.mem| == |m.mem| && TablesKept(m, u)
    ensures forall d': nat, v: nat :: SamePage(m, u, d', v) && Entry(u, d', v) == Entry(m, d', v)
    ensures forall x: nat :: Mappings(u, x) == Mappings(m, x)
  {
    hide Valid, Entry;
    if u != m {
      TableKeepsPages(m, d, i, t);
      TableAdded(m, d, i, t);
      assert forall x: nat :: Mappings(u, x) == Mappings(m, x);
    } else {
      SameAll(m);
    }
  }

  /** A frame taken and filled shows in no page. */
  lemma {:induction false} FilledPages(m: Memory, u: Memory, w: Memory, from: nat, v: nat, f: nat)
    requires Valid(u) && (forall d: nat, x: nat :: SamePage(m, u, d, x)) && f in u.free && u.dirs == m.dirs && |u.mem| == |m.mem|
    requires forall x: nat :: Mappings(u, x) == Mappings(m, x)
    requires Present(Entry(m, from, v)) && FrameOf(Entry(m, from, v)) < |u.mem| && f < |u.mem|
    requires w == u.(free := u.free - {f}, mem := u.mem[f := u.mem[FrameOf(Entry(m, from, v))]])
    requires forall d: nat, x: nat :: Entry(w, d, x) == Entry(u, d, x)
    requires TablesKept(m, u)
    ensures TablesKept(m, w)
    ensures forall d: nat, x: nat :: SamePage(m, w, d, x)
    ensures Mappings(m, f) == {}
    ensures forall d: nat, i: nat :: Pde(w, d, i) == Pde(u, d, i)
    ensures FrameOf(Entry(m, from, v)) < |m.mem| && w.mem[f] == m.mem[FrameOf(Entry(m, from, v))]
  {
    FreeUnmapped(u, f);
    assert SamePage(m, u, from, v);
    forall d: nat, x: nat
      ensures SamePage(m, w, d, x)
    {
      assert SamePage(m, u, d, x);
      if Present(Entry(u, d, x)) {
        assert FrameOf(Entry(u, d, x)) != f by {
          EntryInRange(u, d, x);
          assert Maps(u, d, x, FrameOf(Entry(u, d, x)));
          assert (d, x) !in Mappings(u, f);
        }
      }
    }
  }

  lemma {:induction false} CopyMade(m: Memory, w: Memory, m': Memory, to: nat, from: nat, v: nat, f: nat)
    requires TablesKept(m, w)
    requires (forall d: nat, x: nat :: SamePage(m, w, d, x)) && Mappings(m, f) == {} && w.dirs == m.dirs && |w.mem| == |m.mem|
    requires FrameOf(Entry(m, from, v)) < |m.mem| && f < |w.mem| && w.mem[f] == m.mem[FrameOf(Entry(m, from, v))]
    requires Present(Entry(m, from, v)) && Names(Entry(m', to, v), f, Entry(m, from, v) % 8)
    requires Remapped(w, m', to, v, Word(f, Entry(m, from, v) % 8)) && f < |m'.mem| && m'.mem[f] == w.mem[f]
    ensures GotCopy(m, m', to, from, v, f)
  {
    hide Valid, Entry, Mappings;
    forall d: nat, x: nat | !(d == to && x == v)
      ensures SamePage(m, m', d, x)
    {
      assert SamePage(m, w, d, x) && SamePage(w, m', d, x);
    }
  }

  /** What is known once the table for a page is there. */
  lemma {:induction false} TableReady(m: Memory, u: Memory, d: nat, i: nat, t: nat, f: nat)
    requires Valid(m) && d in m.dirs && i < USERDIRS && IsData(m, f)
    requires (u == m && HasTable(m, d, i, t))
      || (!Present(Pde(m, d, i)) && t in m.free && d < |m.mem| == |m.ref| && t < |m.mem| && u == WithTable(m, d, i, t))
    ensures Valid(u) && HasTable(u, d, i, t) && u.dirs == m.dirs && |u.mem| == |m.mem| && TablesKept(m, u)
    ensures (forall d': nat, v: nat :: SamePage(m, u, d', v)) && FreedExactly(m, u)
    ensures IsData(u, f) && f < |m.mem| && u.mem[f] == m.mem[f]
    ensures forall x: nat :: IsData(m, x) ==> IsData(u, x)
    ensures forall x: nat :: Mappings(u, x) == Mappings(m, x)
  {
    if u != m {
      TableKeepsPages(m, d, i, t);
      TableAdded(m, d, i, t);
      assert forall x: nat :: Mappings(u, x) == Mappings(m, x);
    } else {
      assert forall d': nat, v: nat, x: nat :: Maps(m, d', v, x) ==> IsData(m, x);
      assert forall d': nat, v: nat :: Present(Entry(m, d', v)) ==> Maps(m, d', v, FrameOf(Entry(m, d', v)));
    }
  }

  lemma {:induction false} EntryIn(m: Memory, d: nat, v: nat, t: nat)
    requires Valid(m) && HasTable(m, d, v / NENTRY, t)
    ensures t < |m.mem| == |m.ref| && m.mem[t][v % NENTRY] == Entry(m, d, v)
    ensures Present(Entry(m, d, v)) ==> FrameOf(Entry(m, d, v)) < |m.ref| && m.ref[FrameOf(Entry(m, d, v))] > 0
    ensures Present(Entry(m, d, v)) ==> FrameOf(Entry(m, d, v)) != t
  {
    if Present(Entry(m, d, v)) {
      assert Maps(m, d, v, FrameOf(Entry(m, d, v)));
      MappedHasRef(m, d, v, FrameOf(Entry(m, d, v)));
    }
  }

  /** The steps of page_insert, put together. */
  lemma {:induction false} Inserted(m: Memory, d: nat, v: nat, t: nat, f: nat, perm: nat)
    requires Valid(m) && d in m.dirs && v < NPAGES && HasTable(m, d, v / NENTRY, t) && IsData(m, f) && perm < PGSIZE
    ensures t < |m.mem| == |m.ref| && f < |m.ref| && f != t
    ensures FrameOf(Pde(m, d, v / NENTRY)) < |m.mem| && FrameOf(Word(f, perm)) < |m.ref|
    ensures Present(Entry(m, d, v)) ==> FrameOf(Entry(m, d, v)) < |m.ref| && m.ref[FrameOf(Entry(m, d, v))] > 0
    ensures m.mem[t][v % NENTRY] == Entry(m, d, v)
    ensures Put(m, t, v % NENTRY, f, Word(f, perm)) == Replaced(m, d, v, Word(f, perm))
  {
    EntryIn(m, d, v, t);
    WordFields(f, perm);
    hide Valid, Word;
    var ptx, w, e := v % NENTRY, Word(f, perm), Entry(m, d, v);
    assert m.mem[t][ptx := 0][ptx := w] == m.mem[t][ptx := w];
    if Present(e) && FrameOf(e) == f {
      assert m.ref[f := m.ref[f] + 1][f := m.ref[f]] == m.ref;
    } else if Present(e) {
      var mem := m.mem[t := m.mem[t][ptx := 0]];
      assert mem[t := mem[t][ptx := w]] == m.mem[t := m.mem[t][ptx := w]];
    }
  }

  /** Making room for the entry first changes nothing that the replacement did not allow. */
  lemma {:induction false} RemappedAfter(m: Memory, u: Memory, m': Memory, d: nat, v: nat, w: nat, f: nat)
    requires Valid(u) && u.dirs == m.dirs && |u.mem| == |m.mem|
    requires d in u.dirs && v < NPAGES && HasTable(u, d, v / NENTRY, FrameOf(Pde(u, d, v / NENTRY)))
    requires (forall d': nat, v': nat :: SamePage(m, u, d', v')) && FreedExactly(m, u) && TablesKept(m, u)
    requires forall x: nat :: IsData(m, x) ==> IsData(u, x)
    requires forall x: nat :: Mappings(u, x) == Mappings(m, x)
    requires Present(w) && FrameOf(w) == f && IsData(u, f) && f < |m.mem| && u.mem[f] == m.mem[f]
    requires FrameOf(Pde(u, d, v / NENTRY)) < |u.mem| == |u.ref| && f < |u.ref|
    requires Present(Entry(u, d, v)) ==> FrameOf(Entry(u, d, v)) < |u.ref|
    requires m' == Replaced(u, d, v, w)
    ensures Remapped(m, m', d, v, w) && Entry(m', d, v) == w && IsData(m', f) && f < |m'.mem| && m'.mem[f] == m.mem[f]
  {
    ReplacedRemaps(u, d, v, w);
    assert IsData(m', f) by {
      assert Maps(m', d, v, f);
    }
    forall d': nat, v': nat | !(d' == d && v' == v)
      ensures SamePage(m, m', d', v')
    {
      assert SamePage(m, u, d', v') && SamePage(u, m', d', v');
    }
    hide Valid, IsData, Mappings, Entry, Replaced, SamePage;
  }

  /** Once get_pte has found or made the table, setting the entry maps the page. */
  lemma {:induction false} InsertReady(m: Memory, u: Memory, d: nat, v: nat, t: nat, f: nat, perm: nat)
    requires Valid(m) && d in m.dirs && v < NPAGES && IsData(m, f) && perm < PGSIZE
    requires (u == m && HasTable(m, d, v / NENTRY, t))
      || (!Present(Pde(m, d, v / NENTRY)) && t in m.free && d < |m.mem| == |m.ref| && t < |m.mem|
          && u == WithTable(m, d, v / NENTRY, t))
    ensures t < |u.mem| == |u.ref| && f < |u.ref|
    ensures Present(u.mem[t][v % NENTRY]) ==> FrameOf(u.mem[t][v % NENTRY]) < |u.ref| && u.ref[FrameOf(u.mem[t][v % NENTRY])] > 0
    ensures var m' := Put(u, t, v % NENTRY, f, Word(f, perm));
      && Remapped(m, m', d, v, Word(f, perm)) && Names(Entry(m', d, v), f, perm)
      && IsData(m', f) && f < |m.mem| && f < |m'.mem| && m'.mem[f] == m.mem[f]
  {
    hide Valid, IsData, Remapped, FreedExactly, Replaced, Put, WithTable, Entry, HasTable, SamePage, Mappings, Pde;
    TableReady(m, u, d, v / NENTRY, t, f);
    EntryIn(u, d, v, t);
    Inserted(u, d, v, t, f, perm);
    WordFields(f, perm);
    RemappedAfter(m, u, Put(u, t, v % NENTRY, f, Word(f, perm)), d, v, Word(f, perm), f);
  }

  lemma MappedHasRef(m: Memory, d: nat, v: nat, f: nat)
    requires Valid(m) && Maps(m, d, v, f)
    ensures f < |m.ref| && m.ref[f] > 0
  {
    EntryInRange(m, d, v);
    assert (d, v) in Mappings(m, f);
  }
}
