/**
 Two-level page tables of any number of address spaces over one physical memory: each space's
 directory points to tables, whose entries map pages to frames. The meaning is a flat map from pages
 to entries, and every data frame counts the entries that name it.
 */
module PageTables {
  import opened Counting
  import opened MemLayout

  const NENTRY: nat := 1024
  const USERDIRS: nat := 704            // directory entries below USERTOP; those of the kernel are shared
  const NPAGES: nat := USERDIRS * NENTRY
  const PTE_P: nat := 1

  /** A frame seen as 1024 words. */
  type Frame = s: seq<nat> | |s| == NENTRY witness seq(NENTRY, _ => 0)

  function ZeroFrame(): Frame {
    seq(NENTRY, _ => 0)
  }

  predicate Present(w: nat) {
    w % 2 == PTE_P
  }

  function FrameOf(w: nat): nat {
    w / PGSIZE
  }

  /** The permission bits of an entry. */
  function BitsOf(w: nat): (bits: nat)
    ensures bits < PGSIZE
  {
    w % PGSIZE
  }

  /** frame address | PTE_P | perm */
  function Word(f: nat, perm: nat): nat
    requires perm < PGSIZE
  {
    f * PGSIZE + if Present(perm) then perm else perm + PTE_P
  }

  lemma WordParts(f: nat, low: nat)
    requires low < PGSIZE
    ensures var w := f * PGSIZE + low;
      w / PGSIZE == f && w % PGSIZE == low && w % 2 == low % 2
  {
    Parity(f * (PGSIZE / 2), low);
  }

  lemma Parity(half: nat, low: nat)
    ensures (half * 2 + low) % 2 == low % 2
  {
  }

  lemma WordFields(f: nat, perm: nat)
    requires perm < PGSIZE
    ensures Present(Word(f, perm)) && FrameOf(Word(f, perm)) == f && BitsOf(Word(f, perm)) / 2 == perm / 2
    ensures Present(perm) ==> BitsOf(Word(f, perm)) == perm
  {
    WordParts(f, if Present(perm) then perm else perm + PTE_P);
  }

  /** dirs are the directories of the address spaces; ref counts the references to each frame. */
  datatype Memory = Memory(mem: seq<Frame>, ref: seq<nat>, free: set<nat>, dirs: set<nat>)

  /** Entry i of the user part of directory d, or 0. */
  function Pde(m: Memory, d: nat, i: nat): nat {
    if d in m.dirs && d < |m.mem| && i < USERDIRS then m.mem[d][i] else 0
  }

  /** The entry of page v in address space d: 0 when its table is missing. */
  function Entry(m: Memory, d: nat, v: nat): nat {
    var pde := Pde(m, d, v / NENTRY);
    if Present(pde) && FrameOf(pde) < |m.mem| then m.mem[FrameOf(pde)][v % NENTRY] else 0
  }

  predicate HasTable(m: Memory, d: nat, i: nat, t: nat) {
    Present(Pde(m, d, i)) && FrameOf(Pde(m, d, i)) == t
  }

  /** A frame in use that is neither a directory nor a table. */
  ghost predicate IsData(m: Memory, f: nat) {
    f < |m.mem| && f !in m.free && f !in m.dirs && forall d: nat, i: nat :: !HasTable(m, d, i, f)
  }

  predicate Maps(m: Memory, d: nat, v: nat, f: nat) {
    Present(Entry(m, d, v)) && FrameOf(Entry(m, d, v)) == f
  }

  /** The pages, of all address spaces, that are mapped to frame f. */
  ghost function Mappings(m: Memory, f: nat): set<(nat, nat)> {
    set d: nat, v: nat | d in m.dirs && v < NPAGES && Maps(m, d, v, f) :: (d, v)
  }

  ghost predicate Shaped(m: Memory) {
    && |m.ref| == |m.mem|
    && (forall f :: f in m.free ==> f < |m.mem| == |m.ref| && f !in m.dirs && m.ref[f] == 0)
    && (forall d :: d in m.dirs ==> d < |m.mem|)
  }

  /** Tables are frames of their own, each in one place. */
  ghost predicate TablesOk(m: Memory) {
    && (forall d: nat, i: nat, t: nat :: HasTable(m, d, i, t) ==> t < |m.mem| && t !in m.free && t !in m.dirs && t < |m.ref| && m.ref[t] == 1)
    && (forall d: nat, i: nat, d': nat, i': nat, t: nat :: HasTable(m, d, i, t) && HasTable(m, d', i', t) ==> d == d' && i == i')
  }

  /** What is mapped is data, and data frames count their mappings. */
  ghost predicate CountsOk(m: Memory) {
    && (forall d: nat, v: nat, f: nat :: Maps(m, d, v, f) ==> IsData(m, f))
    && (forall f: nat :: IsData(m, f) && f < |m.ref| ==> m.ref[f] == |Mappings(m, f)|)
  }

  ghost predicate Valid(m: Memory) {
    Shaped(m) && TablesOk(m) && CountsOk(m)
  }

  // ----- Changing one entry -----

  /** The memory with entry v of space d set to w; its table must be there. */
  function WithEntry(m: Memory, d: nat, v: nat, w: nat): Memory
    requires FrameOf(Pde(m, d, v / NENTRY)) < |m.mem|
  {
    var t := FrameOf(Pde(m, d, v / NENTRY));
    m.(mem := m.mem[t := m.mem[t][v % NENTRY := w]])
  }

  /** Writing an entry changes that entry of the flat map and nothing else of it, and no table. */
  lemma {:induction false} EntryWritten(m: Memory, d: nat, v: nat, w: nat)
    requires Shaped(m) && TablesOk(m) && HasTable(m, d, v / NENTRY, FrameOf(Pde(m, d, v / NENTRY)))
    ensures FrameOf(Pde(m, d, v / NENTRY)) < |m.mem|
    ensures var m' := WithEntry(m, d, v, w);
      && (forall d': nat, i: nat :: Pde(m', d', i) == Pde(m, d', i))
      && (forall d': nat, v': nat :: Entry(m', d', v') == if d' == d && v' == v then w else Entry(m, d', v'))
  {
    var t := FrameOf(Pde(m, d, v / NENTRY));
    assert t !in m.dirs && t < |m.mem|;
    var m' := WithEntry(m, d, v, w);
    assert forall d': nat, i: nat :: Pde(m', d', i) == Pde(m, d', i);
    forall d': nat, v': nat
      ensures Entry(m', d', v') == if d' == d && v' == v then w else Entry(m, d', v')
    {
      var pde := Pde(m, d', v' / NENTRY);
      if Present(pde) && FrameOf(pde) == t {
        assert HasTable(m, d', v' / NENTRY, t);
        assert d' == d && v' / NENTRY == v / NENTRY;
        assert v' == v' / NENTRY * NENTRY + v' % NENTRY;
        assert v == v / NENTRY * NENTRY + v % NENTRY;
      }
    }
  }

  lemma {:induction false} EntryInRange(m: Memory, d: nat, v: nat)
    requires Entry(m, d, v) != 0
    ensures d in m.dirs && v < NPAGES
  {
  }

  /** What an entry's change does to the pages mapped to a frame. */
  lemma {:induction false} MappingsChanged(m: Memory, m': Memory, d: nat, v: nat, w: nat, f: nat)
    requires d in m.dirs && v < NPAGES && m'.dirs == m.dirs
    requires forall d': nat, v': nat :: Entry(m', d', v') == if d' == d && v' == v then w else Entry(m, d', v')
    ensures |Mappings(m', f)| == |Mappings(m, f)|
      - (if Maps(m, d, v, f) then 1 else 0) + (if Present(w) && FrameOf(w) == f then 1 else 0)
  {
    var rest := Mappings(m, f) - {(d, v)};
    assert Mappings(m, f) == if Maps(m, d, v, f) then rest + {(d, v)} else rest;
    assert Mappings(m', f) == if Present(w) && FrameOf(w) == f then rest + {(d, v)} else rest;
  }

  /** Setting entry v of space d to w: the references follow, and a frame without references is free. */
  function Replaced(m: Memory, d: nat, v: nat, w: nat): Memory
    requires FrameOf(Pde(m, d, v / NENTRY)) < |m.mem| == |m.ref|
    requires Present(Entry(m, d, v)) ==> FrameOf(Entry(m, d, v)) < |m.ref|
    requires Present(w) ==> FrameOf(w) < |m.ref|
  {
    var was := Entry(m, d, v);
    var up := if Present(w) then m.ref[FrameOf(w) := m.ref[FrameOf(w)] + 1] else m.ref;
    var p := FrameOf(was);
    var m' := WithEntry(m, d, v, w);
    if !Present(was) then m'.(ref := up)
    else if up[p] <= 1 then m'.(ref := up[p := 0], free := m.free + {p})
    else m'.(ref := up[p := up[p] - 1])
  }

  lemma {:induction false} ReplacedRef(m: Memory, d: nat, v: nat, w: nat, f: nat)
    requires Valid(m) && d in m.dirs && v < NPAGES && HasTable(m, d, v / NENTRY, FrameOf(Pde(m, d, v / NENTRY)))
    requires Present(w) ==> IsData(m, FrameOf(w))
    requires IsData(m, f)
    ensures FrameOf(Pde(m, d, v / NENTRY)) < |m.mem| == |m.ref|
    ensures Present(Entry(m, d, v)) ==> IsData(m, FrameOf(Entry(m, d, v)))
    ensures Replaced(m, d, v, w).ref[f] == m.ref[f] - B(Maps(m, d, v, f)) + B(Present(w) && FrameOf(w) == f)
    ensures f in Replaced(m, d, v, w).free <==> Maps(m, d, v, f) && Replaced(m, d, v, w).ref[f] == 0
  {
    if Present(Entry(m, d, v)) {
      assert Maps(m, d, v, FrameOf(Entry(m, d, v)));
    }
    if Maps(m, d, v, f) {
      assert (d, v) in Mappings(m, f);
      assert m.ref[f] == |Mappings(m, f)| > 0;
    }
  }

  lemma {:induction false} MappedIsData(m: Memory, d: nat, v: nat)
    requires Valid(m) && Present(Entry(m, d, v))
    ensures IsData(m, FrameOf(Entry(m, d, v))) && FrameOf(Entry(m, d, v)) < |m.mem|
  {
    assert Maps(m, d, v, FrameOf(Entry(m, d, v)));
  }

  lemma {:induction false} ReplacedEntries(m: Memory, d: nat, v: nat, w: nat)
    requires Valid(m) && HasTable(m, d, v / NENTRY, FrameOf(Pde(m, d, v / NENTRY)))
    requires Present(w) ==> IsData(m, FrameOf(w))
    requires Present(Entry(m, d, v)) ==> IsData(m, FrameOf(Entry(m, d, v)))
    ensures FrameOf(Pde(m, d, v / NENTRY)) < |m.mem| == |m.ref|
    ensures var m' := Replaced(m, d, v, w);
      && (forall d': nat, i: nat :: Pde(m', d', i) == Pde(m, d', i))
      && (forall d': nat, v': nat :: Entry(m', d', v') == if d' == d && v' == v then w else Entry(m, d', v'))
  {
    hide CountsOk;
    EntryWritten(m, d, v, w);
  }

  /** Only a data frame can lose its last reference here; tables and directories are as they were. */
  lemma {:induction false} ReplacedShape(m: Memory, d: nat, v: nat, w: nat)
    requires Valid(m) && d in m.dirs && v < NPAGES && HasTable(m, d, v / NENTRY, FrameOf(Pde(m, d, v / NENTRY)))
    requires Present(w) ==> IsData(m, FrameOf(w))
    ensures FrameOf(Pde(m, d, v / NENTRY)) < |m.mem| == |m.ref|
    ensures Present(Entry(m, d, v)) ==> IsData(m, FrameOf(Entry(m, d, v)))
    ensures var m' := Replaced(m, d, v, w);
      && Shaped(m') && TablesOk(m')
      && (forall d': nat, i: nat :: Pde(m', d', i) == Pde(m, d', i))
      && (forall d': nat, v': nat :: Entry(m', d', v') == if d' == d && v' == v then w else Entry(m, d', v'))
      && (forall f: nat :: IsData(m', f) <==> IsData(m, f) && f !in m'.free)
      && m'.free <= m.free + {FrameOf(Entry(m, d, v))} && m.free <= m'.free
  {
    hide CountsOk, Entry;
    if Present(Entry(m, d, v)) {
      MappedIsData(m, d, v);
    }
    ReplacedEntries(m, d, v, w);
    var m' := Replaced(m, d, v, w);
    assert forall d': nat, i: nat, t: nat :: HasTable(m', d', i, t) == HasTable(m, d', i, t);
  }

  /** Replacing an entry keeps everything, and frees a frame exactly if its last mapping went. */
  lemma {:induction false} ReplacedMeaning(m: Memory, d: nat, v: nat, w: nat)
    requires Valid(m) && d in m.dirs && v < NPAGES && HasTable(m, d, v / NENTRY, FrameOf(Pde(m, d, v / NENTRY)))
    requires Present(w) ==> IsData(m, FrameOf(w))
    ensures FrameOf(Pde(m, d, v / NENTRY)) < |m.mem| == |m.ref|
    ensures Present(Entry(m, d, v)) ==> FrameOf(Entry(m, d, v)) < |m.ref|
    ensures var m' := Replaced(m, d, v, w);
      && Valid(m')
      && (forall d': nat, v': nat :: Entry(m', d', v') == if d' == d && v' == v then w else Entry(m, d', v'))
      && (forall f: nat :: IsData(m, f) ==> (f in m'.free <==> Mappings(m, f) != {} && Mappings(m', f) == {}))
  {
    ReplacedShape(m, d, v, w);
    var m' := Replaced(m, d, v, w);
    forall f: nat | IsData(m, f)
      ensures m'.ref[f] == |Mappings(m', f)|
      ensures f in m'.free <==> Mappings(m, f) != {} && Mappings(m', f) == {}
    {
      ReplacedRef(m, d, v, w, f);
      MappingsChanged(m, m', d, v, w, f);
      if Maps(m, d, v, f) {
        assert (d, v) in Mappings(m, f);
      }
    }
    forall d': nat, v': nat, f: nat | Maps(m', d', v', f)
      ensures IsData(m', f)
    {
      ReplacedMapped(m, d, v, w, d', v', f);
    }
    hide Replaced, IsData, Entry;
  }

  lemma {:induction false} ReplacedMapped(m: Memory, d: nat, v: nat, w: nat, d': nat, v': nat, f: nat)
    requires Valid(m) && d in m.dirs && v < NPAGES && HasTable(m, d, v / NENTRY, FrameOf(Pde(m, d, v / NENTRY)))
    requires Present(w) ==> IsData(m, FrameOf(w))
    requires FrameOf(Pde(m, d, v / NENTRY)) < |m.mem| == |m.ref|
    requires Present(Entry(m, d, v)) ==> FrameOf(Entry(m, d, v)) < |m.ref|
    requires Maps(Replaced(m, d, v, w), d', v', f)
    ensures IsData(Replaced(m, d, v, w), f)
  {
    ReplacedShape(m, d, v, w);
    var m' := Replaced(m, d, v, w);
    assert IsData(m, f) by {
      if d' == d && v' == v {
      } else {
        assert Maps(m, d', v', f);
      }
    }
    ReplacedRef(m, d, v, w, f);
    MappingsChanged(m, m', d, v, w, f);
    EntryInRange(m', d', v');
    assert m'.dirs == m.dirs;
    assert (d', v') in Mappings(m', f);
    hide Replaced, Entry, IsData;
  }

  // ----- Adding a table -----

  /** get_pte with create: frame t becomes the cleared table of entry i of directory d. */
  function WithTable(m: Memory, d: nat, i: nat, t: nat): Memory
    requires d < |m.mem| && t < |m.mem| == |m.ref| && i < NENTRY
  {
    var mem := m.mem[t := ZeroFrame()];
    m.(mem := mem[d := mem[d][i := Word(t, 7)]], ref := m.ref[t := 1], free := m.free - {t})
  }

  /** A new table changes no page's entry and no mapping. */
  lemma {:induction false} TableAdded(m: Memory, d: nat, i: nat, t: nat)
    requires Valid(m) && d in m.dirs && i < USERDIRS && !Present(Pde(m, d, i)) && t in m.free
    ensures d < |m.mem| && t < |m.mem| == |m.ref|
    ensures var m' := WithTable(m, d, i, t);
      && Valid(m') && HasTable(m', d, i, t) && BitsOf(Pde(m', d, i)) == 7
      && (forall d': nat, j: nat :: !(d' == d && j == i) ==> Pde(m', d', j) == Pde(m, d', j))
      && (forall d': nat, v: nat :: Entry(m', d', v) == Entry(m, d', v))
      && (forall f: nat :: IsData(m', f) <==> IsData(m, f))
  {
    var m' := WithTable(m, d, i, t);
    TablesAdded(m, d, i, t);
    EntriesAdded(m, d, i, t);
    forall f: nat
      ensures IsData(m', f) <==> IsData(m, f)
    {
      if f == t {
        assert HasTable(m', d, i, t);
      }
    }
    forall f: nat | IsData(m, f)
      ensures Mappings(m', f) == Mappings(m, f) && f != t
    {
    }
    forall d': nat, v: nat, f: nat | Maps(m', d', v, f)
      ensures IsData(m', f)
    {
      assert Maps(m, d', v, f);
    }
    hide WithTable, IsData, Entry, TablesOk;
  }

  lemma {:induction false} TablesAdded(m: Memory, d: nat, i: nat, t: nat)
    requires Shaped(m) && TablesOk(m) && d in m.dirs && i < USERDIRS && !Present(Pde(m, d, i)) && t in m.free
    ensures var m' := WithTable(m, d, i, t);
      && Shaped(m') && TablesOk(m') && BitsOf(Pde(m', d, i)) == 7
      && (forall d': nat, j: nat :: !(d' == d && j == i) ==> Pde(m', d', j) == Pde(m, d', j))
      && (forall d': nat, j: nat, x: nat :: HasTable(m', d', j, x) <==> HasTable(m, d', j, x) || (d' == d && j == i && x == t))
  {
    WordFields(t, 7);
    var m' := WithTable(m, d, i, t);
    assert forall d': nat, j: nat :: Pde(m', d', j) == if d' == d && j == i then Word(t, 7) else Pde(m, d', j);
    forall d': nat, j: nat, x: nat
      ensures HasTable(m', d', j, x) <==> HasTable(m, d', j, x) || (d' == d && j == i && x == t)
    {
      assert Pde(m', d', j) == if d' == d && j == i then Word(t, 7) else Pde(m, d', j);
    }
    forall d': nat, j: nat, x: nat | HasTable(m, d', j, x)
      ensures x != t && x != d
    {
    }
    hide Pde, Word, Present, HasTable, FrameOf;
  }

  lemma {:induction false} EntriesAdded(m: Memory, d: nat, i: nat, t: nat)
    requires Shaped(m) && TablesOk(m) && d in m.dirs && i < USERDIRS && !Present(Pde(m, d, i)) && t in m.free
    ensures var m' := WithTable(m, d, i, t);
      forall d': nat, v: nat :: Entry(m', d', v) == Entry(m, d', v)
  {
    WordFields(t, 7);
    var m' := WithTable(m, d, i, t);
    forall d': nat, v: nat
      ensures Entry(m', d', v) == Entry(m, d', v)
    {
      var pde := Pde(m, d', v / NENTRY);
      if d' == d && v / NENTRY == i {
        assert Pde(m', d', i) == Word(t, 7);
      } else {
        assert Pde(m', d', v / NENTRY) == pde;
        if Present(pde) {
          assert HasTable(m, d', v / NENTRY, FrameOf(pde));
        }
      }
    }
  }

  // ----- Data frames -----

  /** alloc_page for data: the frame has no references yet. */
  lemma {:induction false} DataAllocated(m: Memory, f: nat)
    requires Valid(m) && f in m.free
    ensures f < |m.mem|
    ensures var m' := m.(free := m.free - {f});
      && Valid(m') && IsData(m', f) && Mappings(m', f) == {}
      && (forall d: nat, v: nat :: Entry(m', d, v) == Entry(m, d, v))
      && (forall x: nat :: IsData(m', x) <==> IsData(m, x) || x == f)
  {
    var m' := m.(free := m.free - {f});
    forall d: nat, v: nat
      ensures Entry(m', d, v) == Entry(m, d, v)
    {
      assert Pde(m', d, v / NENTRY) == Pde(m, d, v / NENTRY);
    }
    assert forall d: nat, i: nat, t: nat :: HasTable(m', d, i, t) == HasTable(m, d, i, t);
    assert forall d: nat, v: nat, x: nat :: Maps(m', d, v, x) == Maps(m, d, v, x);
    hide Entry, Pde, HasTable, Maps;
    assert forall x: nat :: IsData(m', x) <==> IsData(m, x) || x == f;
    assert forall d: nat, v: nat :: !Maps(m', d, v, f);
    assert forall x: nat :: Mappings(m', x) == Mappings(m, x);
    assert Mappings(m', f) == {};
    assert Shaped(m') && TablesOk(m');
    assert CountsOk(m');
  }

  /** Writing into a data frame changes no table and no mapping. */
  lemma {:induction false} DataWritten(m: Memory, f: nat, content: Frame)
    requires Valid(m) && IsData(m, f)
    ensures var m' := m.(mem := m.mem[f := content]);
      && Valid(m')
      && (forall d: nat, v: nat :: Entry(m', d, v) == Entry(m, d, v))
      && (forall x: nat :: IsData(m', x) <==> IsData(m, x))
      && (forall x: nat :: Mappings(m', x) == Mappings(m, x))
  {
    var m' := m.(mem := m.mem[f := content]);
    assert forall d: nat, i: nat :: Pde(m', d, i) == Pde(m, d, i);
    forall d: nat, v: nat
      ensures Entry(m', d, v) == Entry(m, d, v)
    {
      var pde := Pde(m, d, v / NENTRY);
      if Present(pde) {
        assert HasTable(m, d, v / NENTRY, FrameOf(pde));
      }
    }
    assert forall d: nat, i: nat, t: nat :: HasTable(m', d, i, t) == HasTable(m, d, i, t);
    hide Entry, Pde, HasTable;
    forall x: nat
      ensures Mappings(m', x) == Mappings(m, x)
    {
      assert forall d: nat, v: nat :: Maps(m', d, v, x) == Maps(m, d, v, x);
    }
    assert forall d: nat, v: nat, x: nat :: Maps(m', d, v, x) == Maps(m, d, v, x);
  }

  function FramesBelow(n: nat): (s: set<nat>)
    ensures forall f: nat :: f in s <==> 0 < f < n
  {
    if n <= 1 then {} else FramesBelow(n - 1) + {n - 1}
  }

  /** A memory of n frames with one empty address space in frame 0. */
  function Fresh(n: nat): Memory {
    Memory(seq(n, _ => ZeroFrame()), seq(n, _ => 0), FramesBelow(n), {0})
  }

  lemma {:induction false} FreshValid(n: nat)
    requires n > 0
    ensures Valid(Fresh(n))
  {
    var m := Fresh(n);
    assert forall d: nat, i: nat :: Pde(m, d, i) == 0;
    assert forall d: nat, v: nat :: Entry(m, d, v) == 0;
    forall f: nat | IsData(m, f)
      ensures Mappings(m, f) == {}
    {
    }
    hide Entry, Pde;
  }
}
