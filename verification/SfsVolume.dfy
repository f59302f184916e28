/**
 The Simple File System's volume: its blocks, the free map and the block maps of its inodes.
 Every block in use has exactly one owner, and the inodes' data blocks spell their contents.
 */
module SfsVolume {
  import opened Counting
  import opened SfsBlocks
  import opened Words

  const NDIRECT: nat := 12
  const MAXBLOCKS: nat := NDIRECT + NENTRY

  type Directs = s: seq<nat> | |s| == NDIRECT witness seq(NDIRECT, _ => 0)

  datatype Inode = Inode(size: nat, nlinks: nat, blocks: nat, direct: Directs, indirect: nat)

  /** meta are the superblock and the blocks of the free map; a set bit of `free` means free. */
  datatype Volume = Volume(disk: seq<Block>, free: seq<bool>, unused: int, meta: set<nat>, nodes: map<nat, Inode>)

  // ----- Who owns which block -----

  /** What a block can be in use for: an inode, its indirect block, or block k of its data. */
  datatype Slot = Node(ino: nat) | Table(ino: nat) | Data(ino: nat, k: nat)

  /** The number of block k, or 0 if there is none. */
  function MapAt(disk: seq<Block>, f: Inode, k: nat): nat {
    if k < NDIRECT then f.direct[k]
    else if k < MAXBLOCKS && 0 < f.indirect < |disk| then Entry(disk[f.indirect], k - NDIRECT)
    else 0
  }

  /** The block that is in use for s, or 0 if there is none. */
  function Place(v: Volume, s: Slot): nat {
    if s.ino !in v.nodes then 0
    else
      match s
      case Node(ino) => ino
      case Table(ino) => v.nodes[ino].indirect
      case Data(ino, k) => MapAt(v.disk, v.nodes[ino], k)
  }

  predicate InUse(v: Volume, b: nat) {
    b < |v.free| && !v.free[b]
  }

  ghost predicate Owned(v: Volume, b: nat) {
    exists s :: Place(v, s) == b
  }

  ghost predicate Shaped(v: Volume) {
    && |v.disk| == |v.free| <= WORD
    && v.unused == Count(v.free)
    && 0 in v.meta && (forall b :: b in v.meta ==> InUse(v, b))
    && 0 !in v.nodes
  }

  /** Blocks in use have one owner each, and there are no other blocks in use. */
  ghost predicate Conserved(v: Volume) {
    && Shaped(v)
    && (forall s :: Place(v, s) != 0 ==> InUse(v, Place(v, s)) && Place(v, s) !in v.meta)
    && (forall s, t :: Place(v, s) != 0 && Place(v, s) == Place(v, t) ==> s == t)
    && (forall b :: InUse(v, b) && b !in v.meta ==> Owned(v, b))
  }

  /** Exactly the first `blocks` entries of every block map are filled. */
  ghost predicate Filled(v: Volume) {
    forall ino :: ino in v.nodes ==>
      && v.nodes[ino].blocks <= MAXBLOCKS
      && forall k: nat :: Place(v, Data(ino, k)) != 0 <==> k < v.nodes[ino].blocks
  }

  ghost predicate Valid(v: Volume) {
    Conserved(v) && Filled(v)
  }

  lemma PlaceInUse(v: Volume, s: Slot)
    requires Conserved(v) && Place(v, s) != 0
    ensures InUse(v, Place(v, s)) && Place(v, s) !in v.meta && Place(v, s) < |v.disk|
  {
  }

  lemma NoSharing(v: Volume, s: Slot, t: Slot)
    requires Conserved(v) && Place(v, s) != 0 && Place(v, s) == Place(v, t)
    ensures s == t
  {
  }

  // ----- Taking and giving back one block -----

  /** Slot s took the free block b, and nothing else changed hands. */
  lemma {:induction false} TakeKeeps(v: Volume, w: Volume, s: Slot, b: nat)
    requires Conserved(v)
    requires b < |v.free| && v.free[b] && w.free == v.free[b := false] && w.unused == v.unused - 1
    requires |w.disk| == |v.disk| && w.meta == v.meta && w.nodes.Keys == v.nodes.Keys
    requires Place(v, s) == 0 && Place(w, s) == b
    requires forall t :: t != s ==> Place(w, t) == Place(v, t)
    ensures Conserved(w)
  {
    CountUpdate(v.free, b, false);
    assert b != 0 && b !in v.meta;
    forall t | Place(w, t) != 0
      ensures InUse(w, Place(w, t)) && Place(w, t) !in w.meta
    {
      if t != s { PlaceInUse(v, t); }
    }
    forall t, u | Place(w, t) != 0 && Place(w, t) == Place(w, u)
      ensures t == u
    {
      if t != s { PlaceInUse(v, t); }
      if u != s { PlaceInUse(v, u); }
    }
    forall c | InUse(w, c) && c !in w.meta
      ensures Owned(w, c)
    {
      if c == b {
        assert Place(w, s) == c;
      } else {
        assert InUse(v, c);
        var t :| Place(v, t) == c;
        assert Place(w, t) == c;
      }
    }
  }

  /** Slot s gave back its block, and nothing else changed hands. */
  lemma {:induction false} GiveKeeps(v: Volume, w: Volume, s: Slot)
    requires Conserved(v) && Place(v, s) != 0 && Place(v, s) < |v.free|
    requires w.free == v.free[Place(v, s) := true] && w.unused == v.unused + 1
    requires |w.disk| == |v.disk| && w.meta == v.meta && w.nodes.Keys <= v.nodes.Keys
    requires Place(w, s) == 0
    requires forall t :: t != s ==> Place(w, t) == Place(v, t)
    ensures Conserved(w)
  {
    var b := Place(v, s);
    CountUpdate(v.free, b, true);
    PlaceInUse(v, s);
    forall t | Place(w, t) != 0
      ensures InUse(w, Place(w, t)) && Place(w, t) !in w.meta
    {
      PlaceInUse(v, t);
      if Place(v, t) == b { NoSharing(v, s, t); }
    }
    forall t, u | Place(w, t) != 0 && Place(w, t) == Place(w, u)
      ensures t == u
    {
      NoSharing(v, t, u);
    }
    forall c | InUse(w, c) && c !in w.meta
      ensures Owned(w, c)
    {
      assert InUse(v, c);
      var t :| Place(v, t) == c;
      assert Place(w, t) == c;
    }
  }

  /** Only the contents of blocks changed, and no block changed hands. */
  lemma {:induction false} SameKeeps(v: Volume, w: Volume)
    requires Conserved(v)
    requires w.free == v.free && w.unused == v.unused && w.meta == v.meta
    requires |w.disk| == |v.disk| && w.nodes.Keys == v.nodes.Keys
    requires forall t :: Place(w, t) == Place(v, t)
    ensures Conserved(w)
  {
    forall c | InUse(w, c) && c !in w.meta
      ensures Owned(w, c)
    {
      assert InUse(v, c);
      var t :| Place(v, t) == c;
      assert Place(w, t) == c;
    }
  }

  // ----- The operations on one block -----

  /** The lowest free block, or the number of blocks if there is none. */
  function Lowest(free: seq<bool>): (b: nat)
    ensures b <= |free|
    ensures b < |free| ==> free[b]
    ensures forall i :: 0 <= i < b ==> !free[i]
  {
    if free == [] || free[0] then 0 else 1 + Lowest(free[1..])
  }

  /** sfs_block_alloc: the lowest free block is taken and cleared. */
  function Allocated(v: Volume): Volume
    requires |v.disk| == |v.free| && Lowest(v.free) < |v.free|
  {
    var b := Lowest(v.free);
    v.(free := v.free[b := false], unused := v.unused - 1, disk := v.disk[b := Zeros(BLKSIZE)])
  }

  /** sfs_block_free */
  function Released(v: Volume, b: nat): Volume
    requires b < |v.free|
  {
    v.(free := v.free[b := true], unused := v.unused + 1)
  }

  function WithNode(v: Volume, ino: nat, f: Inode): Volume {
    v.(nodes := v.nodes[ino := f])
  }

  function WithEntry(v: Volume, b: nat, j: nat, n: nat): Volume
    requires b < |v.disk| && j < NENTRY && n < WORD
  {
    v.(disk := v.disk[b := PutEntry(v.disk[b], j, n)])
  }

  /** How many blocks the next block of a file costs: its first indirect one also needs the indirect block. */
  function Cost(f: Inode): nat {
    if f.blocks >= NDIRECT && f.indirect == 0 then 2 else 1
  }

  /**
   Filling the empty entry j of the indirect block ent, or of a new one if ent is 0, as
   sfs_bmap_get_sub_nolock does: the volume, the indirect block and the block for the entry.
   */
  function SubGrown(v: Volume, ent: nat, j: nat): (bool, Volume, nat, nat)
    requires |v.disk| == |v.free| <= WORD && ent < |v.disk| && j < NENTRY
  {
    var b := Lowest(v.free);
    if b == |v.free| then (false, v, ent, 0)
    else if ent != 0 then (true, WithEntry(Allocated(v), ent, j, b), ent, b)
    else
      var w := Allocated(v);
      var c := Lowest(w.free);
      if c == |w.free| then (false, Released(w, b), ent, 0)
      else (true, WithEntry(Allocated(w), b, j, c), b, c)
  }

  lemma TableInUse(v: Volume, ino: nat)
    requires Conserved(v) && ino in v.nodes
    ensures v.nodes[ino].indirect < |v.disk| == |v.free| <= WORD
    ensures v.nodes[ino].indirect != 0 ==> InUse(v, v.nodes[ino].indirect)
  {
    assert Place(v, Table(ino)) == v.nodes[ino].indirect;
  }

  /** Adding a block at the end of a file, as sfs_bmap_load_nolock does at index `blocks`. */
  ghost function Grown(v: Volume, ino: nat): (r: (bool, Volume))
    requires Conserved(v) && ino in v.nodes && v.nodes[ino].blocks < MAXBLOCKS
  {
    var f, b := v.nodes[ino], Lowest(v.free);
    var k := f.blocks;
    if b == |v.free| then (false, v)
    else if k < NDIRECT then
      (true, WithNode(Allocated(v), ino, f.(direct := f.direct[k := b], blocks := k + 1)))
    else
      TableInUse(v, ino);
      var (ok, w, ent, _) := SubGrown(v, f.indirect, k - NDIRECT);
      (ok, if ok then WithNode(w, ino, f.(indirect := ent, blocks := k + 1)) else w)
  }

  /** Dropping the last block of a file, as sfs_bmap_truncate_nolock does. */
  ghost function Shrunk(v: Volume, ino: nat): Volume
    requires Valid(v) && ino in v.nodes && v.nodes[ino].blocks > 0
  {
    var f := v.nodes[ino];
    var k := f.blocks - 1;
    var b := Place(v, Data(ino, k));
    PlaceInUse(v, Data(ino, k));
    if k < NDIRECT then
      WithNode(Released(v, b), ino, f.(direct := f.direct[k := 0], blocks := k))
    else
      WithNode(WithEntry(Released(v, b), f.indirect, k - NDIRECT, 0), ino, f.(blocks := k))
  }

  // ----- Contents -----

  /** Byte p of a file's blocks. */
  function ByteAt(v: Volume, ino: nat, p: nat): Byte {
    var b := Place(v, Data(ino, p / BLKSIZE));
    if b < |v.disk| then v.disk[b][p % BLKSIZE] else 0
  }

  /** All the bytes that a file's blocks hold; the file itself is the first `size` of them. */
  function Contents(v: Volume, ino: nat): (s: seq<Byte>)
    requires ino in v.nodes
    ensures |s| == v.nodes[ino].blocks * BLKSIZE
  {
    seq(v.nodes[ino].blocks * BLKSIZE, (p: nat) => ByteAt(v, ino, p))
  }

  /** The other inodes and what their blocks hold are the same. */
  ghost predicate OthersKept(v: Volume, w: Volume, ino: nat) {
    && w.nodes.Keys == v.nodes.Keys && w.meta == v.meta
    && forall i :: i in v.nodes && i != ino ==> w.nodes[i] == v.nodes[i] && Contents(w, i) == Contents(v, i)
  }

  /** The first n data blocks of a file are where they were, with the same bytes. */
  ghost predicate BlocksKept(v: Volume, w: Volume, ino: nat, n: nat) {
    forall k :: 0 <= k < n ==>
      && Place(w, Data(ino, k)) == Place(v, Data(ino, k)) < |v.disk| == |w.disk|
      && w.disk[Place(v, Data(ino, k))] == v.disk[Place(v, Data(ino, k))]
  }

  lemma {:induction false} SameContents(v: Volume, w: Volume, ino: nat)
    requires ino in v.nodes && ino in w.nodes && w.nodes[ino].blocks == v.nodes[ino].blocks
    requires BlocksKept(v, w, ino, v.nodes[ino].blocks)
    ensures Contents(w, ino) == Contents(v, ino)
  {
    hide Place;
    forall p | 0 <= p < v.nodes[ino].blocks * BLKSIZE
      ensures ByteAt(w, ino, p) == ByteAt(v, ino, p)
    {
      assert p / BLKSIZE < v.nodes[ino].blocks;
    }
  }

  // ----- What the operations do to the block maps -----

  /** Every data block is where it was, with the same bytes. */
  ghost predicate DataKept(v: Volume, w: Volume) {
    forall t: Slot :: t.Data? && Place(v, t) != 0 ==>
      Place(w, t) == Place(v, t) < |v.disk| == |w.disk| && w.disk[Place(v, t)] == v.disk[Place(v, t)]
  }

  lemma NotFreeTables(v: Volume, b: nat)
    requires Conserved(v) && b < |v.free| && v.free[b]
    ensures forall ino :: ino in v.nodes ==> v.nodes[ino].indirect != b
    ensures b != 0
  {
    forall ino | ino in v.nodes
      ensures v.nodes[ino].indirect != b
    {
      assert Place(v, Table(ino)) == v.nodes[ino].indirect;
    }
  }

  /** Clearing the block that is allocated changes nobody's block map. */
  lemma {:induction false} AllocatedPlaces(v: Volume)
    requires Conserved(v) && Lowest(v.free) < |v.free|
    ensures forall t :: Place(Allocated(v), t) == Place(v, t)
  {
    NotFreeTables(v, Lowest(v.free));
  }

  /** Writing entry j of an inode's indirect block sets its block NDIRECT + j and no other one. */
  lemma {:induction false} EntryPlaces(v: Volume, ino: nat, j: nat, n: nat)
    requires ino in v.nodes && 0 < v.nodes[ino].indirect < |v.disk| && j < NENTRY && n < WORD
    requires forall i :: i in v.nodes && i != ino ==> v.nodes[i].indirect != v.nodes[ino].indirect
    ensures var w := WithEntry(v, v.nodes[ino].indirect, j, n);
      && Place(w, Data(ino, NDIRECT + j)) == n
      && forall t :: t != Data(ino, NDIRECT + j) ==> Place(w, t) == Place(v, t)
  {
    hide Entry, PutEntry;
    var e := v.nodes[ino].indirect;
    var w := WithEntry(v, e, j, n);
    forall i | 0 <= i < NENTRY
      ensures Entry(w.disk[e], i) == if i == j then n else Entry(v.disk[e], i)
    {
      EntryOfPut(v.disk[e], j, n, i);
    }
  }

  lemma TablesApart(v: Volume, ino: nat)
    requires Conserved(v) && ino in v.nodes && v.nodes[ino].indirect != 0
    ensures 0 < v.nodes[ino].indirect < |v.disk|
    ensures forall i :: i in v.nodes && i != ino ==> v.nodes[i].indirect != v.nodes[ino].indirect
  {
    PlaceInUse(v, Table(ino));
    forall i | i in v.nodes && i != ino
      ensures v.nodes[i].indirect != v.nodes[ino].indirect
    {
      if v.nodes[i].indirect == v.nodes[ino].indirect {
        assert Place(v, Table(i)) == Place(v, Table(ino));
        NoSharing(v, Table(ino), Table(i));
      }
    }
  }

  /** The data blocks after a change to blocks that hold no data. */
  lemma {:induction false} DataKeptWhen(v: Volume, w: Volume, x: nat, y: nat)
    requires Conserved(v) && |w.disk| == |v.disk|
    requires forall t: Slot :: t.Data? && Place(v, t) != 0 ==> Place(w, t) == Place(v, t)
    requires forall z :: 0 <= z < |v.disk| && z != x && z != y ==> w.disk[z] == v.disk[z]
    requires forall z :: z in {x, y} && z < |v.free| && z != 0 ==> v.free[z] || exists i :: Place(v, Table(i)) == z
    ensures DataKept(v, w)
  {
    forall t: Slot | t.Data? && Place(v, t) != 0
      ensures Place(v, t) < |v.disk| && w.disk[Place(v, t)] == v.disk[Place(v, t)]
    {
      PlaceInUse(v, t);
      var z := Place(v, t);
      if z in {x, y} {
        var i :| Place(v, Table(i)) == z;
        NoSharing(v, t, Table(i));
      }
    }
  }

  // ----- Growing a file by one block -----

  /** w is v with a cleared block at the end of file ino. */
  ghost predicate GrewBy(v: Volume, w: Volume, ino: nat) {
    && ino in v.nodes && w.meta == v.meta && DataKept(v, w)
    && var k := v.nodes[ino].blocks;
       && ino in w.nodes && w.nodes == v.nodes[ino := w.nodes[ino]]
       && w.nodes[ino].blocks == k + 1
       && (w.nodes[ino].indirect == 0 <==> v.nodes[ino].indirect == 0 && k < NDIRECT)
       && w.nodes[ino].size == v.nodes[ino].size && w.nodes[ino].nlinks == v.nodes[ino].nlinks
       && 0 < Place(w, Data(ino, k)) < |w.disk| && w.disk[Place(w, Data(ino, k))] == Zeros(BLKSIZE)
       && forall t: Slot :: t.Data? && t != Data(ino, k) ==> Place(w, t) == Place(v, t)
  }

  lemma {:induction false} GrownDirect(v: Volume, ino: nat)
    requires Conserved(v) && ino in v.nodes && v.nodes[ino].blocks < NDIRECT
    requires Place(v, Data(ino, v.nodes[ino].blocks)) == 0
    requires Lowest(v.free) < |v.free|
    ensures var w := Grown(v, ino).1; Conserved(w) && GrewBy(v, w, ino)
  {
    var f, b, a, w := v.nodes[ino], Lowest(v.free), Allocated(v), Grown(v, ino).1;
    NotFreeTables(v, b);
    AllocatedPlaces(v);
    forall t | t != Data(ino, f.blocks)
      ensures Place(w, t) == Place(a, t)
    {
    }
    TakeKeeps(v, w, Data(ino, f.blocks), b);
    DataKeptWhen(v, w, b, b);
  }

  lemma {:induction false} GrownEntry(v: Volume, ino: nat)
    requires Conserved(v) && ino in v.nodes && NDIRECT <= v.nodes[ino].blocks < MAXBLOCKS
    requires v.nodes[ino].indirect != 0
    requires Place(v, Data(ino, v.nodes[ino].blocks)) == 0
    requires Lowest(v.free) < |v.free|
    ensures var w := Grown(v, ino).1; Conserved(w) && GrewBy(v, w, ino)
  {
    var f, b, a, w := v.nodes[ino], Lowest(v.free), Allocated(v), Grown(v, ino).1;
    NotFreeTables(v, b);
    AllocatedPlaces(v);
    TablesApart(v, ino);
    EntryPlaces(a, ino, f.blocks - NDIRECT, b);
    var e := WithEntry(a, f.indirect, f.blocks - NDIRECT, b);
    TakeKeeps(v, w, Data(ino, f.blocks), b);
    assert Place(v, Table(ino)) == f.indirect;
    DataKeptWhen(v, w, b, f.indirect);
  }

  /** The volume once a file without an indirect block got an empty one. */
  function Tabled(v: Volume, ino: nat): Volume
    requires ino in v.nodes && |v.disk| == |v.free| && Lowest(v.free) < |v.free|
  {
    WithNode(Allocated(v), ino, v.nodes[ino].(indirect := Lowest(v.free)))
  }

  lemma {:induction false} TabledKeeps(v: Volume, ino: nat)
    requires Conserved(v) && ino in v.nodes && v.nodes[ino].indirect == 0
    requires Lowest(v.free) < |v.free|
    ensures var w := Tabled(v, ino);
      && Conserved(w) && DataKept(v, w)
      && forall t: Slot :: t.Data? ==> Place(w, t) == Place(v, t)
  {
    var b, w := Lowest(v.free), Tabled(v, ino);
    NotFreeTables(v, b);
    AllocatedPlaces(v);
    forall k | NDIRECT <= k < MAXBLOCKS
      ensures Place(w, Data(ino, k)) == 0
    {
    }
    TakeKeeps(v, w, Table(ino), b);
    DataKeptWhen(v, w, b, b);
  }

  lemma {:induction false} GrownTable(v: Volume, ino: nat)
    requires Conserved(v) && ino in v.nodes && NDIRECT <= v.nodes[ino].blocks < MAXBLOCKS
    requires v.nodes[ino].indirect == 0 && Lowest(v.free) < |v.free|
    requires Place(v, Data(ino, v.nodes[ino].blocks)) == 0
    requires Lowest(Tabled(v, ino).free) < |v.free|
    ensures var w := Grown(v, ino).1; Conserved(w) && GrewBy(v, w, ino)
  {
    hide Place, Conserved, GrewBy, DataKept;
    TableInUse(v, ino);
    NotFreeTables(v, Lowest(v.free));
    var u, w := Tabled(v, ino), Grown(v, ino).1;
    TabledKeeps(v, ino);
    TableInUse(u, ino);
    assert w == Grown(u, ino).1;
    GrownEntry(u, ino);
    GrewAfterTable(v, u, w, ino);
  }

  lemma {:induction false} GrewAfterTable(v: Volume, u: Volume, w: Volume, ino: nat)
    requires ino in v.nodes && u.meta == v.meta && DataKept(v, u) && GrewBy(u, w, ino)
    requires v.nodes[ino].blocks >= NDIRECT
    requires exists b :: u.nodes == v.nodes[ino := v.nodes[ino].(indirect := b)]
    requires forall t: Slot :: t.Data? ==> Place(u, t) == Place(v, t)
    ensures GrewBy(v, w, ino)
  {
    hide Place;
  }

  /** The block taken for the indirect block goes back when there is none left for the data. */
  lemma {:induction false} GrownFails(v: Volume, ino: nat)
    requires Conserved(v) && ino in v.nodes && v.nodes[ino].blocks < MAXBLOCKS
    requires !Grown(v, ino).0
    ensures var w := Grown(v, ino).1;
      && Conserved(w) && DataKept(v, w)
      && w.nodes == v.nodes && w.free == v.free && w.unused == v.unused && w.meta == v.meta
      && forall t :: Place(w, t) == Place(v, t)
  {
    var w := Grown(v, ino).1;
    if Lowest(v.free) < |v.free| {
      assert w.free == v.free;
      AllocatedPlaces(v);
      SameKeeps(v, w);
      DataKeptWhen(v, w, Lowest(v.free), Lowest(v.free));
    } else {
      DataKeptWhen(v, w, 0, 0);
    }
  }

  lemma {:induction false} GrownWhen(v: Volume, ino: nat)
    requires Conserved(v) && ino in v.nodes && v.nodes[ino].blocks < MAXBLOCKS
    ensures var (ok, w) := Grown(v, ino);
      && (ok <==> v.unused >= Cost(v.nodes[ino]))
      && (ok ==> w.unused == v.unused - Cost(v.nodes[ino]))
  {
    LowestCounts(v.free);
    if Lowest(v.free) < |v.free| {
      CountUpdate(v.free, Lowest(v.free), false);
      LowestCounts(Allocated(v).free);
    }
  }

  lemma {:induction false} GrewFilled(v: Volume, w: Volume, ino: nat)
    requires Filled(v) && GrewBy(v, w, ino) && v.nodes[ino].blocks < MAXBLOCKS
    ensures Filled(w)
  {
    hide Place;
  }

  lemma {:induction false} SameFilled(v: Volume, w: Volume)
    requires Filled(v) && w.nodes == v.nodes && forall t :: Place(w, t) == Place(v, t)
    ensures Filled(w)
  {
    hide Place;
  }

  /** Adding a block works exactly when its cost is free, and it adds a cleared block; failing, it changes no block in use. */
  lemma {:induction false} GrownMeaning(v: Volume, ino: nat)
    requires Valid(v) && ino in v.nodes && v.nodes[ino].blocks < MAXBLOCKS
    ensures var (ok, w) := Grown(v, ino);
      && Valid(w)
      && (ok <==> v.unused >= Cost(v.nodes[ino]))
      && (ok ==> GrewBy(v, w, ino) && w.unused == v.unused - Cost(v.nodes[ino]))
      && (!ok ==> w.nodes == v.nodes && w.free == v.free && w.unused == v.unused && w.meta == v.meta && DataKept(v, w))
  {
    hide Place, Conserved, GrewBy, DataKept;
    var f := v.nodes[ino];
    var (ok, w) := Grown(v, ino);
    GrownWhen(v, ino);
    if !ok {
      GrownFails(v, ino);
      SameFilled(v, w);
    } else {
      assert Place(v, Data(ino, f.blocks)) == 0;
      if f.blocks < NDIRECT {
        GrownDirect(v, ino);
      } else if f.indirect != 0 {
        GrownEntry(v, ino);
      } else {
        GrownTable(v, ino);
      }
      GrewFilled(v, w, ino);
    }
  }

  /** Adding blocks to a file until it has n of them or there is no room, as sfs_truncfile does. */
  ghost function Enlarged(v: Volume, ino: nat, n: nat): (r: (bool, Volume))
    requires Valid(v) && ino in v.nodes && n <= MAXBLOCKS
    decreases if ino in v.nodes then n - v.nodes[ino].blocks else 0
  {
    if n <= v.nodes[ino].blocks then (true, v)
    else
      GrownMeaning(v, ino);
      var (ok, w) := Grown(v, ino);
      if ok then Enlarged(w, ino, n) else (false, w)
  }

  /** How many blocks it costs to give a file n blocks. */
  function Spent(f: Inode, n: nat): nat {
    if n <= f.blocks then 0 else n - f.blocks + if f.indirect == 0 && n > NDIRECT then 1 else 0
  }

  lemma TableWhenBig(v: Volume, ino: nat)
    requires Valid(v) && ino in v.nodes
    ensures v.nodes[ino].blocks > NDIRECT ==> v.nodes[ino].indirect != 0
  {
    assert v.nodes[ino].blocks > NDIRECT ==> Place(v, Data(ino, NDIRECT)) != 0;
  }

  /** Growing by one block takes its cost off what is still to be spent. */
  lemma {:induction false} SpentNext(v: Volume, w: Volume, ino: nat, n: nat)
    requires Valid(v) && GrewBy(v, w, ino) && v.nodes[ino].blocks < n
    ensures Spent(v.nodes[ino], n) == Cost(v.nodes[ino]) + Spent(w.nodes[ino], n)
  {
    TableWhenBig(v, ino);
    hide Valid, Place, DataKept;
  }

  /**
   A file can be enlarged exactly if the whole cost is free, which is then spent; otherwise it is left with fewer
   blocks than asked for, and with more than it had exactly if the cost of the first was free.
   */
  lemma {:induction false} EnlargedMeaning(v: Volume, ino: nat, n: nat)
    requires Valid(v) && ino in v.nodes && n <= MAXBLOCKS
    ensures var (ok, w) := Enlarged(v, ino, n);
      var f, need := v.nodes[ino], Spent(v.nodes[ino], n);
      && Valid(w) && ino in w.nodes && w.nodes[ino].size == f.size
      && (ok <==> v.unused >= need)
      && (if ok then w.nodes[ino].blocks == (if n <= f.blocks then f.blocks else n) && w.unused == v.unused - need
          else f.blocks <= w.nodes[ino].blocks < n && w.unused < Cost(w.nodes[ino]))
      && (w.nodes[ino].blocks > f.blocks <==> n > f.blocks && v.unused >= Cost(f))
    decreases n - v.nodes[ino].blocks
  {
    hide Conserved, Filled, Place, GrewBy, Grown;
    UnusedCounts(v);
    if n > v.nodes[ino].blocks {
      GrownMeaning(v, ino);
      var (ok, w) := Grown(v, ino);
      if ok {
        GrewNodes(v, w, ino);
        SpentNext(v, w, ino, n);
        EnlargedMeaning(w, ino, n);
      }
    }
  }

  lemma GrewNodes(v: Volume, w: Volume, ino: nat)
    requires GrewBy(v, w, ino)
    ensures ino in v.nodes && ino in w.nodes
    ensures w.nodes[ino].size == v.nodes[ino].size && w.nodes[ino].blocks == v.nodes[ino].blocks + 1
  {
  }

  lemma UnusedCounts(v: Volume)
    requires Valid(v)
    ensures v.unused == Count(v.free) >= 0
  {
  }

  lemma {:induction false} LowestCounts(free: seq<bool>)
    ensures Lowest(free) < |free| <==> Count(free) > 0
  {
    if Lowest(free) < |free| {
      CountMember(free, Lowest(free));
    } else {
      CountNone(free);
    }
  }

  // ----- What the operations do to contents -----

  /** When no data moved and no block map changed, every file holds what it held. */
  lemma {:induction false} ContentsKept(v: Volume, w: Volume, ino: nat)
    requires Filled(v) && DataKept(v, w)
    requires ino in v.nodes && ino in w.nodes && w.nodes[ino].blocks == v.nodes[ino].blocks
    ensures Contents(w, ino) == Contents(v, ino)
  {
    hide Place, Contents;
    forall k | 0 <= k < v.nodes[ino].blocks
      ensures Place(w, Data(ino, k)) == Place(v, Data(ino, k)) < |v.disk| == |w.disk|
      ensures w.disk[Place(v, Data(ino, k))] == v.disk[Place(v, Data(ino, k))]
    {
      var t := Data(ino, k);
      assert Place(v, t) != 0;
    }
    assert BlocksKept(v, w, ino, v.nodes[ino].blocks);
    SameContents(v, w, ino);
  }

  /** A grown file holds its old bytes and one block of zeros, and the other files hold theirs. */
  lemma {:induction false} GrewContents(v: Volume, w: Volume, ino: nat)
    requires Filled(v) && GrewBy(v, w, ino)
    ensures Contents(w, ino) == Contents(v, ino) + Zeros(BLKSIZE)
    ensures OthersKept(v, w, ino)
  {
    hide Place;
    var n := v.nodes[ino].blocks * BLKSIZE;
    forall p | 0 <= p < n + BLKSIZE
      ensures Contents(w, ino)[p] == (Contents(v, ino) + Zeros(BLKSIZE))[p]
    {
      if p >= n {
        assert p / BLKSIZE == v.nodes[ino].blocks;
      }
    }
    forall i | i in v.nodes && i != ino
      ensures Contents(w, i) == Contents(v, i)
    {
      ContentsKept(v, w, i);
    }
  }

  // ----- Shrinking -----

  /** w is v without the last block of file ino. */
  ghost predicate ShrankBy(v: Volume, w: Volume, ino: nat) {
    && ino in v.nodes && v.nodes[ino].blocks > 0 && w.meta == v.meta && |w.disk| == |v.disk|
    && var k := v.nodes[ino].blocks - 1;
       && ino in w.nodes && w.nodes == v.nodes[ino := w.nodes[ino]]
       && w.nodes[ino].blocks == k
       && w.nodes[ino].size == v.nodes[ino].size && w.nodes[ino].nlinks == v.nodes[ino].nlinks
       && w.nodes[ino].indirect == v.nodes[ino].indirect
       && Place(w, Data(ino, k)) == 0
       && forall t: Slot :: t != Data(ino, k) ==> Place(w, t) == Place(v, t)
  }

  lemma {:induction false} ShrunkPlaces(v: Volume, ino: nat)
    requires Valid(v) && ino in v.nodes && v.nodes[ino].blocks > 0
    ensures ShrankBy(v, Shrunk(v, ino), ino)
  {
    var f := v.nodes[ino];
    var k := f.blocks - 1;
    PlaceInUse(v, Data(ino, k));
    if k >= NDIRECT {
      TablesApart(v, ino);
      EntryPlaces(v, ino, k - NDIRECT, 0);
    }
  }

  lemma {:induction false} ShrankFilled(v: Volume, w: Volume, ino: nat)
    requires Filled(v) && ShrankBy(v, w, ino)
    ensures Filled(w)
  {
    hide Place;
  }

  /** The blocks of data, but for the last block of file ino, are where they were with the same bytes. */
  lemma {:induction false} ShrunkData(v: Volume, ino: nat, t: Slot)
    requires Valid(v) && ino in v.nodes && v.nodes[ino].blocks > 0
    requires t.Data? && Place(v, t) != 0 && t != Data(ino, v.nodes[ino].blocks - 1)
    ensures var w := Shrunk(v, ino);
      Place(w, t) == Place(v, t) < |v.disk| == |w.disk| && w.disk[Place(v, t)] == v.disk[Place(v, t)]
  {
    ShrunkPlaces(v, ino);
    PlaceInUse(v, t);
    if Place(v, t) == v.nodes[ino].indirect {
      assert Place(v, Table(ino)) == v.nodes[ino].indirect;
      NoSharing(v, t, Table(ino));
    }
    hide Place, Conserved, Filled, ShrankBy;
  }

  /** Dropping the last block cuts it off the contents and gives back one block. */
  lemma {:induction false} ShrunkMeaning(v: Volume, ino: nat)
    requires Valid(v) && ino in v.nodes && v.nodes[ino].blocks > 0
    ensures var w := Shrunk(v, ino);
      && Valid(w) && ShrankBy(v, w, ino) && OthersKept(v, w, ino)
      && Contents(w, ino) == Contents(v, ino)[..(v.nodes[ino].blocks - 1) * BLKSIZE]
      && w.unused == v.unused + 1
  {
    var k, w := v.nodes[ino].blocks - 1, Shrunk(v, ino);
    ShrunkPlaces(v, ino);
    ShrankFilled(v, w, ino);
    PlaceInUse(v, Data(ino, k));
    GiveKeeps(v, w, Data(ino, k));
    ShrunkContents(v, ino);
    hide Place, Conserved, Filled, ShrankBy;
  }

  lemma {:induction false} ShrunkContents(v: Volume, ino: nat)
    requires Valid(v) && ino in v.nodes && v.nodes[ino].blocks > 0
    ensures var w := Shrunk(v, ino);
      && OthersKept(v, w, ino) && w.nodes[ino].blocks == v.nodes[ino].blocks - 1
      && Contents(w, ino) == Contents(v, ino)[..(v.nodes[ino].blocks - 1) * BLKSIZE]
  {
    hide Place, Conserved;
    var n, w := (v.nodes[ino].blocks - 1) * BLKSIZE, Shrunk(v, ino);
    ShrunkPlaces(v, ino);
    hide Shrunk;
    forall p | 0 <= p < n
      ensures Contents(w, ino)[p] == Contents(v, ino)[p]
    {
      ShrunkData(v, ino, Data(ino, p / BLKSIZE));
    }
    forall i | i in v.nodes && i != ino
      ensures Contents(w, i) == Contents(v, i)
    {
      forall k | 0 <= k < v.nodes[i].blocks { ShrunkData(v, ino, Data(i, k)); }
      SameContents(v, w, i);
    }
  }

  // ----- Writing into a block -----

  function Patched(v: Volume, b: nat, at: nat, data: seq<Byte>): Volume
    requires b < |v.disk| && at + |data| <= BLKSIZE
  {
    v.(disk := v.disk[b := Overwrite(v.disk[b], at, data)])
  }

  lemma {:induction false} PatchedPlaces(v: Volume, s: Slot, at: nat, data: seq<Byte>)
    requires Conserved(v) && s.Data? && Place(v, s) != 0 && at + |data| <= BLKSIZE
    ensures Place(v, s) < |v.disk|
    ensures var w := Patched(v, Place(v, s), at, data);
      Conserved(w) && forall t :: Place(w, t) == Place(v, t)
  {
    PlaceInUse(v, s);
    var b := Place(v, s);
    forall i | i in v.nodes
      ensures v.nodes[i].indirect != b
    {
      if Place(v, Table(i)) == b { NoSharing(v, s, Table(i)); }
    }
    SameKeeps(v, Patched(v, b, at, data));
  }

  /** Writing into data block k of a file writes into its contents at block k, and into nobody else's. */
  lemma {:induction false} PatchedMeaning(v: Volume, ino: nat, k: nat, at: nat, data: seq<Byte>)
    requires Valid(v) && ino in v.nodes && k < v.nodes[ino].blocks && at + |data| <= BLKSIZE
    ensures 0 < Place(v, Data(ino, k)) < |v.disk|
    ensures k * BLKSIZE + at + |data| <= |Contents(v, ino)|
    ensures var w := Patched(v, Place(v, Data(ino, k)), at, data);
      && Valid(w) && OthersKept(v, w, ino) && w.nodes == v.nodes
      && Contents(w, ino) == Overwrite(Contents(v, ino), k * BLKSIZE + at, data)
  {
    PatchedPlaces(v, Data(ino, k), at, data);
    var w := Patched(v, Place(v, Data(ino, k)), at, data);
    SameFilled(v, w);
    forall i, p | i in v.nodes && 0 <= p < v.nodes[i].blocks * BLKSIZE
      ensures Contents(w, i)[p] == if i == ino && k * BLKSIZE + at <= p < k * BLKSIZE + at + |data|
                                   then data[p - k * BLKSIZE - at] else Contents(v, i)[p]
    {
      PatchedByte(v, ino, k, at, data, i, p);
    }
    hide Place, Conserved, Filled, ByteAt;
    forall i | i in v.nodes && i != ino
      ensures Contents(w, i) == Contents(v, i)
    {
      assert forall p :: 0 <= p < |Contents(v, i)| ==> Contents(w, i)[p] == Contents(v, i)[p];
    }
  }

  lemma {:induction false} PatchedByte(v: Volume, ino: nat, k: nat, at: nat, data: seq<Byte>, i: nat, p: nat)
    requires Valid(v) && ino in v.nodes && k < v.nodes[ino].blocks && at + |data| <= BLKSIZE
    requires 0 < Place(v, Data(ino, k)) < |v.disk|
    requires i in v.nodes && p < v.nodes[i].blocks * BLKSIZE
    requires forall t :: Place(Patched(v, Place(v, Data(ino, k)), at, data), t) == Place(v, t)
    ensures var w := Patched(v, Place(v, Data(ino, k)), at, data);
      Contents(w, i)[p] == if i == ino && k * BLKSIZE + at <= p < k * BLKSIZE + at + |data|
                           then data[p - k * BLKSIZE - at] else Contents(v, i)[p]
  {
    hide Place, Conserved;
    var b := Place(v, Data(ino, k));
    var w := Patched(v, b, at, data);
    var s := Data(i, p / BLKSIZE);
    if Place(v, s) == b {
      NoSharing(v, s, Data(ino, k));
      assert p == k * BLKSIZE + p % BLKSIZE;
    } else {
      assert !(i == ino && p / BLKSIZE == k);
    }
  }

  // ----- Freeing an inode -----

  /** What sfs_reclaim frees of a file without data blocks: its inode and its indirect block. */
  function Reclaimed(v: Volume, ino: nat): Volume
    requires ino in v.nodes && ino < |v.free| && v.nodes[ino].indirect < |v.free|
  {
    var w := Released(v, ino).(nodes := v.nodes - {ino});
    if v.nodes[ino].indirect != 0 then Released(w, v.nodes[ino].indirect) else w
  }

  lemma {:induction false} OffTable(v: Volume, ino: nat)
    requires Valid(v) && ino in v.nodes && v.nodes[ino].blocks == 0 && v.nodes[ino].indirect != 0
    ensures v.nodes[ino].indirect < |v.free|
    ensures var w := WithNode(Released(v, v.nodes[ino].indirect), ino, v.nodes[ino].(indirect := 0));
      && Valid(w) && w.nodes[ino].blocks == 0 && ino < |w.free|
      && DataKept(v, w) && forall t: Slot :: t.Data? ==> Place(w, t) == Place(v, t)
  {
    assert Place(v, Table(ino)) == v.nodes[ino].indirect;
    PlaceInUse(v, Table(ino));
    var w := WithNode(Released(v, v.nodes[ino].indirect), ino, v.nodes[ino].(indirect := 0));
    assert Place(v, Node(ino)) == ino;
    PlaceInUse(v, Node(ino));
    forall t | t != Table(ino)
      ensures Place(w, t) == Place(v, t)
    {
      if t.Data? && t.ino == ino {
        assert Place(v, Data(ino, t.k)) == 0;
      }
    }
    GiveKeeps(v, w, Table(ino));
    DataKeptWhen(v, w, 0, 0);
    hide Conserved, Place;
  }

  lemma {:induction false} OffNode(v: Volume, ino: nat)
    requires Valid(v) && ino in v.nodes && v.nodes[ino].blocks == 0 && v.nodes[ino].indirect == 0
    ensures ino < |v.free|
    ensures var w := Released(v, ino).(nodes := v.nodes - {ino}); Valid(w) && DataKept(v, w)
  {
    var w := Released(v, ino).(nodes := v.nodes - {ino});
    assert Place(v, Node(ino)) == ino;
    PlaceInUse(v, Node(ino));
    forall t | t != Node(ino)
      ensures Place(w, t) == Place(v, t)
    {
      if t.Data? && t.ino == ino {
        assert Place(v, Data(ino, t.k)) == 0;
      }
    }
    GiveKeeps(v, w, Node(ino));
    DataKeptWhen(v, w, 0, 0);
    hide Conserved, Place;
  }

  /** Freeing an inode gives back all that was left of it and touches no other file. */
  lemma {:induction false} ReclaimedMeaning(v: Volume, ino: nat)
    requires Valid(v) && ino in v.nodes && v.nodes[ino].blocks == 0
    ensures ino < |v.free| && v.nodes[ino].indirect < |v.free|
    ensures var w := Reclaimed(v, ino);
      && Valid(w) && w.nodes == v.nodes - {ino} && w.meta == v.meta
      && (forall i :: i in w.nodes ==> Contents(w, i) == Contents(v, i))
      && w.unused == v.unused + 1 + (if v.nodes[ino].indirect != 0 then 1 else 0)
  {
    var u := v;
    if v.nodes[ino].indirect != 0 {
      OffTable(v, ino);
      u := WithNode(Released(v, v.nodes[ino].indirect), ino, v.nodes[ino].(indirect := 0));
    } else {
      DataKeptWhen(v, u, 0, 0);
    }
    OffNode(u, ino);
    var w := Released(u, ino).(nodes := u.nodes - {ino});
    TwiceReleased(v, ino);
    hide Conserved, Place;
    assert w == Reclaimed(v, ino);
    forall i | i in w.nodes
      ensures Contents(w, i) == Contents(v, i)
    {
      ContentsKept(v, w, i);
    }
  }

  lemma TwiceReleased(v: Volume, ino: nat)
    requires Valid(v) && ino in v.nodes
    ensures ino < |v.free| && v.nodes[ino].indirect < |v.free|
    ensures v.nodes[ino].indirect != 0 ==>
      Released(WithNode(Released(v, v.nodes[ino].indirect), ino, v.nodes[ino].(indirect := 0)), ino).(nodes := v.nodes - {ino})
        == Reclaimed(v, ino)
  {
    var e := v.nodes[ino].indirect;
    assert Place(v, Node(ino)) == ino;
    PlaceInUse(v, Node(ino));
    if e != 0 {
      assert Place(v, Table(ino)) == e;
      PlaceInUse(v, Table(ino));
      assert v.free[e := true][ino := true] == v.free[ino := true][e := true];
      assert v.nodes[ino := v.nodes[ino].(indirect := 0)] - {ino} == v.nodes - {ino};
    }
  }

  // ----- A volume to start from -----

  /** A volume with a root inode in block 1, one block of free map, and nothing else. */
  function Fresh(n: nat): Volume {
    var free := seq(n, (b: nat) => b > 2);
    var root := Inode(0, 1, 0, seq(NDIRECT, _ => 0), 0);
    Volume(seq(n, (b: nat) => Zeros(BLKSIZE)), free, Count(free), {0, 2}, map[1 := root])
  }

  lemma {:induction false} FreshUnused(n: nat)
    ensures Fresh(n).unused == if n <= 3 then 0 else n - 3
  {
    var free := Fresh(n).free;
    if n <= 3 {
      CountNone(free);
    } else {
      assert free[..n - 1] == Fresh(n - 1).free;
      FreshUnused(n - 1);
    }
  }

  lemma {:induction false} FreshValid(n: nat)
    requires 3 <= n <= WORD
    ensures Valid(Fresh(n))
  {
    var v := Fresh(n);
    forall b | InUse(v, b) && b !in v.meta
      ensures Owned(v, b)
    {
      assert Place(v, Node(1)) == b;
    }
  }
}
