/** The Simple File System's operations, on blocks and a free map that are changed in place. */
module SfsFile {
  import opened Counting
  import opened Integers
  import opened SfsBlocks
  import opened SfsVolume
  import opened SfsFlat
  import opened Words

  class Sfs {
    const disk: array<Block>
    const free: array<bool>
    const meta: set<nat>
    var unused: int
    var nodes: map<nat, Inode>

    ghost function Vol(): (v: Volume)
      reads this, disk, free
      ensures |v.disk| == disk.Length && |v.free| == free.Length && v.nodes == nodes
    {
      Volume(disk[..], free[..], unused, meta, nodes)
    }

    /** A mounted volume. */
    constructor (v: Volume)
      ensures Vol() == v && fresh(disk) && fresh(free)
    {
      disk := new Block[|v.disk|](i requires 0 <= i < |v.disk| => v.disk[i]);
      free := new bool[|v.free|](i requires 0 <= i < |v.free| => v.free[i]);
      meta, unused, nodes := v.meta, v.unused, v.nodes;
    }

    /** sfs_block_alloc on top of bitmap_alloc and sfs_clear_block */
    method BlockAlloc() returns (ok: bool, b: nat)
      requires Shaped(Vol())
      modifies this`unused, disk, free
      ensures ok <==> Lowest(old(Vol()).free) < free.Length
      ensures ok ==> b == Lowest(old(Vol()).free) && Vol() == Allocated(old(Vol()))
      ensures !ok ==> Vol() == old(Vol())
      ensures Shaped(Vol())
    {
      b := 0;
      while b < free.Length && !free[b]
        invariant b <= free.Length
        invariant forall i :: 0 <= i < b ==> !free[i]
      {
        b := b + 1;
      }
      ok := b < free.Length;
      if ok {
        AllocatedShaped(Vol());
        assert unused > 0 by { CountMember(free[..], b); }
        free[b] := false;
        unused := unused - 1;
        disk[b] := Zeros(BLKSIZE);
      }
    }

    /** sfs_block_free */
    method BlockFree(b: nat)
      requires InUse(Vol(), b)
      modifies this`unused, free
      ensures Vol() == Released(old(Vol()), b)
    {
      free[b] := true;
      unused := unused + 1;
    }

    /** sfs_wbuf, and sfs_wblock when the data is a whole block */
    method Wbuf(b: nat, at: nat, data: seq<Byte>)
      requires b < disk.Length && at + |data| <= BLKSIZE
      modifies disk
      ensures Vol() == Patched(old(Vol()), b, at, data)
    {
      disk[b] := Overwrite(disk[b], at, data);
    }

    /** sfs_bmap_get_sub_nolock: entry j of the indirect block, both made if missing and asked for. */
    method BmapGetSub(entp: nat, j: nat, create: bool) returns (ok: bool, ent: nat, b: nat)
      requires Shaped(Vol()) && disk.Length <= WORD && j < NENTRY
      requires entp == 0 || InUse(Vol(), entp)
      modifies this`unused, disk, free
      ensures var found := if entp == 0 then 0 else Entry(old(disk[entp]), j);
        if !create || found != 0 then ok && ent == entp && b == found && Vol() == old(Vol())
        else (ok, Vol(), ent, b) == SubGrown(old(Vol()), entp, j)
    {
      ok, ent, b := true, entp, 0;
      hide Entry, Shaped, Lowest;
      if ent != 0 {
        b := Entry(disk[ent], j);
        if b != 0 || !create {
          return;
        }
      } else {
        if !create {
          return;
        }
        ok, ent := BlockAlloc();
        if !ok {
          ent := entp;
          return;
        }
      }
      ok, b := BlockAlloc();
      if !ok {
        if ent != entp {
          BlockFree(ent);
        }
        ent, b := entp, 0;
        return;
      }
      Wbuf(ent, 4 * j, Encode(b));
    }

    /** sfs_bmap_get_nolock: the block of a file's index, allocated if missing and asked for. */
    method BmapGet(ino: nat, index: nat, create: bool) returns (ok: bool, b: nat)
      requires Valid(Vol()) && ino in nodes && index < MAXBLOCKS
      requires create ==> index == nodes[ino].blocks
      modifies this, disk, free
      ensures !create ==> ok && Vol() == old(Vol()) && b == Place(Vol(), Data(ino, index))
      ensures create ==>
        var (grew, w) := Grown(old(Vol()), ino);
        && ok == grew
        && (ok ==> ino in nodes && w == WithNode(Vol(), ino, nodes[ino].(blocks := index + 1))
                   && nodes[ino].blocks == index && b == GrownBlock(old(Vol()), ino))
        && (!ok ==> Vol() == w)
    {
      hide Conserved, Filled, Shaped, Lowest, Entry;
      MapOf(Vol(), ino, index);
      var f := nodes[ino];
      ok, b := true, 0;
      if index < NDIRECT {
        b := f.direct[index];
        if b == 0 && create {
          ok, b := BlockAlloc();
          if ok {
            nodes := nodes[ino := f.(direct := f.direct[index := b])];
          }
        }
      } else {
        var ent;
        ok, ent, b := BmapGetSub(f.indirect, index - NDIRECT, create);
        if ok && ent != f.indirect {
          nodes := nodes[ino := f.(indirect := ent)];
        }
      }
    }

    /** sfs_bmap_load_nolock: the block of a file's index, which may be the next one. */
    method BmapLoad(ino: nat, index: nat) returns (ok: bool, b: nat)
      requires Valid(Vol()) && ino in nodes && index <= nodes[ino].blocks && index < MAXBLOCKS
      modifies this, disk, free
      ensures Loaded(old(Vol()), Vol(), ino, index, ok, b)
      ensures index == old(nodes)[ino].blocks ==> (ok, Vol()) == Grown(old(Vol()), ino)
    {
      hide Conserved, Filled, Place, Grown, Loaded;
      var create := index == nodes[ino].blocks;
      ok, b := BmapGet(ino, index, create);
      if ok && create {
        nodes := nodes[ino := nodes[ino].(blocks := nodes[ino].blocks + 1)];
      }
      IsLoaded(old(Vol()), Vol(), ino, index, ok, b);
    }

    /**
     One step of sfs_io_nolock, once alen bytes are through: load block `index` and move size
     bytes between it, from byte `at`, and buf. v and data are the volume and buf at the start.
     */
    method Chunk(ghost v: Volume, ghost data: seq<Byte>, ino: nat, offset: nat, buf: array<Byte>, alen: nat,
                 index: nat, at: nat, size: nat, write: bool) returns (ok: bool)
      requires Valid(Vol()) && ino in nodes && index <= nodes[ino].blocks && index < MAXBLOCKS
      requires offset + alen == index * BLKSIZE + at && 0 < size && at + size <= BLKSIZE
      requires alen + size <= buf.Length == |data|
      requires !write ==> index < nodes[ino].blocks
      requires Transferred(v, Vol(), ino, offset, data, buf[..], alen, write)
      modifies this, disk, free, buf
      ensures Transferred(v, Vol(), ino, offset, data, buf[..], if ok then alen + size else alen, write)
      ensures Valid(Vol()) && ino in nodes
      ensures write && ok ==> index + 1 <= nodes[ino].blocks
      ensures !write ==> ok && Vol() == old(Vol())
      ensures ok <==> Roomy(old(Vol()), ino, index)
      ensures !ok ==> unused < Cost(nodes[ino])
    {
      hide Conserved, Filled, Place, Loaded, Stored, Fetched, Transferred;
      var b;
      ok, b := BmapLoad(ino, index);
      ghost var u := Vol();
      LoadedMeans(old(Vol()), u, ino, index, at, buf[alen..alen + size], ok, b);
      if !ok {
        TransferredSame(v, old(Vol()), u, ino, offset, data, buf[..], alen, index, at, buf[alen..alen + size]);
        return;
      }
      if write {
        Wbuf(b, at, buf[alen..alen + size]);
      } else {
        forall i | 0 <= i < size {
          buf[alen + i] := disk[b][at + i];
        }
        Copied(u, ino, index, at, old(buf[..]), alen, size, buf[..], b);
      }
      TransferredNext(v, old(Vol()), Vol(), ino, offset, data, old(buf[..]), buf[..], alen, index, at, size, write);
    }

    /** The transfer of sfs_io_nolock: the unaligned start, the whole blocks, the unaligned end. */
    method Transfer(ino: nat, buf: array<Byte>, offset: nat, endpos: nat, write: bool) returns (ok: bool, alen: nat)
      requires Valid(Vol()) && ino in nodes && offset < endpos && endpos - offset <= buf.Length
      requires if write then offset / BLKSIZE <= nodes[ino].blocks && endpos <= MAXBLOCKS * BLKSIZE
               else endpos <= nodes[ino].blocks * BLKSIZE
      modifies this, disk, free, buf
      ensures Valid(Vol()) && ino in nodes
      ensures Transferred(old(Vol()), Vol(), ino, offset, old(buf[..]), buf[..], alen, write)
      ensures alen <= endpos - offset && (ok <==> alen == endpos - offset)
      ensures alen > 0 <==> Roomy(old(Vol()), ino, offset / BLKSIZE)
      ensures !ok ==> write && unused < Cost(nodes[ino])
    {
      hide Conserved, Filled, Place, Transferred, Cost, Contents;
      ghost var v, data := Vol(), buf[..];
      NothingTransferred(v, ino, offset, data, write);
      BlocksBound(v, ino);
      alen := 0;
      var blkno, blkoff := offset / BLKSIZE, offset % BLKSIZE;
      var nblks := endpos / BLKSIZE - blkno;
      ok := true;
      label transfer: {
        if blkoff != 0 {
          var size := if nblks != 0 then BLKSIZE - blkoff else endpos - offset;
          ok := Chunk(v, data, ino, offset, buf, 0, blkno, blkoff, size, write);
          if !ok {
            break transfer;
          }
          alen := alen + size;
          if nblks == 0 {
            break transfer;
          }
          blkno, nblks := blkno + 1, nblks - 1;
        }
        while nblks != 0
          invariant 0 <= nblks == endpos / BLKSIZE - blkno
          invariant offset + alen == blkno * BLKSIZE
          invariant Valid(Vol()) && ino in nodes && ok
          invariant Transferred(v, Vol(), ino, offset, data, buf[..], alen, write)
          invariant write ==> blkno <= nodes[ino].blocks
          invariant !write ==> Vol() == v
          invariant if alen == 0 then Vol() == v else Roomy(v, ino, offset / BLKSIZE)
        {
          ok := Chunk(v, data, ino, offset, buf, alen, blkno, 0, BLKSIZE, write);
          if !ok {
            break transfer;
          }
          alen := alen + BLKSIZE;
          blkno, nblks := blkno + 1, nblks - 1;
        }
        if endpos % BLKSIZE != 0 {
          ok := Chunk(v, data, ino, offset, buf, alen, blkno, 0, endpos % BLKSIZE, write);
          if !ok {
            break transfer;
          }
          alen := alen + endpos % BLKSIZE;
        }
      }
    }

    /** sfs_io_nolock: read or write len bytes of a file at offset. */
    method Io(ino: nat, buf: array<Byte>, offset: int, len: nat, write: bool) returns (ret: Ret, alen: nat)
      requires Valid(Vol()) && ino in nodes && Covered(nodes[ino])
      requires -0x8000_0000 <= offset < 0x8000_0000 && len < WORD && len <= buf.Length
      requires write && !Refused(offset, len) && len > 0 ==>
        offset / BLKSIZE <= nodes[ino].blocks && Limit(offset, len) <= MAXBLOCKS * BLKSIZE
      modifies this, disk, free, buf
      ensures Refused(offset, len) ==> ret == Invalid && alen == 0 && Vol() == old(Vol()) && buf[..] == old(buf[..])
      ensures !Refused(offset, len) && !write ==>
        && ret == Done && alen == Max(offset, Min(Limit(offset, len), old(nodes)[ino].size)) - offset
        && Vol() == old(Vol()) && ReadOut(Vol(), ino, offset, alen, old(buf[..]), buf[..])
      ensures !Refused(offset, len) && write ==>
        && alen <= Limit(offset, len) - offset
        && ret == (if alen == Limit(offset, len) - offset then Done else NoMemory)
        && buf[..] == old(buf[..])
        && Wrote(old(Vol()), Vol(), ino, offset, buf[..alen],
                 if len == 0 then old(nodes)[ino].size else Max(old(nodes)[ino].size, offset + alen))
        && (ret == NoMemory ==> ino in nodes && unused < Cost(nodes[ino]))
      ensures !Refused(offset, len) && write && len > 0 ==>
        && ino in nodes && (alen > 0 <==> Roomy(old(Vol()), ino, offset / BLKSIZE))
        && var f := old(nodes)[ino];
           Exact(f) ==> (Exact(nodes[ino]) <==> offset <= f.blocks * BLKSIZE || old(unused) >= Cost(f))
    {
      hide Conserved, Filled, Place, Transferred, Wrote, ReadOut;
      ghost var v, data := Vol(), buf[..];
      ret, alen := Done, 0;
      var endpos := Signed(Wrap(offset + len));
      if offset < 0 || offset >= MAX_FILE_SIZE || offset > endpos {
        ret := Invalid;
        return;
      }
      NothingTransferred(v, ino, offset, data, write);
      if offset == endpos {
        return;
      }
      if endpos > MAX_FILE_SIZE {
        endpos := MAX_FILE_SIZE;
      }
      if !write {
        if offset >= nodes[ino].size {
          return;
        }
        if endpos > nodes[ino].size {
          endpos := nodes[ino].size;
        }
      }
      var ok;
      ok, alen := Transfer(ino, buf, offset, endpos, write);
      TransferredMeans(v, Vol(), ino, offset, data, buf[..], alen, write);
      ret := if ok then Done else NoMemory;
      if offset + alen > nodes[ino].size {
        Resized(v, Vol(), ino, offset, buf[..alen], nodes[ino].size, offset + alen);
        nodes := nodes[ino := nodes[ino].(size := offset + alen)];
      }
      if write && Exact(v.nodes[ino]) {
        WriteStaysExact(v, Vol(), ino, offset, data, alen);
      }
    }

    /** sfs_bmap_truncate_nolock with sfs_bmap_free_nolock: drop the last block of a file. */
    method BmapTruncate(ino: nat)
      requires Valid(Vol()) && ino in nodes && nodes[ino].blocks > 0
      modifies this, disk, free
      ensures Vol() == Shrunk(old(Vol()), ino)
    {
      var f := nodes[ino];
      var index := f.blocks - 1;
      MapOf(Vol(), ino, index);
      PlaceInUse(Vol(), Data(ino, index));
      hide Conserved, Filled, Shaped, Entry, PutEntry;
      BlocksBound(Vol(), ino);
      if index < NDIRECT {
        if f.direct[index] != 0 {
          BlockFree(f.direct[index]);
          f := f.(direct := f.direct[index := 0]);
        }
      } else if f.indirect != 0 {
        var b := Entry(disk[f.indirect], index - NDIRECT);
        if b != 0 {
          Wbuf(f.indirect, 4 * (index - NDIRECT), Encode(0));
          BlockFree(b);
        }
      }
      nodes := nodes[ino := f.(blocks := index)];
    }

    /** sfs_truncfile: give a file the size len. */
    method Truncate(ino: nat, len: int) returns (ret: Ret)
      requires Valid(Vol()) && ino in nodes
      requires nodes[ino].size == len ==> Exact(nodes[ino])
      requires 0 <= len <= MAX_FILE_SIZE ==> RoundUp(len) <= Max(nodes[ino].blocks, MAXBLOCKS) * BLKSIZE
      modifies this, disk, free
      ensures !(0 <= len <= MAX_FILE_SIZE) ==> ret == Invalid && Vol() == old(Vol())
      ensures 0 <= len <= MAX_FILE_SIZE ==>
        && ret != Invalid && ino in nodes
        && Truncated(old(Vol()), Vol(), ino, nodes[ino].blocks, nodes[ino].size)
        && (ret == Done ==> nodes[ino].size == len && Exact(nodes[ino]))
        && (ret == NoMemory ==>
              && nodes[ino].size == old(nodes)[ino].size && unused < Cost(nodes[ino])
              && old(nodes)[ino].blocks <= nodes[ino].blocks && nodes[ino].blocks * BLKSIZE < RoundUp(len))
        && var f, need := old(nodes)[ino], Spent(old(nodes)[ino], RoundUp(len) / BLKSIZE);
           && (ret == Done <==> old(unused) >= need)
           && (Exact(f) ==> (Exact(nodes[ino]) <==> !(Cost(f) <= old(unused) < need)))
    {
      hide Conserved, Filled, Place, Truncated, Contents, Shrunk, Loaded, Enlarged, Grown, Cost;
      if len < 0 || len > MAX_FILE_SIZE {
        return Invalid;
      }
      ghost var v := Vol();
      NotTruncated(v, ino);
      BlocksBound(v, ino);
      UnusedCounts(v);
      var tblks := (len + BLKSIZE - 1) / BLKSIZE;
      if nodes[ino].size == len {
        assert tblks == nodes[ino].blocks;
        return Done;
      }
      var nblks := nodes[ino].blocks;
      if nblks <= tblks {
        TruncateStaysExact(v, ino, len);
      }
      while nblks < tblks
        invariant Valid(Vol()) && ino in nodes && nodes[ino].blocks == nblks
        invariant v.nodes[ino].blocks <= nblks <= Max(v.nodes[ino].blocks, tblks)
        invariant Truncated(v, Vol(), ino, nblks, v.nodes[ino].size)
        invariant nblks <= tblks ==> Enlarged(v, ino, tblks) == Enlarged(Vol(), ino, tblks)
      {
        ghost var u := Vol();
        EnlargedNext(u, ino, tblks);
        var ok, b := BmapLoad(ino, nblks);
        TruncatedGrows(v, u, Vol(), ino, nblks, ok, b);
        if !ok {
          return NoMemory;
        }
        nblks := nblks + 1;
      }
      if nblks == tblks {
        EnlargedDone(Vol(), ino, tblks);
      }
      while tblks < nblks
        invariant Valid(Vol()) && ino in nodes && nodes[ino].blocks == nblks
        invariant tblks <= nblks <= Max(v.nodes[ino].blocks, tblks)
        invariant Truncated(v, Vol(), ino, nblks, v.nodes[ino].size)
        invariant nblks > tblks ==> nblks <= v.nodes[ino].blocks
      {
        ghost var u := Vol();
        BmapTruncate(ino);
        TruncatedShrinks(v, u, ino, nblks);
        nblks := nblks - 1;
      }
      TruncatedSize(v, Vol(), ino, nblks, len);
      nodes := nodes[ino := nodes[ino].(size := len)];
      ret := Done;
    }

    /** sfs_reclaim, once nobody uses the inode: without links, everything it has is freed. */
    method Reclaim(ino: nat)
      requires Valid(Vol()) && ino in nodes
      requires nodes[ino].nlinks == 0 && nodes[ino].size == 0 ==> Exact(nodes[ino])
      modifies this, disk, free
      ensures old(nodes)[ino].nlinks > 0 ==> Vol() == old(Vol())
      ensures old(nodes)[ino].nlinks == 0 ==>
        && Valid(Vol()) && nodes == old(nodes) - {ino}
        && (forall i :: i in nodes ==> Contents(Vol(), i) == Contents(old(Vol()), i))
        && unused == old(unused) + old(nodes)[ino].blocks + 1 + (if old(nodes)[ino].indirect != 0 then 1 else 0)
    {
      hide Valid, Contents, Truncated, Spent, Cost;
      if nodes[ino].nlinks == 0 {
        ghost var v := Vol();
        var ret := Truncate(ino, 0);
        TruncatedAway(v, Vol(), ino);
        ReclaimedMeaning(Vol(), ino);
        var ent := nodes[ino].indirect;
        InodeInUse(Vol(), ino);
        BlockFree(ino);
        if ent != 0 {
          BlockFree(ent);
        }
        nodes := nodes - {ino};
      }
    }
  }

  datatype Ret = Done | Invalid | NoMemory

  const MAX_FILE_SIZE: nat := 0x800_0000

  /** The end of the range as off_t holds it. */
  function Endpos(offset: int, len: nat): int {
    Signed(Wrap(offset + len))
  }

  predicate Refused(offset: int, len: nat) {
    offset < 0 || offset >= MAX_FILE_SIZE || offset > Endpos(offset, len)
  }

  /** Where a request that is not refused ends. */
  function Limit(offset: int, len: nat): int {
    Min(Endpos(offset, len), MAX_FILE_SIZE)
  }

  /** Requests are refused when the offset is bad or the end of the range does not fit an off_t. */
  lemma RefusedWhen(offset: int, len: nat)
    requires -0x8000_0000 <= offset < 0x8000_0000 && len < WORD
    ensures Refused(offset, len) <==> offset < 0 || offset >= MAX_FILE_SIZE || offset + len >= 0x8000_0000
    ensures !Refused(offset, len) ==> Endpos(offset, len) == offset + len
  {
  }

  /** The blocks of a file reach as far as its size. */
  predicate Covered(f: Inode) {
    f.size <= f.blocks * BLKSIZE
  }

  /**
   Looking up block `index` of a file took v to w. With success the file has the block, filled
   with zeros if it is new; without, there was no room for it and nothing changed.
   */
  ghost predicate Loaded(v: Volume, w: Volume, ino: nat, index: nat, ok: bool, b: nat) {
    && ino in v.nodes && Valid(w) && OthersKept(v, w, ino)
    && var f, g := v.nodes[ino], w.nodes[ino];
       if ok then
         && b == Place(w, Data(ino, index)) && index < g.blocks
         && g.size == f.size && g.nlinks == f.nlinks && g.blocks == Max(f.blocks, index + 1)
         && Contents(w, ino) == PadTo(Contents(v, ino), (index + 1) * BLKSIZE)
         && (index < f.blocks ==> w == v)
         && (index == f.blocks ==> v.unused >= Cost(f) && w.unused == v.unused - Cost(f))
       else
         && index == f.blocks && v.unused < Cost(f)
         && w.nodes == v.nodes && w.free == v.free && w.unused == v.unused
         && Contents(w, ino) == Contents(v, ino)
  }

  lemma {:induction false} IsLoaded(v: Volume, w: Volume, ino: nat, index: nat, ok: bool, b: nat)
    requires Valid(v) && ino in v.nodes && index <= v.nodes[ino].blocks && index < MAXBLOCKS
    requires index < v.nodes[ino].blocks ==> ok && w == v && b == Place(v, Data(ino, index))
    requires index == v.nodes[ino].blocks ==> (ok, w) == Grown(v, ino) && (ok ==> b == GrownBlock(v, ino))
    ensures Loaded(v, w, ino, index, ok, b)
  {
    hide Conserved, Filled, Place, Grown;
    if index == v.nodes[ino].blocks {
      GrownMeaning(v, ino);
      if ok {
        GrownBlockPlace(v, ino);
        GrewContents(v, w, ino);
      } else {
        forall i | i in v.nodes
          ensures Contents(w, i) == Contents(v, i)
        {
          ContentsKept(v, w, i);
        }
      }
    }
  }

  /** Block `index` of a file is there, or is the next one and can be had. */
  predicate Roomy(v: Volume, ino: nat, index: nat)
    requires ino in v.nodes
  {
    index < v.nodes[ino].blocks || v.unused >= Cost(v.nodes[ino])
  }

  /** Storing data into block `index` of a file from byte `at` took v to w. */
  ghost predicate Stored(v: Volume, w: Volume, ino: nat, index: nat, at: nat, data: seq<Byte>, ok: bool) {
    && ino in v.nodes && Valid(w) && OthersKept(v, w, ino)
    && var f, g := v.nodes[ino], w.nodes[ino];
       if ok then
         && g.size == f.size && g.nlinks == f.nlinks && g.blocks == Max(f.blocks, index + 1)
         && index * BLKSIZE + at + |data| <= |PadTo(Contents(v, ino), (index + 1) * BLKSIZE)|
         && Contents(w, ino) == Overwrite(PadTo(Contents(v, ino), (index + 1) * BLKSIZE), index * BLKSIZE + at, data)
         && (index < f.blocks || v.unused >= Cost(f))
         && w.unused == v.unused - (if index < f.blocks then 0 else Cost(f))
       else
         && index == f.blocks && v.unused < Cost(f)
         && w.nodes == v.nodes && w.free == v.free && w.unused == v.unused
         && Contents(w, ino) == Contents(v, ino)
  }

  /** buffer is the old one with bytes of block `index` of a file copied in at place `done`. */
  ghost predicate Fetched(v: Volume, ino: nat, index: nat, at: nat, before: seq<Byte>, done: nat, size: nat, buffer: seq<Byte>) {
    && ino in v.nodes && done + size <= |before|
    && var from := index * BLKSIZE + at;
       from + size <= |Contents(v, ino)| && buffer == Overwrite(before, done, Contents(v, ino)[from..from + size])
  }

  /** Writing data at offset into a file took v to w, which gives the file the size. */
  ghost predicate Wrote(v: Volume, w: Volume, ino: nat, offset: nat, data: seq<Byte>, size: nat) {
    Valid(w) && Rewritten(v, w, ino, offset, data, size)
  }

  ghost predicate Rewritten(v: Volume, w: Volume, ino: nat, offset: nat, data: seq<Byte>, size: nat) {
    && ino in v.nodes && OthersKept(v, w, ino)
    && w.nodes[ino].size == size && w.nodes[ino].nlinks == v.nodes[ino].nlinks
    && Contents(w, ino) == Written(Contents(v, ino), offset, data)
  }

  /** buffer is the old one with n bytes of a file from offset at its front. */
  ghost predicate ReadOut(v: Volume, ino: nat, offset: nat, n: nat, before: seq<Byte>, buffer: seq<Byte>) {
    && ino in v.nodes && n <= |before|
    && if n == 0 then buffer == before
       else offset + n <= |Contents(v, ino)| && buffer == Overwrite(before, 0, Contents(v, ino)[offset..offset + n])
  }

  /** What sfs_io_nolock has done once alen bytes are through. */
  ghost predicate Transferred(v: Volume, w: Volume, ino: nat, offset: nat, data: seq<Byte>, buffer: seq<Byte>, alen: nat, write: bool) {
    && ino in v.nodes && alen <= |data|
    && if write then buffer == data && Wrote(v, w, ino, offset, data[..alen], v.nodes[ino].size)
       else w == v && ReadOut(v, ino, offset, alen, data, buffer)
  }

  lemma {:induction false} NothingTransferred(v: Volume, ino: nat, offset: nat, data: seq<Byte>, write: bool)
    requires Valid(v) && ino in v.nodes
    ensures Transferred(v, v, ino, offset, data, data, 0, write)
    ensures Wrote(v, v, ino, offset, data[..0], v.nodes[ino].size) && ReadOut(v, ino, offset, 0, data, data)
  {
  }

  lemma {:induction false} TransferredNext(v: Volume, u: Volume, w: Volume, ino: nat, offset: nat, data: seq<Byte>,
                                           b1: seq<Byte>, b2: seq<Byte>, alen: nat, index: nat, at: nat, size: nat, write: bool)
    requires Transferred(v, u, ino, offset, data, b1, alen, write) && Valid(u) && ino in u.nodes
    requires offset + alen == index * BLKSIZE + at && 0 < size && at + size <= BLKSIZE && alen + size <= |data| == |b1|
    requires index <= u.nodes[ino].blocks
    requires write ==> b2 == b1 && Stored(u, w, ino, index, at, b1[alen..alen + size], true)
    requires !write ==> w == u && Fetched(u, ino, index, at, b1, alen, size, b2)
    ensures Transferred(v, w, ino, offset, data, b2, alen + size, write)
    ensures Valid(w) && ino in w.nodes && (write ==> index + 1 <= w.nodes[ino].blocks)
  {
    hide Wrote, Stored, Fetched, ReadOut;
    if write {
      assert data[..alen + size] == data[..alen] + data[alen..alen + size];
      WroteNext(v, u, w, ino, offset, data[..alen], index, at, data[alen..alen + size]);
    } else {
      ReadNext(v, ino, offset, data, b1, b2, alen, index, at, size);
    }
  }

  lemma {:induction false} WroteNext(v: Volume, u: Volume, w: Volume, ino: nat, offset: nat, done: seq<Byte>,
                                     index: nat, at: nat, next: seq<Byte>)
    requires ino in v.nodes && Wrote(v, u, ino, offset, done, v.nodes[ino].size)
    requires offset + |done| == index * BLKSIZE + at && next != [] && at + |next| <= BLKSIZE
    requires ino in u.nodes && index <= u.nodes[ino].blocks
    requires Stored(u, w, ino, index, at, next, true)
    ensures Wrote(v, w, ino, offset, done + next, v.nodes[ino].size)
    ensures Valid(w) && ino in w.nodes && index + 1 <= w.nodes[ino].blocks
  {
    hide Conserved, Filled, Place, Overwrite, Written, PadTo, Contents;
    WrittenNext(Contents(v, ino), offset, done, index, at, next);
  }

  lemma {:induction false} ReadNext(v: Volume, ino: nat, offset: nat, data: seq<Byte>, b1: seq<Byte>, b2: seq<Byte>,
                                    alen: nat, index: nat, at: nat, size: nat)
    requires ReadOut(v, ino, offset, alen, data, b1) && Fetched(v, ino, index, at, b1, alen, size, b2)
    requires offset + alen == index * BLKSIZE + at && size > 0 && alen + size <= |data|
    ensures ReadOut(v, ino, offset, alen + size, data, b2)
  {
    hide Place, Contents;
    var c := Contents(v, ino);
    assert c[offset..offset + alen + size] == c[offset..offset + alen] + c[offset + alen..offset + alen + size];
  }

  /** A step that found no room changed nothing. */
  lemma {:induction false} TransferredSame(v: Volume, u: Volume, w: Volume, ino: nat, offset: nat, data: seq<Byte>,
                                           buffer: seq<Byte>, alen: nat, index: nat, at: nat, next: seq<Byte>)
    requires Transferred(v, u, ino, offset, data, buffer, alen, true) && Stored(u, w, ino, index, at, next, false)
    ensures Transferred(v, w, ino, offset, data, buffer, alen, true)
    ensures Valid(w) && ino in w.nodes && w.unused < Cost(w.nodes[ino])
  {
    hide Conserved, Filled, Place, Written, Contents;
  }

  lemma {:induction false} TransferredMeans(v: Volume, w: Volume, ino: nat, offset: nat, data: seq<Byte>,
                                            buffer: seq<Byte>, alen: nat, write: bool)
    requires Transferred(v, w, ino, offset, data, buffer, alen, write)
    ensures ino in v.nodes && ino in w.nodes && alen <= |data|
    ensures write ==>
      && buffer == data && w.nodes[ino].size == v.nodes[ino].size
      && Wrote(v, w, ino, offset, data[..alen], v.nodes[ino].size)
    ensures !write ==> w == v && ReadOut(v, ino, offset, alen, data, buffer)
  {
  }

  /** Setting a file's size changes nothing else. */
  lemma {:induction false} ResizedKeeps(v: Volume, ino: nat, f: Inode)
    requires Valid(v) && ino in v.nodes && f == v.nodes[ino].(size := f.size)
    ensures var w := WithNode(v, ino, f); Valid(w) && forall i :: i in v.nodes ==> Contents(w, i) == Contents(v, i)
  {
    var w := WithNode(v, ino, f);
    SameKeeps(v, w);
    hide Conserved, Place;
    forall i | i in v.nodes
      ensures Contents(w, i) == Contents(v, i)
    {
      assert forall p :: 0 <= p < v.nodes[i].blocks * BLKSIZE ==> ByteAt(w, i, p) == ByteAt(v, i, p);
    }
  }

  lemma {:induction false} Resized(v: Volume, w: Volume, ino: nat, offset: nat, data: seq<Byte>, size: nat, to: nat)
    requires Wrote(v, w, ino, offset, data, size) && ino in w.nodes
    ensures Wrote(v, WithNode(w, ino, w.nodes[ino].(size := to)), ino, offset, data, to)
  {
    hide Conserved, Filled, Place, Written, Contents;
    ResizedKeeps(w, ino, w.nodes[ino].(size := to));
  }

  lemma BlocksBound(v: Volume, ino: nat)
    requires Valid(v) && ino in v.nodes
    ensures v.nodes[ino].blocks <= MAXBLOCKS
  {
  }

  /** A file has as many blocks as its size needs. */
  predicate Exact(f: Inode) {
    f.blocks * BLKSIZE == RoundUp(f.size)
  }

  /** s cut or extended with zeros to n bytes. */
  function Fit(s: seq<Byte>, n: nat): seq<Byte> {
    if n <= |s| then s[..n] else PadTo(s, n)
  }

  /** Adding or dropping blocks until there are n took v to w, which gives the file the size. */
  ghost predicate Truncated(v: Volume, w: Volume, ino: nat, n: nat, size: nat) {
    && ino in v.nodes && Valid(w) && OthersKept(v, w, ino)
    && var f, g := v.nodes[ino], w.nodes[ino];
       && g.blocks == n && g.size == size && g.nlinks == f.nlinks
       && Contents(w, ino) == Fit(Contents(v, ino), n * BLKSIZE)
       && (n <= f.blocks ==> g.indirect == f.indirect && w.unused == v.unused + f.blocks - n)
  }

  lemma {:induction false} NotTruncated(v: Volume, ino: nat)
    requires Valid(v) && ino in v.nodes
    ensures Truncated(v, v, ino, v.nodes[ino].blocks, v.nodes[ino].size)
  {
  }

  lemma EnlargedNext(v: Volume, ino: nat, n: nat)
    requires Valid(v) && ino in v.nodes && v.nodes[ino].blocks < n <= MAXBLOCKS
    ensures var (ok, w) := Grown(v, ino);
      && (ok ==> Valid(w) && ino in w.nodes && Enlarged(v, ino, n) == Enlarged(w, ino, n))
      && (!ok ==> Enlarged(v, ino, n) == (false, w))
  {
    hide Conserved, Filled, Place, Grown;
    GrownMeaning(v, ino);
  }

  lemma EnlargedDone(v: Volume, ino: nat, n: nat)
    requires Valid(v) && ino in v.nodes && v.nodes[ino].blocks == n <= MAXBLOCKS
    ensures Enlarged(v, ino, n) == (true, v)
  {
  }

  lemma {:induction false} TruncatedGrows(v: Volume, u: Volume, w: Volume, ino: nat, n: nat, ok: bool, b: nat)
    requires ino in v.nodes && Truncated(v, u, ino, n, v.nodes[ino].size) && v.nodes[ino].blocks <= n
    requires Loaded(u, w, ino, n, ok, b)
    ensures Valid(w) && ino in w.nodes && w.nodes[ino].size == v.nodes[ino].size
    ensures w.nodes[ino].blocks == if ok then n + 1 else n
    ensures Truncated(v, w, ino, w.nodes[ino].blocks, v.nodes[ino].size)
    ensures !ok ==> w.unused < Cost(w.nodes[ino])
  {
    hide Conserved, Filled, Place, Contents;
  }

  lemma {:induction false} TruncatedShrinks(v: Volume, u: Volume, ino: nat, n: nat)
    requires ino in v.nodes && Truncated(v, u, ino, n, v.nodes[ino].size) && 0 < n <= v.nodes[ino].blocks
    ensures Valid(u) && ino in u.nodes && u.nodes[ino].blocks == n
    ensures var w := Shrunk(u, ino);
      && Valid(w) && ino in w.nodes && w.nodes[ino].blocks == n - 1
      && Truncated(v, w, ino, n - 1, v.nodes[ino].size)
  {
    hide Conserved, Filled, Place, Contents, Shrunk;
    ShrunkMeaning(u, ino);
  }

  lemma {:induction false} TruncatedSize(v: Volume, w: Volume, ino: nat, n: nat, len: nat)
    requires ino in v.nodes && Truncated(v, w, ino, n, v.nodes[ino].size)
    ensures ino in w.nodes && Truncated(v, WithNode(w, ino, w.nodes[ino].(size := len)), ino, n, len)
  {
    hide Conserved, Filled, Place, Contents;
    ResizedKeeps(w, ino, w.nodes[ino].(size := len));
  }

  lemma {:induction false} TruncatedAway(v: Volume, w: Volume, ino: nat)
    requires Truncated(v, w, ino, 0, 0)
    ensures ino in v.nodes && ino in w.nodes && Valid(w) && w.nodes[ino].blocks == 0
    ensures w.nodes == v.nodes[ino := w.nodes[ino]]
    ensures w.nodes[ino].indirect == v.nodes[ino].indirect && w.unused == v.unused + v.nodes[ino].blocks
    ensures forall i :: i in v.nodes && i != ino ==> Contents(w, i) == Contents(v, i)
  {
  }

  lemma InodeInUse(v: Volume, ino: nat)
    requires Valid(v) && ino in v.nodes
    ensures InUse(v, ino)
    ensures v.nodes[ino].indirect != 0 ==> InUse(v, v.nodes[ino].indirect) && v.nodes[ino].indirect != ino
  {
    assert Place(v, Node(ino)) == ino;
    assert Place(v, Table(ino)) == v.nodes[ino].indirect;
  }

  /** After the lookup, writing the data into the block stores it. */
  lemma {:induction false} LoadedMeans(v: Volume, u: Volume, ino: nat, index: nat, at: nat, data: seq<Byte>, ok: bool, b: nat)
    requires Valid(v) && ino in v.nodes && index <= v.nodes[ino].blocks && index < MAXBLOCKS
    requires at + |data| <= BLKSIZE
    requires Loaded(v, u, ino, index, ok, b)
    ensures ok <==> Roomy(v, ino, index)
    ensures !ok ==> Stored(v, u, ino, index, at, data, false)
    ensures index < v.nodes[ino].blocks ==> ok && u == v && b == Place(v, Data(ino, index))
    ensures ok ==> 0 < b < |u.disk| && Stored(v, Patched(u, b, at, data), ino, index, at, data, true)
  {
    hide Conserved, Filled, Place;
    if ok {
      PatchedMeaning(u, ino, index, at, data);
    }
  }

  lemma {:induction false} Copied(v: Volume, ino: nat, index: nat, at: nat, before: seq<Byte>, done: nat, size: nat, buffer: seq<Byte>, b: nat)
    requires ino in v.nodes && index < v.nodes[ino].blocks && at + size <= BLKSIZE && done + size <= |before| == |buffer|
    requires b == Place(v, Data(ino, index)) && b < |v.disk|
    requires forall i :: 0 <= i < |buffer| ==> buffer[i] == if done <= i < done + size then v.disk[b][at + (i - done)] else before[i]
    ensures Fetched(v, ino, index, at, before, done, size, buffer)
  {
    hide Place;
    var from := index * BLKSIZE + at;
    forall p | from <= p < from + size
      ensures Contents(v, ino)[p] == v.disk[b][p - index * BLKSIZE]
    {
      assert p / BLKSIZE == index && p % BLKSIZE == p - index * BLKSIZE;
    }
  }

  /** What is known of a file's block map before it is looked up. */
  lemma MapOf(v: Volume, ino: nat, index: nat)
    requires Valid(v) && ino in v.nodes
    ensures Shaped(v) && |v.disk| == |v.free| <= WORD
    ensures 0 in v.meta && forall b :: b in v.meta ==> InUse(v, b)
    ensures v.nodes[ino].indirect != 0 ==> InUse(v, v.nodes[ino].indirect)
    ensures Place(v, Data(ino, index)) == 0 <==> index >= v.nodes[ino].blocks
  {
    assert Place(v, Table(ino)) == v.nodes[ino].indirect;
  }

  /** The block that growing a file gives it. */
  ghost function GrownBlock(v: Volume, ino: nat): nat
    requires Conserved(v) && ino in v.nodes && v.nodes[ino].blocks < MAXBLOCKS
  {
    TableInUse(v, ino);
    var f := v.nodes[ino];
    if f.blocks < NDIRECT then Lowest(v.free) else SubGrown(v, f.indirect, f.blocks - NDIRECT).3
  }

  lemma {:induction false} GrownBlockPlace(v: Volume, ino: nat)
    requires Conserved(v) && ino in v.nodes && v.nodes[ino].blocks < MAXBLOCKS && Grown(v, ino).0
    ensures Place(Grown(v, ino).1, Data(ino, v.nodes[ino].blocks)) == GrownBlock(v, ino)
  {
    var f := v.nodes[ino];
    if f.blocks >= NDIRECT {
      var j := f.blocks - NDIRECT;
      TableInUse(v, ino);
      SubGrownEntry(v, f.indirect, j);
      hide SubGrown, Entry, Conserved;
    }
  }

  lemma {:induction false} SubGrownEntry(v: Volume, entp: nat, j: nat)
    requires |v.disk| == |v.free| <= WORD && entp < |v.disk| && j < NENTRY
    requires 0 in v.meta && forall b :: b in v.meta ==> InUse(v, b)
    ensures var (ok, w, ent, b) := SubGrown(v, entp, j);
      ok ==> 0 < ent < |w.disk| && Entry(w.disk[ent], j) == b
  {
    hide Entry, PutEntry;
    var (ok, w, ent, b) := SubGrown(v, entp, j);
    if ok {
      EntryOfPut(if entp == 0 then Zeros(BLKSIZE) else Allocated(v).disk[ent], j, b, j);
    }
  }

  lemma {:induction false} AllocatedShaped(v: Volume)
    requires Shaped(v) && Lowest(v.free) < |v.free|
    ensures Shaped(Allocated(v))
  {
    CountUpdate(v.free, Lowest(v.free), false);
  }

  // ----- Files as flat byte sequences -----

  /** The bytes of a file. */
  function File(v: Volume, ino: nat): (s: seq<Byte>)
    requires ino in v.nodes && Covered(v.nodes[ino])
    ensures |s| == v.nodes[ino].size
  {
    Contents(v, ino)[..v.nodes[ino].size]
  }

  /**
   A write of data inside or at the end of a file replaces exactly the bytes it covers, extends the
   file as needed, and leaves every other file alone. It holds for what got through when there is no room left.
   */
  lemma WriteIsFlat(v: Volume, w: Volume, ino: nat, offset: nat, data: seq<Byte>, size: nat)
    requires ino in v.nodes && Covered(v.nodes[ino]) && offset <= v.nodes[ino].size
    requires Rewritten(v, w, ino, offset, data, size) && size == Max(v.nodes[ino].size, offset + |data|)
    ensures ino in w.nodes && Covered(w.nodes[ino])
    ensures var end := offset + |data|;
      File(w, ino) == File(v, ino)[..offset] + data + (if end < v.nodes[ino].size then File(v, ino)[end..] else [])
    ensures forall i :: i in v.nodes && i != ino && Covered(v.nodes[i]) ==>
      i in w.nodes && Covered(w.nodes[i]) && File(w, i) == File(v, i)
  {
    hide Place, Conserved, Filled;
    var c, n, end := Contents(v, ino), v.nodes[ino].size, offset + |data|;
    WrittenFile(c, n, offset, data);
    if end < n {
      assert c[..n][end..] == c[end..n];
    }
    assert c[..n][..offset] == c[..offset];
  }

  /** A read yields the bytes of the file from offset up to the end of the range or of the file. */
  lemma ReadIsFlat(v: Volume, ino: nat, offset: nat, len: nat, before: seq<Byte>, after: seq<Byte>)
    requires Valid(v) && ino in v.nodes && Covered(v.nodes[ino])
    requires len < WORD && offset < 0x8000_0000 && !Refused(offset, len)
    requires ReadOut(v, ino, offset, Max(offset, Min(Limit(offset, len), v.nodes[ino].size)) - offset, before, after)
    ensures var end := Min(offset + len, v.nodes[ino].size);
      if offset >= end then after == before
      else end - offset <= |before| && after == File(v, ino)[offset..end] + before[end - offset..]
  {
    hide Place;
    RefusedWhen(offset, len);
    var n := v.nodes[ino].size;
    BlocksBound(v, ino);
    var end := Min(offset + len, n);
    if offset < end {
      assert Contents(v, ino)[..n][offset..end] == Contents(v, ino)[offset..end];
    }
  }

  /**
   After a write a file still has exactly the blocks that its size needs, except in one case: the write
   is to start beyond the last block, and there is no room for a next one. Then the size is moved all the same.
   alen bytes of data got through.
   */
  lemma WriteStaysExact(v: Volume, w: Volume, ino: nat, offset: nat, data: seq<Byte>, alen: nat)
    requires ino in v.nodes && Exact(v.nodes[ino]) && offset / BLKSIZE <= v.nodes[ino].blocks && alen <= |data|
    requires alen > 0 <==> Roomy(v, ino, offset / BLKSIZE)
    requires Wrote(v, w, ino, offset, data[..alen], Max(v.nodes[ino].size, offset + alen))
    ensures ino in w.nodes
    ensures var f := v.nodes[ino];
      && (Exact(w.nodes[ino]) <==> offset <= f.blocks * BLKSIZE || v.unused >= Cost(f))
      && (Covered(w.nodes[ino]) <==> offset <= f.blocks * BLKSIZE || v.unused >= Cost(f))
  {
    hide Place, Conserved, Filled, Cost;
    var n, end := v.nodes[ino].size, offset + alen;
    if n <= end { RoundUpMonotone(n, end); } else { RoundUpMonotone(end, n); }
    assert |Contents(w, ino)| == w.nodes[ino].blocks * BLKSIZE;
  }

  /** The case in which it goes wrong: a full volume, an empty file, and a write of a byte at byte 1. */
  method SizeBeyondBlocks() returns (ret: Ret, alen: nat, f: Inode)
    ensures Valid(Fresh(3)) && Exact(Fresh(3).nodes[1])
    ensures ret == NoMemory && alen == 0 && f.size == 1 && f.blocks == 0 && !Covered(f)
  {
    hide Valid, OthersKept;
    FreshValid(3);
    FreshUnused(3);
    var s := new Sfs(Fresh(3));
    var buf := new Byte[1];
    ret, alen := s.Io(1, buf, 1, 1, true);
    f := s.nodes[1];
  }

  /**
   sfs_truncfile succeeds exactly if there is room for all the blocks it has to add, and leaves a file with
   exactly the blocks that its size needs, except when there is room for the first of them and not for all.
   */
  lemma {:induction false} TruncateStaysExact(v: Volume, ino: nat, len: nat)
    requires Valid(v) && ino in v.nodes && v.nodes[ino].blocks <= RoundUp(len) / BLKSIZE <= MAXBLOCKS
    ensures var (ok, w) := Enlarged(v, ino, RoundUp(len) / BLKSIZE);
      var f, need := v.nodes[ino], Spent(v.nodes[ino], RoundUp(len) / BLKSIZE);
      && (ok <==> v.unused >= need)
      && ino in w.nodes
      && var g := if ok then w.nodes[ino].(size := len) else w.nodes[ino];
         Exact(f) ==> (Exact(g) <==> !(Cost(f) <= v.unused < need))
  {
    hide Conserved, Filled, Enlarged, Cost;
    EnlargedMeaning(v, ino, RoundUp(len) / BLKSIZE);
    UnusedCounts(v);
  }

  /** The case in which it goes wrong: room for one block, an empty file, and an extension to two blocks. */
  method BlocksBeyondSize() returns (ret: Ret, f: Inode)
    ensures Valid(Fresh(4)) && Exact(Fresh(4).nodes[1])
    ensures ret == NoMemory && f.size == 0 && f.blocks == 1 && !Exact(f)
  {
    hide Valid, Contents, OthersKept;
    FreshValid(4);
    FreshUnused(4);
    var s := new Sfs(Fresh(4));
    ret := s.Truncate(1, 2 * BLKSIZE);
    f := s.nodes[1];
  }

  /** Cutting a file keeps its front; extending it keeps all of it, and adds zeros beyond the last block it had. */
  lemma TruncateIsFlat(v: Volume, w: Volume, ino: nat, n: nat, len: nat)
    requires ino in v.nodes && Covered(v.nodes[ino])
    requires Truncated(v, w, ino, n, len) && n * BLKSIZE == RoundUp(len)
    ensures ino in w.nodes && Covered(w.nodes[ino])
    ensures len <= v.nodes[ino].size ==> File(w, ino) == File(v, ino)[..len]
    ensures len > v.nodes[ino].size ==>
      && File(w, ino)[..v.nodes[ino].size] == File(v, ino)
      && forall i :: v.nodes[ino].blocks * BLKSIZE <= i < len ==> File(w, ino)[i] == 0
  {
    hide Place, Conserved, Filled;
  }
}
