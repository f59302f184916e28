/** Files as flat byte sequences: what a block-wise write amounts to. */
module SfsFlat {
  import opened SfsBlocks

  /** n rounded up to whole blocks. */
  function RoundUp(n: nat): (r: nat)
    ensures r % BLKSIZE == 0
    ensures n <= r < n + BLKSIZE
  {
    (n + BLKSIZE - 1) / BLKSIZE * BLKSIZE
  }

  /** s extended with zeros to at least n bytes. */
  function PadTo(s: seq<Byte>, n: nat): (r: seq<Byte>)
    ensures |r| == if n <= |s| then |s| else n
    ensures forall i :: 0 <= i < |s| ==> r[i] == s[i]
    ensures forall i :: |s| <= i < |r| ==> r[i] == 0
  {
    if n <= |s| then s else s + Zeros(n - |s|)
  }

  /** What a file's blocks hold after data was written at offset: whole zero blocks are added as needed. */
  function Written(s: seq<Byte>, offset: nat, data: seq<Byte>): seq<Byte> {
    if data == [] then s else Overwrite(PadTo(s, RoundUp(offset + |data|)), offset, data)
  }

  lemma RoundUpInside(k: nat, at: nat)
    requires 0 < at <= BLKSIZE
    ensures RoundUp(k * BLKSIZE + at) == (k + 1) * BLKSIZE
  {
  }

  lemma RoundUpMonotone(m: nat, n: nat)
    requires m <= n
    ensures RoundUp(m) <= RoundUp(n)
  {
  }

  lemma WrittenBytes(s: seq<Byte>, offset: nat, data: seq<Byte>)
    ensures var w, end := Written(s, offset, data), offset + |data|;
      && |w| == (if data == [] || RoundUp(end) <= |s| then |s| else RoundUp(end))
      && forall i :: 0 <= i < |w| ==>
           w[i] == if offset <= i < end then data[i - offset] else if i < |s| then s[i] else 0
  {
  }

  /** Writing on within block k is one longer write. */
  lemma WrittenNext(s: seq<Byte>, offset: nat, done: seq<Byte>, k: nat, at: nat, next: seq<Byte>)
    requires |s| % BLKSIZE == 0
    requires offset + |done| == k * BLKSIZE + at && at + |next| <= BLKSIZE && |next| > 0
    ensures var cur := Written(s, offset, done);
      k * BLKSIZE <= |cur| ==>
        Overwrite(PadTo(cur, (k + 1) * BLKSIZE), k * BLKSIZE + at, next) == Written(s, offset, done + next)
  {
    hide Written, RoundUp;
    var cur, pos := Written(s, offset, done), offset + |done|;
    RoundUpInside(k, at + |next|);
    RoundUpMonotone(pos, pos + |next|);
    WrittenBytes(s, offset, done);
    WrittenBytes(s, offset, done + next);
    if k * BLKSIZE <= |cur| {
      var l, r := Overwrite(PadTo(cur, (k + 1) * BLKSIZE), pos, next), Written(s, offset, done + next);
      assert |l| == |r|;
      assert forall i :: 0 <= i < |l| ==> l[i] == r[i];
    }
  }

  /** A write that starts inside the file, seen on the file: data replaces what was there, and the file grows as needed. */
  lemma WrittenFile(s: seq<Byte>, size: nat, offset: nat, data: seq<Byte>)
    requires size <= |s| && offset <= size
    ensures var w, end := Written(s, offset, data), offset + |data|;
      && |w| >= end && |w| >= size
      && w[..if end > size then end else size] == s[..offset] + data + (if end < size then s[end..size] else [])
  {
    hide Written, Overwrite, PadTo;
    var w, end := Written(s, offset, data), offset + |data|;
    WrittenBytes(s, offset, data);
    if end < size {
      assert w[..size] == s[..offset] + data + s[end..size];
    } else {
      assert w[..end] == s[..offset] + data;
    }
  }
}
