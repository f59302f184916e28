/** Disk blocks of the Simple File System, and the 32-bit entries of an indirect block. */
module SfsBlocks {
  import opened Words

  const BLKSIZE: nat := 4096
  const NENTRY: nat := 1024

  type Byte = b: int | 0 <= b < 256

  function Zeros(n: nat): (s: seq<Byte>)
    ensures |s| == n
    ensures forall i :: 0 <= i < n ==> s[i] == 0
  {
    seq(n, (i: nat) => 0)
  }

  type Block = s: seq<Byte> | |s| == BLKSIZE witness Zeros(BLKSIZE)

  /** s with data copied over it from position at on. */
  function Overwrite(s: seq<Byte>, at: nat, data: seq<Byte>): (r: seq<Byte>)
    requires at + |data| <= |s|
    ensures |r| == |s|
    ensures forall i :: 0 <= i < |s| ==> r[i] == if at <= i < at + |data| then data[i - at] else s[i]
  {
    s[..at] + data + s[at + |data|..]
  }

  /** The four bytes of a word, lowest first. */
  function Encode(n: nat): (s: seq<Byte>)
    requires n < WORD
    ensures |s| == 4
  {
    [n % 256, n / 256 % 256, n / 65536 % 256, n / 16777216]
  }

  function Decode(s: seq<Byte>): (n: nat)
    requires |s| == 4
    ensures n < WORD
  {
    s[0] as int + 256 * s[1] as int + 65536 * s[2] as int + 16777216 * s[3] as int
  }

  lemma DecodeEncode(n: nat)
    requires n < WORD
    ensures Decode(Encode(n)) == n
  {
    var a, b := n / 256, n / 65536;
    assert a / 256 == b;
    assert b / 256 == n / 16777216;
  }

  /** Entry j of an indirect block. */
  function Entry(block: Block, j: nat): (n: nat)
    requires j < NENTRY
    ensures n < WORD
  {
    Decode(block[4 * j..4 * j + 4])
  }

  function PutEntry(block: Block, j: nat, n: nat): Block
    requires j < NENTRY && n < WORD
  {
    Overwrite(block, 4 * j, Encode(n))
  }

  lemma EntryOfPut(block: Block, j: nat, n: nat, i: nat)
    requires j < NENTRY && i < NENTRY && n < WORD
    ensures Entry(PutEntry(block, j, n), i) == if i == j then n else Entry(block, i)
  {
    var put := PutEntry(block, j, n);
    if i == j {
      assert put[4 * i..4 * i + 4] == Encode(n);
      DecodeEncode(n);
    } else {
      assert put[4 * i..4 * i + 4] == block[4 * i..4 * i + 4];
    }
  }
}
