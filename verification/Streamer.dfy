/** Reading bytes at any position of a disk that is only readable in sectors. */
module Streamer {
  import opened Bits

  const SECTOR_SIZE: int := 512

  /** Positions are C ints. */
  const INT_LIMIT: int := 0x8000_0000

  /** A disk image: the byte at each position. */
  type Disk = int -> u8

  /** `n` consecutive bytes of a disk. */
  function Bytes(disk: Disk, pos: int, n: nat): (s: seq<u8>)
    ensures |s| == n
  {
    seq(n, i => disk(pos + i))
  }

  /** What lies on the stack behind the one-sector buffer of a round that reads
      at a position; nothing is known about it. */
  type Tail = (int, nat) -> u8

  /** Byte `i` of the sector of `pos`, counted from `pos`, as the code gets it:
      past the sector it reads on behind its buffer. */
  function BufferByte(disk: Disk, tail: Tail, pos: int, i: nat): u8 {
    var k := pos % SECTOR_SIZE + i;
    if k < SECTOR_SIZE then disk(pos + i) else tail(pos, k - SECTOR_SIZE)
  }

  /** One round of a read. */
  function Round(disk: Disk, tail: Tail, pos: int, n: nat): (s: seq<u8>)
    ensures |s| == n
  {
    seq(n, i requires i >= 0 => BufferByte(disk, tail, pos, i))
  }

  /** What `diskstreamer_read` copies out, sector by sector. */
  function Streamed(disk: Disk, tail: Tail, pos: int, total: nat): (s: seq<u8>)
    ensures |s| == total
    decreases total
  {
    if total > SECTOR_SIZE
    then Round(disk, tail, pos, SECTOR_SIZE) + Streamed(disk, tail, pos + SECTOR_SIZE, total - SECTOR_SIZE)
    else Round(disk, tail, pos, total)
  }

  /** What `diskstreamer_read` needs so that, in every round, the bytes it
      copies lie inside its one-sector buffer. */
  predicate InBuffer(pos: int, total: nat)
    decreases total
  {
    && pos % SECTOR_SIZE + (if total > SECTOR_SIZE then SECTOR_SIZE else total) <= SECTOR_SIZE
    && (total > SECTOR_SIZE ==> InBuffer(pos + SECTOR_SIZE, total - SECTOR_SIZE))
  }

  /** That is: the position starts a sector, or the whole read lies inside one. */
  lemma {:induction false} InBufferIff(pos: int, total: nat)
    ensures InBuffer(pos, total) <==> pos % SECTOR_SIZE == 0 || pos % SECTOR_SIZE + total <= SECTOR_SIZE
    decreases total
  {
    if total > SECTOR_SIZE {
      InBufferIff(pos + SECTOR_SIZE, total - SECTOR_SIZE);
    }
  }

  /** Then it copies the bytes of the disk. */
  lemma {:induction false} InBufferStreams(disk: Disk, tail: Tail, pos: int, total: nat)
    requires InBuffer(pos, total)
    ensures Streamed(disk, tail, pos, total) == Bytes(disk, pos, total)
    decreases total
  {
    if total > SECTOR_SIZE {
      InBufferStreams(disk, tail, pos + SECTOR_SIZE, total - SECTOR_SIZE);
      BytesSplit(disk, pos, SECTOR_SIZE, total - SECTOR_SIZE);
    }
  }

  /** Otherwise the first byte behind the first sector is one of the stack. */
  lemma StreamLeavesBuffer(disk: Disk, tail: Tail, pos: int, total: nat)
    requires !InBuffer(pos, total)
    ensures var at := SECTOR_SIZE - pos % SECTOR_SIZE;
            0 < at < SECTOR_SIZE && at < total && Streamed(disk, tail, pos, total)[at] == tail(pos, 0)
  {
    InBufferIff(pos, total);
    var n := if total > SECTOR_SIZE then SECTOR_SIZE else total;
    assert Round(disk, tail, pos, n)[SECTOR_SIZE - pos % SECTOR_SIZE] == tail(pos, 0);
  }

  /** A read delivers the bytes of the disk, whatever lies on the stack, if and
      only if it starts a sector or lies inside one. */
  lemma StreamsBytesIff(pos: int, total: nat)
    ensures (forall disk: Disk, tail: Tail :: Streamed(disk, tail, pos, total) == Bytes(disk, pos, total))
            <==> pos % SECTOR_SIZE == 0 || pos % SECTOR_SIZE + total <= SECTOR_SIZE
  {
    hide InBuffer, Streamed;
    InBufferIff(pos, total);
    if InBuffer(pos, total) {
      forall disk: Disk, tail: Tail
        ensures Streamed(disk, tail, pos, total) == Bytes(disk, pos, total)
      {
        InBufferStreams(disk, tail, pos, total);
      }
    } else {
      var disk: Disk, tail: Tail := (p: int) => 0, (p: int, k: nat) => 1;
      StreamLeavesBuffer(disk, tail, pos, total);
      var at := SECTOR_SIZE - pos % SECTOR_SIZE;
      assert Bytes(disk, pos, total)[at] == 0 != Streamed(disk, tail, pos, total)[at];
    }
  }

  /** `s` with `bytes` written over it from index `at` on. */
  function Overwrite(s: seq<u8>, at: nat, bytes: seq<u8>): (r: seq<u8>)
    requires at + |bytes| <= |s|
    ensures |r| == |s|
  {
    s[..at] + bytes + s[at + |bytes|..]
  }

  lemma OverwriteTwice(s: seq<u8>, at: nat, a: seq<u8>, b: seq<u8>)
    requires at + |a| + |b| <= |s|
    ensures Overwrite(Overwrite(s, at, a), at + |a|, b) == Overwrite(s, at, a + b)
  {
  }

  lemma OverwriteSnoc(s: seq<u8>, at: nat, bytes: seq<u8>, b: u8)
    requires at + |bytes| < |s|
    ensures Overwrite(s, at, bytes)[at + |bytes| := b] == Overwrite(s, at, bytes + [b])
  {
  }

  lemma OverwriteStep(s: seq<u8>, at: nat, disk: Disk, tail: Tail, pos: int, i: nat)
    requires at + i < |s|
    ensures Overwrite(s, at, Round(disk, tail, pos, i))[at + i := BufferByte(disk, tail, pos, i)]
            == Overwrite(s, at, Round(disk, tail, pos, i + 1))
  {
  }

  lemma BytesSplit(disk: Disk, pos: int, a: nat, b: nat)
    ensures Bytes(disk, pos, a) + Bytes(disk, pos + a, b) == Bytes(disk, pos, a + b)
  {
  }

  class DiskStream {
    const disk: Disk
    const tail: Tail
    var pos: int

    constructor (disk: Disk, tail: Tail)
      ensures this.disk == disk && this.tail == tail && pos == 0
    {
      this.disk := disk;
      this.tail := tail;
      pos := 0;
    }

    /** `diskstreamer_seek`. */
    method Seek(pos: int) returns (res: int)
      modifies this`pos
      ensures res == 0 && this.pos == pos
    {
      this.pos := pos;
      res := 0;
    }

    /** `diskstreamer_read`: sector by sector, recursively, into `out` from
        index `at` on. Memory behind the local buffer follows it in `buf`. */
    method Read(out: array<u8>, at: nat, total: nat) returns (res: int)
      requires pos >= 0 && pos + total < INT_LIMIT && at + total <= out.Length
      modifies this`pos, out
      ensures res == 0 && pos == old(pos) + total
      ensures out[..] == Overwrite(old(out[..]), at, Streamed(disk, tail, old(pos), total))
      ensures InBuffer(old(pos), total) ==> out[..] == Overwrite(old(out[..]), at, Bytes(disk, old(pos), total))
      decreases total
    {
      hide Overwrite, Bytes, InBuffer, Round;
      ghost var s := out[..];
      var start: nat := pos;
      var sector, offset := start / SECTOR_SIZE, start % SECTOR_SIZE;
      var buf := new u8[2 * SECTOR_SIZE](i requires i >= 0 =>
        if i < SECTOR_SIZE then disk(sector * SECTOR_SIZE + i) else tail(start, i - SECTOR_SIZE));
      var totalToRead := if total > SECTOR_SIZE then SECTOR_SIZE else total;
      OverwriteNothing(s, at, disk, tail, start);
      for i := 0 to totalToRead
        modifies out
        invariant out[..] == Overwrite(s, at, Round(disk, tail, start, i))
      {
        OverwriteStep(s, at, disk, tail, start, i);
        ghost var before := out[..];
        out[at + i] := buf[offset + i];
        assert buf[offset + i] == BufferByte(disk, tail, start, i);
        assert out[..] == before[at + i := BufferByte(disk, tail, start, i)];
      }
      pos := pos + totalToRead;
      res := 0;
      if total > SECTOR_SIZE {
        OverwriteTwice(s, at, Round(disk, tail, start, SECTOR_SIZE), Streamed(disk, tail, pos, total - SECTOR_SIZE));
        res := Read(out, at + totalToRead, total - SECTOR_SIZE);
      }
      assert InBuffer(start, total) ==> Streamed(disk, tail, start, total) == Bytes(disk, start, total) by {
        if InBuffer(start, total) {
          InBufferStreams(disk, tail, start, total);
        }
      }
    }
  }

  lemma OverwriteNothing(s: seq<u8>, at: nat, disk: Disk, tail: Tail, pos: nat)
    requires at <= |s|
    ensures Overwrite(s, at, Round(disk, tail, pos, 0)) == s
  {
  }
}
