/** Reading a range of a file, block by block, out of its extents. */
module ReadFile {

  import opened Basics

  /** File blocks [startoff, startoff + count) are at disk blocks from startblock on. */
  datatype Extent = Extent(startoff: nat, startblock: nat, count: nat) {
    predicate Covers(block: nat) { startoff <= block < startoff + count }

    function Place(block: nat): nat
      requires Covers(block)
    {
      startblock + (block - startoff)
    }
  }

  /** A file system: its block size, and the blocks that can be read. */
  datatype Disk = Disk(bs: nat, blocks: map<nat, seq<Byte>>) {
    ghost predicate Valid() { bs > 0 && forall b <- blocks :: |blocks[b]| == bs }
  }

  datatype Format = Extents | Btree | Other

  datatype File = File(regular: bool, format: Format, size: nat, extents: seq<Extent>, ireadError: int)

  /** Errors are negative, unlike counts. */
  const EIO := -5
  const EINVAL := -22

  /** The block of a byte position. */
  function BlockOf(bs: nat, pos: nat): (k: nat)
    requires bs > 0
    ensures k * bs <= pos < k * bs + bs
  {
    pos / bs
  }

  predicate CanRead(disk: Disk, e: Extent, k: nat) { e.startblock + k in disk.blocks }

  /** A byte of an extent. */
  function ExtentByte(disk: Disk, e: Extent, pos: nat): Byte
    requires disk.bs > 0 && e.Covers(BlockOf(disk.bs, pos))
  {
    var b := e.Place(BlockOf(disk.bs, pos));
    if b in disk.blocks && pos % disk.bs < |disk.blocks[b]| then disk.blocks[b][pos % disk.bs] else 0
  }

  /** The flat view of a file: the byte of the last extent that covers a position, zero in a hole. */
  function FileByte(disk: Disk, extents: seq<Extent>, pos: nat): Byte
    requires disk.bs > 0
  {
    if extents == [] then 0
    else
      var e := extents[|extents| - 1];
      if e.Covers(BlockOf(disk.bs, pos)) then ExtentByte(disk, e, pos)
        else FileByte(disk, extents[..|extents| - 1], pos)
  }

  /** The bytes of the buffer for the range from offset, len of them inside the file. */
  function View(disk: Disk, extents: seq<Extent>, offset: nat, len: nat): (v: seq<Byte>)
    requires disk.bs > 0
    ensures |v| == len
  {
    seq<Byte>(len, i requires 0 <= i < len => FileByte(disk, extents, offset + i))
  }

  /** Every block of the extent with a byte in the range can be read. */
  ghost predicate Readable(disk: Disk, e: Extent, offset: nat, len: nat)
    requires disk.bs > 0
  {
    forall pos: nat :: offset <= pos < offset + len && e.Covers(BlockOf(disk.bs, pos)) ==>
      CanRead(disk, e, BlockOf(disk.bs, pos) - e.startoff)
  }

  ghost predicate AllReadable(disk: Disk, extents: seq<Extent>, offset: nat, len: nat)
    requires disk.bs > 0
  {
    forall e <- extents :: Readable(disk, e, offset, len)
  }

  /** How many bytes of a range the file has; a negative offset is not counted from. */
  function Clip(size: nat, offset: int, len: nat): nat {
    if offset >= size then 0 else if offset + len > size then size - offset else len
  }

  /** A position in a block of an extent that cannot be read. */
  ghost predicate BadAt(disk: Disk, extents: seq<Extent>, pos: nat)
    requires disk.bs > 0
  {
    exists e <- extents :: e.Covers(BlockOf(disk.bs, pos)) && !CanRead(disk, e, BlockOf(disk.bs, pos) - e.startoff)
  }

  lemma AllReadableIff(disk: Disk, extents: seq<Extent>, offset: nat, len: nat)
    requires disk.bs > 0
    ensures AllReadable(disk, extents, offset, len) <==>
            forall pos: nat :: offset <= pos < offset + len ==> !BadAt(disk, extents, pos)
  {
    hide BlockOf, CanRead;
    if !AllReadable(disk, extents, offset, len) {
      var e :| e in extents && !Readable(disk, e, offset, len);
      var pos: nat :| offset <= pos < offset + len && e.Covers(BlockOf(disk.bs, pos))
                      && !CanRead(disk, e, BlockOf(disk.bs, pos) - e.startoff);
      assert BadAt(disk, extents, pos);
    }
  }

  /** A position between the start of a block and the start of the next is in that block. */
  lemma InBlock(pos: nat, k: nat, bs: nat)
    requires bs > 0
    ensures k * bs <= pos < k * bs + bs <==> BlockOf(bs, pos) == k
    ensures pos < k * bs <==> BlockOf(bs, pos) < k
    ensures BlockOf(bs, pos) == k ==> pos % bs == pos - k * bs
  {
    var q := BlockOf(bs, pos);
    if q < k { Row(q, k, bs); } else if k < q { Row(k, q, bs); }
  }

  /** The extent overlaps the range, by the program's two tests. */
  predicate Overlaps(bs: nat, e: Extent, offset: nat, len: nat) {
    var start, size := e.startoff * bs, e.count * bs;
    (start <= offset && offset < start + size) || (offset <= start && start < offset + len)
  }

  const U63 := 0x8000_0000_0000_0000

  /** Sizes are unsigned, so an offset is taken as unsigned too. */
  function Unsigned(x: int): int { if x < 0 then x + 2 * U63 else x }

  lemma UnsignedIs(x: int)
    requires -0x8000_0000_0000_0000 <= x < 0x8000_0000_0000_0000
    ensures 0 <= Unsigned(x) < 0x1_0000_0000_0000_0000 && (Unsigned(x) - x) % 0x1_0000_0000_0000_0000 == 0
  {}

  /** The two tests as they are made, of an offset that may be negative. */
  predicate OverlapsBuffer(bs: nat, e: Extent, offset: int, len: nat) {
    var start, size, from, end := e.startoff * bs, e.count * bs, Unsigned(offset), Unsigned(offset + len);
    (start <= from && from < start + size) || (from <= start && start < end)
  }

  /** An offset before the file is taken for one behind every extent. */
  lemma BeforeFile(bs: nat, e: Extent, offset: int, len: nat)
    ensures offset >= 0 ==> OverlapsBuffer(bs, e, offset, len) == Overlaps(bs, e, offset, len)
    ensures -U63 < offset < 0 <= offset + len && (e.startoff + e.count) * bs <= U63 ==>
              !OverlapsBuffer(bs, e, offset, len)
  {
    Blocks(e, bs, e.count);
  }

  /** No extent goes past the largest size of a file. */
  predicate Bounded(disk: Disk, extents: seq<Extent>) {
    forall e <- extents :: (e.startoff + e.count) * disk.bs <= U63
  }

  lemma OverlapsAt(bs: nat, e: Extent, offset: nat, len: nat, pos: nat)
    requires bs > 0 && offset <= pos < offset + len
    ensures e.Covers(BlockOf(bs, pos)) ==> Overlaps(bs, e, offset, len)
  {
    hide BlockOf;
    if e.Covers(BlockOf(bs, pos)) {
      var k := BlockOf(bs, pos) - e.startoff;
      InBlock(pos, BlockOf(bs, pos), bs);
      Blocks(e, bs, k);
      Row(k, e.count, bs);
    }
  }

  /** An extent passes the tests if and only if it has a byte in the range. */
  lemma OverlapsIff(bs: nat, e: Extent, offset: nat, len: nat)
    requires bs > 0 && len > 0 && e.count > 0
    ensures Overlaps(bs, e, offset, len) <==>
            exists pos: nat :: offset <= pos < offset + len && e.Covers(BlockOf(bs, pos))
  {
    hide BlockOf;
    if Overlaps(bs, e, offset, len) {
      var pos := if e.startoff * bs <= offset then offset else e.startoff * bs;
      StartCovered(bs, e, pos);
    }
    if pos: nat :| offset <= pos < offset + len && e.Covers(BlockOf(bs, pos)) {
      OverlapsAt(bs, e, offset, len, pos);
    }
  }

  lemma StartCovered(bs: nat, e: Extent, pos: nat)
    requires bs > 0 && e.startoff * bs <= pos && (pos < e.startoff * bs + e.count * bs || pos == e.startoff * bs)
    requires e.count > 0
    ensures e.Covers(BlockOf(bs, pos))
  {
    hide BlockOf;
    InBlock(pos, e.startoff, bs);
    InBlock(pos, e.startoff + e.count, bs);
    Blocks(e, bs, e.count);
    Row(e.startoff, e.startoff + e.count, bs);
  }

  lemma Blocks(e: Extent, bs: nat, k: nat)
    ensures (e.startoff + k) * bs == e.startoff * bs + k * bs
  {}

  /** Where the copying of an extent stands when its first k blocks are done. */
  function Position(bs: nat, e: Extent, offset: nat, k: nat): nat {
    if (e.startoff + k) * bs <= offset then 0 else (e.startoff + k) * bs - offset
  }

  /** A byte of the buffer when the first k blocks of the extent are copied. */
  function Expected(disk: Disk, e: Extent, offset: nat, k: nat, was: seq<Byte>, i: nat): Byte
    requires disk.bs > 0 && i < |was|
  {
    var block := BlockOf(disk.bs, offset + i);
    if e.Covers(block) && block < e.startoff + k then ExtentByte(disk, e, offset + i) else was[i]
  }

  ghost predicate Copied(disk: Disk, e: Extent, offset: nat, len: nat, k: nat, was: seq<Byte>, now: seq<Byte>)
    requires disk.bs > 0
  {
    && |now| == |was| >= len
    && (forall i: nat :: i < len ==> now[i] == Expected(disk, e, offset, k, was, i))
    && (forall i: nat :: len <= i < |was| ==> now[i] == was[i])
  }

  /** One block, copied: the part of it that is in the range. */
  lemma CopyStep(disk: Disk, e: Extent, offset: nat, len: nat, k: nat, was: seq<Byte>, now: seq<Byte>, next: seq<Byte>)
    requires disk.Valid() && k < e.count && CanRead(disk, e, k)
    requires Copied(disk, e, offset, len, k, was, now) && |next| == |now|
    requires forall i: nat ::
               i < len && (e.startoff + k) * disk.bs <= offset + i < (e.startoff + k) * disk.bs + disk.bs ==>
               next[i] == disk.blocks[e.startblock + k][offset + i - (e.startoff + k) * disk.bs]
    requires forall i: nat ::
               i < |now| &&
               !(i < len && (e.startoff + k) * disk.bs <= offset + i < (e.startoff + k) * disk.bs + disk.bs) ==>
               next[i] == now[i]
    ensures Copied(disk, e, offset, len, k + 1, was, next)
  {
    forall i: nat | i < len ensures next[i] == Expected(disk, e, offset, k + 1, was, i) {
      InBlock(offset + i, e.startoff + k, disk.bs);
    }
  }

  class Reader {
    const disk: Disk

    constructor (disk: Disk)
      ensures this.disk == disk
    {
      this.disk := disk;
    }

    /** One block of an extent, from where the buffer pointer is; false if it cannot be read. */
    method CopyBlock(rec: Extent, block: nat, buffer: array<Byte>, at: nat, offset: nat, len: nat)
      returns (ok: bool, at': nat)
      requires disk.Valid() && block < rec.count && len <= buffer.Length
      requires at == Position(disk.bs, rec, offset, block)
      requires offset < (rec.startoff + block) * disk.bs + disk.bs && (rec.startoff + block) * disk.bs < offset + len
      modifies buffer
      ensures ok <==> rec.startblock + block in disk.blocks
      ensures !ok ==> buffer[..] == old(buffer[..])
      ensures ok && (rec.startoff + block) * disk.bs + disk.bs <= offset + len ==>
              at' == Position(disk.bs, rec, offset, block + 1)
      ensures var from := (rec.startoff + block) * disk.bs;
              ok ==>
                && (forall i: nat :: i < len && from <= offset + i < from + disk.bs ==>
                      buffer[i] == disk.blocks[rec.startblock + block][offset + i - from])
                && (forall i: nat :: i < buffer.Length && !(i < len && from <= offset + i < from + disk.bs) ==>
                      buffer[i] == old(buffer[i]))
    {
      var size := disk.bs;
      var blockStart := (rec.startoff + block) * size;
      at' := at;
      ok := rec.startblock + block in disk.blocks;
      if !ok { return; }
      var src, from := disk.blocks[rec.startblock + block], 0;
      var copyStart, copyLen := blockStart, size;
      if blockStart < offset {
        copyLen := size + blockStart - offset;
        copyStart := size - copyLen + blockStart;
        from := size - copyLen;
      }
      if blockStart + size > offset + len {
        copyLen := offset + len - copyStart;
      }
      Blocks(rec, size, block);
      Blocks(rec, size, block + 1);
      if copyLen > 0 {
        forall i | 0 <= i < copyLen {
          buffer[at + i] := src[from + i];
        }
        at' := at + copyLen;
      }
    }

    /** copy_extent_to_buffer: zero, or EIO if a block of the extent in the range cannot be read. */
    method CopyExtent(rec: Extent, buffer: array<Byte>, offset: nat, len: nat) returns (error: int)
      requires disk.Valid() && 0 < len <= buffer.Length && Overlaps(disk.bs, rec, offset, len)
      modifies buffer
      ensures error == if Readable(disk, rec, offset, len) then 0 else EIO
      ensures error == 0 ==> Copied(disk, rec, offset, len, rec.count, old(buffer[..]), buffer[..])
      ensures forall i: nat :: len <= i < buffer.Length ==> buffer[i] == old(buffer[i])
    {
      hide Copied, Readable, Position, BlockOf, Overlaps;
      var bs, extentStart := disk.bs, rec.startoff * disk.bs;
      var at, start: nat := 0, 0;
      if offset >= extentStart {
        start := BlockOf(bs, offset - extentStart);
      } else {
        at := extentStart - offset;
      }
      BlockRange(bs, rec, offset, len);
      var last := BlockOf(bs, offset + len - extentStart - 1) + 1;
      var end := if rec.count < last then rec.count else last;
      PositionStart(bs, rec, offset, len);
      ghost var was := buffer[..];
      CopiedStart(disk, rec, offset, len, start, was);
      var block := start;
      while block < end
        invariant start <= block <= end
        invariant forall b: nat :: start <= b < block ==> CanRead(disk, rec, b)
        invariant block < end ==> at == Position(bs, rec, offset, block)
        invariant Copied(disk, rec, offset, len, block, was, buffer[..])
        invariant forall i: nat :: len <= i < buffer.Length ==> buffer[i] == was[i]
      {
        InRange(bs, rec, offset, len, block);
        ghost var now := buffer[..];
        var ok;
        ok, at := CopyBlock(rec, block, buffer, at, offset, len);
        if !ok {
          NotReadable(disk, rec, offset, len, block);
          return EIO;
        }
        CopyStep(disk, rec, offset, len, block, was, now, buffer[..]);
        block := block + 1;
      }
      CopiedEnd(disk, rec, offset, len, end, was, buffer[..]);
      IsReadable(disk, rec, offset, len, start, end);
      error := 0;
    }

    /** The loop over the extents: those that overlap the range are copied, in order. */
    method ReadExtents(extents: seq<Extent>, buffer: array<Byte>, offset: int, len: nat) returns (error: int)
      requires disk.Valid() && 0 < len && (offset >= 0 ==> len <= buffer.Length)
      requires offset < 0 ==> -U63 < offset && 0 <= offset + len && Bounded(disk, extents)
      requires offset >= 0 ==> forall i: nat :: i < len ==> buffer[i] == 0
      modifies buffer
      ensures offset < 0 ==> error == 0 && buffer[..] == old(buffer[..])
      ensures offset >= 0 ==> error == if AllReadable(disk, extents, offset, len) then 0 else EIO
      ensures offset >= 0 && error == 0 ==> buffer[..len] == View(disk, extents, offset, len)
      ensures forall i: nat :: len <= i < buffer.Length ==> buffer[i] == old(buffer[i])
    {
      hide Readable, FileByte, Copied, Overlaps, OverlapsBuffer;
      ghost var was := buffer[..];
      if offset >= 0 {
        ViewOfNothing(disk, offset, len);
        assert buffer[..len] == View(disk, extents[..0], offset, len);
      }
      for k := 0 to |extents|
        invariant offset < 0 ==> buffer[..] == was
        invariant offset >= 0 ==> buffer[..len] == View(disk, extents[..k], offset, len)
        invariant forall i: nat :: len <= i < buffer.Length ==> buffer[i] == was[i]
        invariant offset >= 0 ==> forall e <- extents[..k] :: Readable(disk, e, offset, len)
      {
        ghost var before := buffer[..];
        BeforeFile(disk.bs, extents[k], offset, len);
        if OverlapsBuffer(disk.bs, extents[k], offset, len) {
          assert before[..len] == buffer[..len];
          error := CopyExtent(extents[k], buffer, offset, len);
          if error != 0 {
            assert extents[k] in extents;
            return;
          }
          ViewOfCopied(disk, extents, k, offset, len, before, buffer[..]);
          assert buffer[..len] == buffer[..][..len];
        } else if offset >= 0 {
          ViewOfOther(disk, extents, k, offset, len);
        }
        assert extents[..k + 1] == extents[..k] + [extents[k]];
      }
      assert extents[..|extents|] == extents;
      error := 0;
    }

    /** xfs_readfile_extents and, once the extents are in memory, xfs_readfile_btree. */
    method ReadClipped(file: File, buffer: array<Byte>, offset: int, len: nat) returns (r: int)
      requires disk.Valid() && 0 < len <= buffer.Length
      requires offset < 0 ==> -U63 < offset && 0 <= offset + len && Bounded(disk, file.extents)
      requires forall i: nat :: i < len ==> buffer[i] == 0
      modifies buffer
      ensures var n := Clip(file.size, offset, len);
              if offset < 0 then r == n && buffer[..] == old(buffer[..])
              else
                && r == (if AllReadable(disk, file.extents, offset, n) then n else EIO)
                && (AllReadable(disk, file.extents, offset, n) ==> buffer[..n] == View(disk, file.extents, offset, n))
                && forall i: nat :: n <= i < buffer.Length ==> buffer[i] == old(buffer[i])
    {
      hide Readable, FileByte;
      if offset >= 0 { NothingToRead(disk, file.extents, offset); }
      if offset >= file.size { return 0; }
      var n := if offset + len > file.size then file.size - offset else len;
      var error := ReadExtents(file.extents, buffer, offset, n);
      if error != 0 { return error; }
      r := n;
    }

    /**
     * xfs_readfile: as many bytes as the file has in the range, equal to its flat view, and zeros after
     * them up to len. An error is a negative number in place of the count. From a negative offset, which the copy
     * loop comes to after an error, nothing is read, and the range counts as bytes of the file.
     */
    method ReadFile(file: File, buffer: array<Byte>, offset: int, len: nat) returns (r: int)
      requires disk.Valid() && 0 < len <= buffer.Length
      requires offset < 0 && !NeverEnds(file) ==> -U63 < offset && 0 <= offset + len && Bounded(disk, file.extents)
      modifies buffer
      ensures r == ReadResult(disk, file, offset, len)
      ensures offset >= 0 ==>
                var n := Clip(file.size, offset, len);
                && (CanReadAll(disk, file, offset, n) ==> buffer[..n] == View(disk, file.extents, offset, n))
                && forall i: nat :: n <= i < len ==> buffer[i] == 0
      ensures offset < 0 || CannotStart(file, offset) ==> forall i: nat :: i < len ==> buffer[i] == 0
      ensures forall i: nat :: len <= i < buffer.Length ==> buffer[i] == old(buffer[i])
    {
      forall i | 0 <= i < len {
        buffer[i] := 0;
      }
      if !file.regular { return EINVAL; }
      match file.format
      case Extents =>
        r := ReadClipped(file, buffer, offset, len);
      case Btree =>
        if offset >= file.size {
          if offset >= 0 { NothingToRead(disk, file.extents, offset); }
          return 0;
        }
        if file.ireadError != 0 { return file.ireadError; }
        r := ReadClipped(file, buffer, offset, len);
      case Other =>
        r := EIO;
    }

    /**
     * The copy loop of rcopy, where it stops: read, and append what was read, until nothing is. A write with a
     * negative count fails and appends nothing. If all blocks can be read the copy is the file. If its extents
     * cannot be read the number of the error is taken for a count, and the copy is zeros. For a file that is
     * shorter than a chunk, and has a block that cannot be read, it is zeros too, and five bytes longer.
     */
    method CopyFile(file: File, chunk: nat) returns (out: seq<Byte>)
      requires disk.Valid() && 5 <= chunk && Bounded(disk, file.extents) && Stops(disk, file, chunk)
      requires file.format.Btree? ==> file.ireadError <= chunk
      ensures !CannotStart(file, 0) && AllReadable(disk, file.extents, 0, file.size) ==>
                out == View(disk, file.extents, 0, file.size)
      ensures CannotStart(file, 0) ==> |out| >= file.size && forall b <- out :: b == 0
      ensures !CannotStart(file, 0) && !AllReadable(disk, file.extents, 0, file.size) && file.size + 5 <= chunk ==>
                |out| == file.size + 5 && forall b <- out :: b == 0
    {
      hide FileByte, Readable, AllReadable, View, Stops, Bounded;
      StopsIs(disk, file, chunk);
      ghost var whole := AllReadable(disk, file.extents, 0, file.size);
      var buffer := new Byte[chunk](_ => 0);
      var offset, r := 0, 10;
      out := [];
      EmptyView(disk, file.extents);
      NothingToRead(disk, file.extents, 0);
      while r != 0
        invariant offset >= -5 && (r == 0 ==> offset >= file.size) && (offset < 0 ==> file.size > 0)
        invariant whole || CannotStart(file, 0) ==> offset >= 0
        invariant whole && !CannotStart(file, 0) ==>
                    offset <= file.size && out == View(disk, file.extents, 0, offset)
        invariant CannotStart(file, 0) ==> |out| == offset && forall b <- out :: b == 0
        invariant !CannotStart(file, 0) && !whole && file.size + 5 <= chunk ==>
                    (out == [] && (offset == 0 || offset == -5))
                    || (offset == file.size && |out| == file.size + 5 && forall b <- out :: b == 0)
        decreases if r == 0 then 0 else 1, Far(file, offset, chunk), Rounds(file, offset, chunk),
                  Rest(file, offset, chunk)
      {
        var n := Clip(file.size, offset, chunk);
        if offset >= 0 {
          PartReadable(disk, file.extents, offset, n, file.size);
          NothingToRead(disk, file.extents, offset);
        }
        OneTurn(disk, file, offset, chunk);
        r := ReadFile(file, buffer, offset, chunk);
        if r > 0 {
          out := out + buffer[..r];
          if offset >= 0 { ViewConcat(disk, file.extents, offset, n); }
        }
        offset := offset + r;
      }
    }
  }

  /** xfs_readfile fails before it reads a block, because the extents of the file cannot be read. */
  predicate CannotStart(file: File, offset: int) {
    !file.regular || file.format.Other? || (file.format.Btree? && offset < file.size && file.ireadError != 0)
  }

  /** What makes the copy loop go on for ever: a negative result at every offset. */
  predicate NeverEnds(file: File) {
    !file.regular || file.format.Other? || (file.format.Btree? && file.size > 0 && file.ireadError < 0)
  }

  /** What xfs_readfile returns; an offset is negative only after an error. */
  ghost function ReadResult(disk: Disk, file: File, offset: int, len: nat): int
    requires disk.bs > 0
  {
    if !file.regular then EINVAL
    else if file.format.Other? then EIO
    else if file.format.Btree? && offset < file.size && file.ireadError != 0 then file.ireadError
    else if offset >= 0 && !AllReadable(disk, file.extents, offset, Clip(file.size, offset, len)) then EIO
    else Clip(file.size, offset, len)
  }

  /** One turn of the copy loop: the next offset, or None where it stops. */
  ghost function Turn(disk: Disk, file: File, offset: int, chunk: nat): Option<int>
    requires disk.bs > 0
  {
    var r := ReadResult(disk, file, offset, chunk);
    if r == 0 then None else Some(offset + r)
  }

  /** Where the loop is after k turns, unless it has stopped. */
  ghost function Turns(disk: Disk, file: File, offset: int, chunk: nat, k: nat): Option<int>
    requires disk.bs > 0
    decreases k
  {
    if k == 0 then Some(offset)
    else match Turn(disk, file, offset, chunk)
      case None => None
      case Some(next) => Turns(disk, file, next, chunk, k - 1)
  }

  /**
   * How far the loop comes in the first chunk whatever cannot be read there: after an error it goes back five bytes
   * at a time, until it is in front of the file, and from there a whole chunk forward.
   */
  function Reach(chunk: nat): int { if chunk % 5 == 0 then chunk - 5 else chunk - 1 }

  /** No block that cannot be read lies at that distance or behind it. */
  ghost predicate Passable(disk: Disk, file: File, chunk: nat)
    requires disk.bs > 0
  {
    forall pos: nat :: pos < file.size && BadAt(disk, file.extents, pos) ==> pos < Reach(chunk)
  }

  ghost predicate Stops(disk: Disk, file: File, chunk: nat)
    requires disk.bs > 0
  {
    !NeverEnds(file) && (CannotStart(file, 0) || Passable(disk, file, chunk))
  }

  lemma StopsIs(disk: Disk, file: File, chunk: nat)
    requires disk.bs > 0 && Stops(disk, file, chunk)
    ensures !NeverEnds(file)
  {}

  /** Measures of the loop: whether what is left can be read, how often it will go back, and how far it is to go. */
  function Far(file: File, offset: int, chunk: nat): nat {
    if offset >= Reach(chunk) || offset >= file.size || CannotStart(file, 0) then 0 else 1
  }

  /** Modulo five. */
  function Inverse(m: nat): nat { if m == 2 then 3 else if m == 3 then 2 else m }

  function Rounds(file: File, offset: int, chunk: nat): nat {
    if Far(file, offset, chunk) == 0 then 0
    else
      var m := chunk % 5;
      (4 - offset % 5) * Inverse(m) % 5
  }

  function Rest(file: File, offset: int, chunk: nat): nat {
    if Far(file, offset, chunk) == 0 then if offset < file.size then file.size - offset else 0
    else if offset < -5 then 0
    else offset + 5
  }

  /** The turns of the loop come nearer to its end. */
  predicate Nearer(file: File, from: int, next: int, chunk: nat) {
    || Far(file, next, chunk) < Far(file, from, chunk)
    || (Far(file, next, chunk) == Far(file, from, chunk) &&
        (|| Rounds(file, next, chunk) < Rounds(file, from, chunk)
         || (Rounds(file, next, chunk) == Rounds(file, from, chunk) &&
             Rest(file, next, chunk) < Rest(file, from, chunk))))
  }

  /** A chunk forward from in front of the file, there is one round less to go. */
  lemma OneRound(offset: int, chunk: nat)
    requires chunk % 5 != 0 && offset % 5 != 4
    ensures var m := chunk % 5;
            (4 - (offset + chunk) % 5) * Inverse(m) % 5 + 1 == (4 - offset % 5) * Inverse(m) % 5
  {
    var m, r := chunk % 5, offset % 5;
    assert (offset + chunk) % 5 == (r + m) % 5;
    RoundTable(m, r);
  }

  lemma RoundTable(m: nat, r: nat)
    requires 0 < m < 5 && r < 4
    ensures (4 - (r + m) % 5) * Inverse(m) % 5 + 1 == (4 - r) * Inverse(m) % 5
  {
    if m == 1 {
    } else if m == 2 {
    } else if m == 3 {
    }
  }

  /** Five bytes back, the rounds to go are the same. */
  lemma SameRounds(offset: int)
    ensures (offset - 5) % 5 == offset % 5
  {}

  lemma OneTurn(disk: Disk, file: File, offset: int, chunk: nat)
    requires disk.bs > 0 && 5 <= chunk && offset >= -5 && Stops(disk, file, chunk)
    requires offset < 0 ==> file.size > 0 && !CannotStart(file, 0)
    ensures var r := ReadResult(disk, file, offset, chunk);
            && offset + r >= -5 && (r == 0 <==> offset >= file.size)
            && (r < 0 ==> r == EIO && 0 <= offset < file.size && !CannotStart(file, 0))
            && (r != 0 ==> Nearer(file, offset, offset + r, chunk))
  {
    hide AllReadable, BadAt, Rounds;
    var r := ReadResult(disk, file, offset, chunk);
    if offset < 0 {
      ChunkForward(file, offset, chunk);
    } else if r < 0 {
      AllReadableIff(disk, file.extents, offset, Clip(file.size, offset, chunk));
      FiveBack(file, offset, chunk);
    } else {
      NoRounds(file, offset + r, chunk);
      NoRounds(file, offset, chunk);
    }
  }

  lemma NoRounds(file: File, offset: int, chunk: nat)
    ensures Far(file, offset, chunk) == 0 ==> Rounds(file, offset, chunk) == 0
  {}

  lemma ChunkForward(file: File, offset: int, chunk: nat)
    requires 5 <= chunk && -5 <= offset < 0 && !CannotStart(file, 0)
    ensures Nearer(file, offset, offset + Clip(file.size, offset, chunk), chunk)
  {
    if chunk % 5 != 0 && offset != -1 {
      assert offset % 5 == offset + 5;
      OneRound(offset, chunk);
    }
  }

  lemma FiveBack(file: File, offset: int, chunk: nat)
    requires 5 <= chunk && 0 <= offset < file.size && offset < Reach(chunk) && !CannotStart(file, 0)
    ensures Nearer(file, offset, offset - 5, chunk)
  {
    hide Reach;
    SameRounds(offset);
  }

  lemma {:induction false} GoesOn(disk: Disk, file: File, offset: int, chunk: nat, k: nat)
    requires disk.bs > 0 && NeverEnds(file) && offset <= 0
    ensures Turns(disk, file, offset, chunk, k).Some?
    decreases k
  {
    if k > 0 { GoesOn(disk, file, Turn(disk, file, offset, chunk).value, chunk, k - 1); }
  }

  /** A position that cannot be read, as far away as that, is never passed. */
  lemma {:induction false} NeverPasses(disk: Disk, file: File, offset: int, chunk: nat, pos: nat, k: nat)
    requires disk.bs > 0 && 5 <= chunk && !NeverEnds(file) && !CannotStart(file, 0)
    requires Reach(chunk) <= pos < file.size && BadAt(disk, file.extents, pos)
    requires -5 <= offset <= pos && (chunk % 5 == 0 && pos < chunk - 1 ==> offset % 5 == 0)
    ensures Turns(disk, file, offset, chunk, k).Some?
    decreases k
  {
    hide AllReadable, BadAt;
    if k > 0 {
      if offset >= 0 { AllReadableIff(disk, file.extents, offset, Clip(file.size, offset, chunk)); }
      SameRounds(offset);
      NeverPasses(disk, file, Turn(disk, file, offset, chunk).value, chunk, pos, k - 1);
    }
  }

  lemma {:induction false} ComesToAnEnd(disk: Disk, file: File, offset: int, chunk: nat) returns (k: nat)
    requires disk.bs > 0 && 5 <= chunk && offset >= -5 && Stops(disk, file, chunk)
    requires offset < 0 ==> file.size > 0 && !CannotStart(file, 0)
    ensures Turns(disk, file, offset, chunk, k).None?
    decreases Far(file, offset, chunk), Rounds(file, offset, chunk), Rest(file, offset, chunk)
  {
    hide Stops, ReadResult, Far, Rounds, Rest;
    OneTurn(disk, file, offset, chunk);
    var next := Turn(disk, file, offset, chunk);
    if next.None? {
      k := 1;
    } else {
      k := ComesToAnEnd(disk, file, next.value, chunk);
      k := k + 1;
    }
  }

  /**
   * The copy loop stops if and only if the file is a regular one in one of the two formats that can be read, its
   * extents, if it has a size, can be read or fail with a positive number, and if they can be read, no block that
   * cannot be read is as far away as the loop comes after the error.
   */
  lemma CopyStopsIff(disk: Disk, file: File, chunk: nat)
    requires disk.bs > 0 && 5 <= chunk
    ensures (exists k: nat :: Turns(disk, file, 0, chunk, k).None?) <==> Stops(disk, file, chunk)
  {
    hide BadAt, Turns;
    if NeverEnds(file) {
      forall k: nat ensures Turns(disk, file, 0, chunk, k).Some? {
        GoesOn(disk, file, 0, chunk, k);
      }
    } else if Stops(disk, file, chunk) {
      var k := ComesToAnEnd(disk, file, 0, chunk);
    } else {
      var pos: nat :| pos < file.size && BadAt(disk, file.extents, pos) && pos >= Reach(chunk);
      forall k: nat ensures Turns(disk, file, 0, chunk, k).Some? {
        NeverPasses(disk, file, 0, chunk, pos, k);
      }
    }
  }

  /** A device or a pipe is enough: every turn returns EINVAL. */
  lemma CopyLoopsOnDevice(disk: Disk, chunk: nat, k: nat)
    requires disk.bs > 0
    ensures Turns(disk, File(false, Other, 0, [], 0), 0, chunk, k).Some?
    ensures Turn(disk, File(false, Other, 0, [], 0), 0, chunk) == Some(EINVAL)
  {
    GoesOn(disk, File(false, Other, 0, [], 0), 0, chunk, k);
  }

  lemma EmptyView(disk: Disk, extents: seq<Extent>)
    requires disk.bs > 0
    ensures View(disk, extents, 0, 0) == []
  {}

  /** The file can be read in full where a range meets it. */
  ghost predicate CanReadAll(disk: Disk, file: File, offset: nat, len: nat)
    requires disk.bs > 0
  {
    file.regular && !file.format.Other? && (file.format.Btree? ==> file.ireadError == 0)
    && AllReadable(disk, file.extents, offset, len)
  }

  lemma NothingToRead(disk: Disk, extents: seq<Extent>, offset: nat)
    requires disk.bs > 0
    ensures AllReadable(disk, extents, offset, 0)
  {}

  lemma ViewOfNothing(disk: Disk, offset: nat, len: nat)
    requires disk.bs > 0
    ensures forall i: nat :: i < len ==> View(disk, [], offset, len)[i] == 0
  {
    forall i: nat | i < len ensures View(disk, [], offset, len)[i] == 0 {
      assert FileByte(disk, [], offset + i) == 0;
    }
  }

  lemma ViewOfCopied(disk: Disk, extents: seq<Extent>, k: nat, offset: nat, len: nat, was: seq<Byte>, now: seq<Byte>)
    requires disk.Valid() && k < |extents| && Copied(disk, extents[k], offset, len, extents[k].count, was, now)
    requires was[..len] == View(disk, extents[..k], offset, len)
    ensures now[..len] == View(disk, extents[..k + 1], offset, len)
  {
    var all := extents[..k + 1];
    assert all[..k] == extents[..k] && all[k] == extents[k];
    forall i: nat | i < len ensures now[i] == FileByte(disk, all, offset + i) {
      assert was[i] == was[..len][i];
    }
  }

  lemma FileByteSkips(disk: Disk, extents: seq<Extent>, k: nat, pos: nat)
    requires disk.bs > 0 && k < |extents| && !extents[k].Covers(BlockOf(disk.bs, pos))
    ensures FileByte(disk, extents[..k + 1], pos) == FileByte(disk, extents[..k], pos)
  {
    hide BlockOf;
    assert extents[..k + 1][..k] == extents[..k];
  }

  lemma ViewOfOther(disk: Disk, extents: seq<Extent>, k: nat, offset: nat, len: nat)
    requires disk.Valid() && k < |extents| && !Overlaps(disk.bs, extents[k], offset, len)
    ensures View(disk, extents[..k + 1], offset, len) == View(disk, extents[..k], offset, len)
    ensures Readable(disk, extents[k], offset, len)
  {
    hide BlockOf, Overlaps, ExtentByte;
    var all, e := extents[..k + 1], extents[k];
    assert all[..k] == extents[..k] && all[k] == e;
    forall i: nat | i < len ensures View(disk, all, offset, len)[i] == View(disk, extents[..k], offset, len)[i] {
      OverlapsAt(disk.bs, e, offset, len, offset + i);
      FileByteSkips(disk, extents, k, offset + i);
    }
    forall pos: nat | offset <= pos < offset + len ensures !e.Covers(BlockOf(disk.bs, pos)) {
      OverlapsAt(disk.bs, e, offset, len, pos);
    }
  }

  lemma PartReadable(disk: Disk, extents: seq<Extent>, offset: nat, n: nat, size: nat)
    requires disk.bs > 0
    ensures offset + n <= size && AllReadable(disk, extents, 0, size) ==> AllReadable(disk, extents, offset, n)
  {}

  lemma ViewConcat(disk: Disk, extents: seq<Extent>, m: nat, n: nat)
    requires disk.bs > 0
    ensures View(disk, extents, 0, m + n) == View(disk, extents, 0, m) + View(disk, extents, m, n)
  {}

  /** The first and the end of the blocks of an extent that a range touches, as the program computes them. */
  function FirstBlock(bs: nat, e: Extent, offset: nat): nat
    requires bs > 0
  {
    if offset >= e.startoff * bs then BlockOf(bs, offset - e.startoff * bs) else 0
  }

  function EndBlock(bs: nat, e: Extent, offset: nat, len: nat): nat
    requires bs > 0 && offset + len > e.startoff * bs
  {
    var last := BlockOf(bs, offset + len - e.startoff * bs - 1) + 1;
    if e.count < last then e.count else last
  }

  lemma BlockRange(bs: nat, e: Extent, offset: nat, len: nat)
    requires bs > 0 && len > 0 && Overlaps(bs, e, offset, len)
    ensures offset + len > e.startoff * bs && FirstBlock(bs, e, offset) <= EndBlock(bs, e, offset, len)
    ensures FirstBlock(bs, e, offset) > 0 ==> (e.startoff + FirstBlock(bs, e, offset)) * bs <= offset
    ensures offset >= e.startoff * bs ==> (e.startoff + FirstBlock(bs, e, offset)) * bs <= offset
  {
    hide BlockOf;
    var start, first := e.startoff * bs, FirstBlock(bs, e, offset);
    Blocks(e, bs, first);
    InBlock(offset + len - start - 1, BlockOf(bs, offset + len - start - 1), bs);
    if offset >= start {
      InBlock(offset - start, first, bs);
      InBlock(offset - start, e.count, bs);
      if BlockOf(bs, offset + len - start - 1) < first {
        Row(BlockOf(bs, offset + len - start - 1), first, bs);
      }
    }
  }

  lemma PositionStart(bs: nat, e: Extent, offset: nat, len: nat)
    requires bs > 0 && len > 0 && Overlaps(bs, e, offset, len)
    ensures Position(bs, e, offset, FirstBlock(bs, e, offset)) ==
            if offset >= e.startoff * bs then 0 else e.startoff * bs - offset
  {
    BlockRange(bs, e, offset, len);
  }

  /** The blocks between the two are those with a byte in the range. */
  lemma InRange(bs: nat, e: Extent, offset: nat, len: nat, block: nat)
    requires bs > 0 && offset + len > e.startoff * bs && len > 0
    requires FirstBlock(bs, e, offset) <= block < EndBlock(bs, e, offset, len)
    ensures offset < (e.startoff + block) * bs + bs && (e.startoff + block) * bs < offset + len
    ensures block + 1 < EndBlock(bs, e, offset, len) ==> (e.startoff + block) * bs + bs <= offset + len
  {
    hide BlockOf;
    var start := e.startoff * bs;
    var last := BlockOf(bs, offset + len - start - 1);
    Blocks(e, bs, block);
    InBlock(offset + len - start - 1, last, bs);
    if block < last { Row(block, last, bs); }
    if offset >= start {
      var first := BlockOf(bs, offset - start);
      InBlock(offset - start, first, bs);
      if first < block { Row(first, block, bs); }
    }
  }

  lemma OutOfRange(bs: nat, e: Extent, offset: nat, len: nat, pos: nat)
    requires bs > 0 && offset + len > e.startoff * bs && offset <= pos < offset + len && e.Covers(BlockOf(bs, pos))
    ensures FirstBlock(bs, e, offset) <= BlockOf(bs, pos) - e.startoff < EndBlock(bs, e, offset, len)
  {
    hide BlockOf;
    var start, k := e.startoff * bs, BlockOf(bs, pos) - e.startoff;
    var last := BlockOf(bs, offset + len - start - 1);
    InBlock(pos, BlockOf(bs, pos), bs);
    Blocks(e, bs, k);
    InBlock(offset + len - start - 1, last, bs);
    if last < k { Row(last, k, bs); }
    if offset >= start {
      var first := BlockOf(bs, offset - start);
      InBlock(offset - start, first, bs);
      if k < first { Row(k, first, bs); }
    }
  }

  lemma CopiedStart(disk: Disk, e: Extent, offset: nat, len: nat, k: nat, was: seq<Byte>)
    requires disk.Valid() && len <= |was| && k == FirstBlock(disk.bs, e, offset)
    requires k > 0 ==> (e.startoff + k) * disk.bs <= offset
    ensures Copied(disk, e, offset, len, k, was, was)
  {
    hide BlockOf, ExtentByte, FirstBlock, EndBlock;
    forall i: nat | i < len ensures Expected(disk, e, offset, k, was, i) == was[i] {
      InBlock(offset + i, e.startoff + k, disk.bs);
    }
  }

  lemma CopiedEnd(disk: Disk, e: Extent, offset: nat, len: nat, k: nat, was: seq<Byte>, now: seq<Byte>)
    requires disk.Valid() && offset + len > e.startoff * disk.bs && k == EndBlock(disk.bs, e, offset, len)
    requires Copied(disk, e, offset, len, k, was, now)
    ensures Copied(disk, e, offset, len, e.count, was, now)
  {
    hide BlockOf, ExtentByte, FirstBlock, EndBlock;
    forall i: nat | i < len
      ensures Expected(disk, e, offset, k, was, i) == Expected(disk, e, offset, e.count, was, i)
    {
      if e.Covers(BlockOf(disk.bs, offset + i)) {
        OutOfRange(disk.bs, e, offset, len, offset + i);
      }
    }
  }

  lemma NotReadable(disk: Disk, e: Extent, offset: nat, len: nat, block: nat)
    requires disk.Valid() && len > 0 && block < e.count && !CanRead(disk, e, block)
    requires offset < (e.startoff + block) * disk.bs + disk.bs && (e.startoff + block) * disk.bs < offset + len
    ensures !Readable(disk, e, offset, len)
  {
    hide BlockOf, ExtentByte, FirstBlock, EndBlock;
    var from := (e.startoff + block) * disk.bs;
    var pos := if from < offset then offset else from;
    InBlock(pos, e.startoff + block, disk.bs);
    assert BlockOf(disk.bs, pos) == e.startoff + block;
    assert offset <= pos < offset + len;
  }

  lemma IsReadable(disk: Disk, e: Extent, offset: nat, len: nat, start: nat, end: nat)
    requires disk.Valid() && offset + len > e.startoff * disk.bs
    requires start == FirstBlock(disk.bs, e, offset) && end == EndBlock(disk.bs, e, offset, len)
    requires forall b: nat :: start <= b < end ==> CanRead(disk, e, b)
    ensures Readable(disk, e, offset, len)
  {
    hide BlockOf, ExtentByte, FirstBlock, EndBlock;
    forall pos: nat | offset <= pos < offset + len && e.Covers(BlockOf(disk.bs, pos))
      ensures CanRead(disk, e, BlockOf(disk.bs, pos) - e.startoff)
    {
      OutOfRange(disk.bs, e, offset, len, pos);
    }
  }
}
