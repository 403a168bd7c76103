/** The metadump stream: how it is written, and that restoring it gives back what was dumped. */
module DumpStream {

  import opened Basics

  /** A basic block and its disk address, counted in basic blocks. */
  datatype Piece = Piece(daddr: nat, block: seq<Byte>) {
    predicate Valid() { daddr < 0x1_0000_0000_0000_0000 && |block| == 512 }
  }

  /** A buffer to be dumped: consecutive basic blocks from one disk address. */
  datatype Buffer = Buffer(bb: nat, blocks: seq<seq<Byte>>) {
    predicate Valid() { bb + |blocks| < 0x1_0000_0000_0000_0000 && forall b <- blocks :: |b| == 512 }

    function Pieces(): (ps: seq<Piece>)
      requires Valid()
      ensures |ps| == |blocks| && AllValid(ps)
    {
      seq(|blocks|, i requires 0 <= i < |blocks| => Piece(bb + i, blocks[i]))
    }
  }

  ghost predicate AllValid(ps: seq<Piece>) { forall p <- ps :: p.Valid() }

  /** Indices in a metablock: what is left of a basic block after the eight-byte header. */
  const INDICES := 63

  const MAGIC: seq<Byte> := [0x58, 0x46, 0x53, 0x4d]
  const SB_MAGIC: seq<Byte> := [0x58, 0x46, 0x53, 0x42]

  /** Big-endian numbers. */
  function Encode(x: nat, width: nat): (s: seq<Byte>)
    ensures |s| == width
  {
    if width == 0 then [] else Encode(x / 256, width - 1) + [x % 256]
  }

  function Decode(s: seq<Byte>): nat {
    if s == [] then 0 else Decode(s[..|s| - 1]) * 256 + s[|s| - 1]
  }

  function Pow(b: nat, e: nat): nat { if e == 0 then 1 else b * Pow(b, e - 1) }

  lemma {:induction false} DecodeEncode(x: nat, width: nat)
    requires x < Pow(256, width)
    ensures Decode(Encode(x, width)) == x
  {
    if width > 0 {
      DecodeEncode(x / 256, width - 1);
      assert Encode(x, width)[..width - 1] == Encode(x / 256, width - 1);
    }
  }

  function Join(parts: seq<seq<Byte>>): seq<Byte> {
    if parts == [] then [] else parts[0] + Join(parts[1..])
  }

  /** Parts of one width are found again by position. */
  lemma {:induction false} JoinIs(parts: seq<seq<Byte>>, width: nat)
    requires forall p <- parts :: |p| == width
    ensures |Join(parts)| == |parts| * width
    decreases |parts|
  {
    if parts != [] {
      JoinIs(parts[1..], width);
      assert |parts| * width == width + (|parts| - 1) * width;
    }
  }

  lemma JoinStep(parts: seq<seq<Byte>>)
    requires parts != []
    ensures Join(parts) == parts[0] + Join(parts[1..])
  {}

  lemma {:induction false} JoinAt(parts: seq<seq<Byte>>, width: nat, i: nat)
    requires (forall p <- parts :: |p| == width) && i < |parts|
    ensures i * width + width <= |Join(parts)|
    ensures Join(parts)[i * width..i * width + width] == parts[i]
    decreases i
  {
    hide Join;
    JoinStep(parts);
    if i == 0 {
      assert Join(parts)[..width] == parts[0];
    } else {
      JoinAt(parts[1..], width, i - 1);
      var at := (i - 1) * width;
      assert at + width == i * width;
      SliceAfter(parts[0], Join(parts[1..]), at, at + width);
    }
  }

  lemma SliceAfter(a: seq<Byte>, b: seq<Byte>, i: nat, j: nat)
    requires i <= j <= |b|
    ensures (a + b)[|a| + i..|a| + j] == b[i..j]
  {}

  function Encodings(index: seq<nat>): (es: seq<seq<Byte>>)
    ensures |es| == |index| && forall e <- es :: |e| == 8
  {
    seq(|index|, i requires 0 <= i < |index| => Encode(index[i], 8))
  }

  /** The first basic block of a metablock. */
  function Header(count: nat, index: seq<nat>): seq<Byte> {
    MAGIC + Encode(count, 2) + [9, 0] + Join(Encodings(index))
  }

  function Daddrs(ps: seq<Piece>): seq<nat> { seq(|ps|, i requires 0 <= i < |ps| => ps[i].daddr) }

  function Blocks(ps: seq<Piece>): seq<seq<Byte>> { seq(|ps|, i requires 0 <= i < |ps| => ps[i].block) }

  function Zeros(n: nat): (z: seq<nat>)
    ensures |z| == n
  {
    seq(n, _ => 0)
  }

  /** A metablock: unused index entries are zero. */
  function Metablock(ps: seq<Piece>): seq<Byte>
    requires |ps| <= INDICES
  {
    Header(|ps|, Daddrs(ps) + Zeros(INDICES - |ps|)) + Join(Blocks(ps))
  }

  /** The whole stream: full metablocks, and one that is not full. */
  function Dump(ps: seq<Piece>): seq<Byte> {
    if |ps| >= INDICES then Metablock(ps[..INDICES]) + Dump(ps[INDICES..]) else Metablock(ps)
  }

  function FullBlocks(ps: seq<Piece>): seq<Byte>
    requires |ps| % INDICES == 0
  {
    if ps == [] then [] else Metablock(ps[..INDICES]) + FullBlocks(ps[INDICES..])
  }

  lemma {:induction false} DumpAfterFull(a: seq<Piece>, b: seq<Piece>)
    requires |a| % INDICES == 0
    ensures Dump(a + b) == FullBlocks(a) + Dump(b)
    decreases |a|
  {
    hide Metablock;
    if a == [] {
      assert a + b == b;
    } else {
      assert (a + b)[..INDICES] == a[..INDICES] && (a + b)[INDICES..] == a[INDICES..] + b;
      DumpAfterFull(a[INDICES..], b);
    }
  }

  lemma {:induction false} FullSnoc(a: seq<Piece>, b: seq<Piece>)
    requires |a| % INDICES == 0 && |b| == INDICES
    ensures FullBlocks(a + b) == FullBlocks(a) + Metablock(b)
    decreases |a|
  {
    hide Metablock;
    if a == [] {
      assert a + b == b && b[..INDICES] == b && b[INDICES..] == [];
    } else {
      assert (a + b)[..INDICES] == a[..INDICES] && (a + b)[INDICES..] == a[INDICES..] + b;
      FullSnoc(a[INDICES..], b);
    }
  }

  /** The metablock holds these pieces so far, and nothing in the rest of its index. */
  ghost predicate Holds(index: seq<nat>, blocks: seq<seq<Byte>>, ps: seq<Piece>) {
    && |index| == INDICES == |blocks| && |ps| <= INDICES
    && (forall i :: 0 <= i < |ps| ==> index[i] == ps[i].daddr && blocks[i] == ps[i].block)
    && (forall i :: |ps| <= i < INDICES ==> index[i] == 0)
  }

  lemma HoldsIs(index: seq<nat>, blocks: seq<seq<Byte>>, ps: seq<Piece>)
    requires Holds(index, blocks, ps)
    ensures |ps| <= INDICES == |blocks| && Header(|ps|, index) + Join(blocks[..|ps|]) == Metablock(ps)
  {
    assert index == Daddrs(ps) + Zeros(INDICES - |ps|);
    assert blocks[..|ps|] == Blocks(ps);
  }

  lemma HoldsSnoc(index: seq<nat>, blocks: seq<seq<Byte>>, ps: seq<Piece>, p: Piece)
    requires Holds(index, blocks, ps) && |ps| < INDICES
    ensures Holds(index[|ps| := p.daddr], blocks[|ps| := p.block], ps + [p])
  {}

  /** The stream holds the full metablocks of what was dumped, and the metablock the rest. */
  ghost predicate Good(index: seq<nat>, blocks: seq<seq<Byte>>, cur: nat, out: seq<Byte>, dumped: seq<Piece>) {
    && cur < INDICES && cur <= |dumped| && (|dumped| - cur) % INDICES == 0
    && out == FullBlocks(dumped[..|dumped| - cur])
    && Holds(index, blocks, dumped[|dumped| - cur..])
  }

  /** What write_index writes. */
  function Written(index: seq<nat>, blocks: seq<seq<Byte>>, cur: nat): seq<Byte>
    requires cur <= |blocks|
  {
    Header(cur, index) + Join(blocks[..cur])
  }

  lemma GoodStart(blocks: seq<seq<Byte>>)
    requires |blocks| == INDICES
    ensures Good(Zeros(INDICES), blocks, 0, [], [])
  {}

  lemma DumpOfFew(ps: seq<Piece>)
    requires |ps| < INDICES
    ensures Dump(ps) == Metablock(ps)
  {}

  lemma GoodFinish(index: seq<nat>, blocks: seq<seq<Byte>>, cur: nat, out: seq<Byte>, dumped: seq<Piece>)
    requires Good(index, blocks, cur, out, dumped)
    ensures cur <= |blocks| && out + Written(index, blocks, cur) == Dump(dumped)
  {
    hide FullBlocks, Metablock, Header, Join, Holds, Dump;
    var k := |dumped| - cur;
    var full, pending := dumped[..k], dumped[k..];
    assert dumped == full + pending;
    HoldsIs(index, blocks, pending);
    DumpAfterFull(full, pending);
    DumpOfFew(pending);
  }

  lemma GoodNext(index: seq<nat>, blocks: seq<seq<Byte>>, cur: nat, out: seq<Byte>, dumped: seq<Piece>,
                 p: Piece)
    requires Good(index, blocks, cur, out, dumped) && cur < |index| && cur < |blocks|
    ensures var index', blocks', dumped' := index[cur := p.daddr], blocks[cur := p.block], dumped + [p];
            if cur + 1 < INDICES then Good(index', blocks', cur + 1, out, dumped')
            else Good(Zeros(INDICES), blocks', 0, out + Written(index', blocks', cur + 1), dumped')
  {
    hide FullBlocks, Metablock, Header, Join, Dump;
    var k := |dumped| - cur;
    var full, pending := dumped[..k], dumped[k..] + [p];
    var index', blocks', dumped' := index[cur := p.daddr], blocks[cur := p.block], dumped + [p];
    HoldsSnoc(index, blocks, dumped[k..], p);
    assert dumped'[..k] == full && dumped'[k..] == pending;
    if cur + 1 == INDICES {
      HoldsIs(index', blocks', pending);
      FullSnoc(full, pending);
      assert dumped' == full + pending;
      assert dumped'[..|dumped'|] == dumped' && dumped'[|dumped'|..] == [];
    }
  }

  /** The writer: a metablock being filled, and the stream written so far. */
  class Writer {
    const blockIndex: array<nat>
    const blockBuffer: array<seq<Byte>>
    var curIndex: nat
    var out: seq<Byte>
    ghost var dumped: seq<Piece>

    ghost predicate Valid()
      reads this, blockIndex, blockBuffer
    {
      && blockIndex.Length == INDICES == blockBuffer.Length
      && Good(blockIndex[..], blockBuffer[..], curIndex, out, dumped)
    }

    constructor ()
      ensures Valid() && fresh(blockIndex) && fresh(blockBuffer) && dumped == [] && out == []
    {
      blockIndex := new nat[INDICES](_ => 0);
      blockBuffer := new seq<Byte>[INDICES];
      curIndex, out, dumped := 0, [], [];
      new;
      assert blockIndex[..] == Zeros(INDICES);
      hide *;
      GoodStart(blockBuffer[..]);
    }

    /** Write the metablock as it stands and start another. */
    method WriteIndex()
      requires blockIndex.Length == INDICES == blockBuffer.Length && curIndex <= INDICES
      modifies this`out, this`curIndex, blockIndex
      ensures out == old(out) + Written(old(blockIndex[..]), blockBuffer[..], old(curIndex))
      ensures curIndex == 0 && blockIndex[..] == Zeros(INDICES)
    {
      hide Header, Join;
      ghost var index, blocks := blockIndex[..], blockBuffer[..];
      assert blockBuffer[..curIndex] == blocks[..curIndex];
      out := out + (Header(curIndex, blockIndex[..]) + Join(blockBuffer[..curIndex]));
      assert out == old(out) + Written(index, blocks, curIndex);
      forall i | 0 <= i < INDICES {
        blockIndex[i] := 0;
      }
      assert blockBuffer[..] == blocks;
      assert blockIndex[..] == Zeros(INDICES);
      curIndex := 0;
    }

    /** The final, partly filled metablock. */
    method Finish()
      requires Valid()
      modifies this`out, this`curIndex, blockIndex
      ensures out == Dump(dumped)
    {
      GoodFinish(blockIndex[..], blockBuffer[..], curIndex, out, dumped);
      assert curIndex < INDICES;
      hide *;
      WriteIndex();
    }

    /** One basic block; a full metablock is written at once. */
    method WriteBlock(daddr: nat, block: seq<Byte>)
      requires Valid()
      modifies this, blockIndex, blockBuffer
      ensures Valid() && dumped == old(dumped) + [Piece(daddr, block)]
    {
      assert curIndex < INDICES;
      hide Good, Header, Join, Written, Zeros;
      ghost var index, blocks := blockIndex[..], blockBuffer[..];
      GoodNext(index, blocks, curIndex, out, dumped, Piece(daddr, block));
      index, blocks := index[curIndex := daddr], blocks[curIndex := block];
      blockIndex[curIndex], blockBuffer[curIndex] := daddr, block;
      assert blockIndex[..] == index && blockBuffer[..] == blocks;
      dumped := dumped + [Piece(daddr, block)];
      curIndex := curIndex + 1;
      if curIndex == INDICES {
        WriteIndex();
      }
    }

    /** write_buf: the buffer's basic blocks in turn. */
    method WriteBuf(buf: Buffer)
      requires Valid() && buf.Valid()
      modifies this, blockIndex, blockBuffer
      ensures Valid() && dumped == old(dumped) + buf.Pieces()
    {
      hide Valid;
      for i := 0 to |buf.blocks|
        invariant Valid() && dumped == old(dumped) + buf.Pieces()[..i]
      {
        WriteBlock(buf.bb + i, buf.blocks[i]);
        assert buf.Pieces()[..i + 1] == buf.Pieces()[..i] + [Piece(buf.bb + i, buf.blocks[i])];
      }
      assert buf.Pieces()[..|buf.blocks|] == buf.Pieces();
    }
  }

  /** What xfs_mdrestore reads out of one index block. */
  function CountOf(header: seq<Byte>): nat
    requires |header| >= 6
  {
    Decode(header[4..6])
  }

  function IndexAt(header: seq<Byte>, i: nat): nat
    requires 16 + 8 * i <= |header|
  {
    Decode(header[8 + 8 * i..16 + 8 * i])
  }

  function MaxIndices(blockSize: nat): nat
    requires blockSize >= 8
  {
    (blockSize - 8) / 8
  }

  /** The blocks of one metablock. */
  function PiecesOf(file: seq<Byte>, blockSize: nat, count: nat): (ps: seq<Piece>)
    requires blockSize >= 8 && count <= MaxIndices(blockSize) && blockSize + count * blockSize <= |file|
    ensures |ps| == count
  {
    seq(count, i requires 0 <= i < count =>
      Piece(IndexAt(file[..blockSize], i), BlockAt(file[blockSize..blockSize + count * blockSize], blockSize, i)))
  }

  function BlockAt(blocks: seq<Byte>, blockSize: nat, i: nat): seq<Byte> {
    if i * blockSize + blockSize <= |blocks| then blocks[i * blockSize..i * blockSize + blockSize] else []
  }

  /** The restore loop: metablocks up to the first that is not full. */
  function Restored(file: seq<Byte>, blockSize: nat): Option<seq<Piece>>
    requires blockSize >= 8
    decreases |file|
  {
    if |file| < blockSize then None
    else
      var count := CountOf(file);
      if count == 0 then Some([])
      else if count > MaxIndices(blockSize) || |file| < blockSize + count * blockSize then None
      else
        var ps := PiecesOf(file, blockSize, count);
        if count < MaxIndices(blockSize) then Some(ps)
        else
          var rest := Restored(file[blockSize + count * blockSize..], blockSize);
          if rest.None? then None else Some(ps + rest.value)
  }

  /** perform_restore: the blocks it writes, or None where it gives up. */
  function Restore(file: seq<Byte>): Option<seq<Piece>> {
    if |file| < 8 || file[..4] != MAGIC || file[6] < 3 || file[6] > 30 then None
    else
      var blockSize := Pow(2, file[6]);
      PowAtLeast(file[6]);
      var count := CountOf(file);
      if count == 0 || count > MaxIndices(blockSize) || |file| < blockSize + count * blockSize then None
      else if IndexAt(file, 0) != 0 || file[blockSize..blockSize + 4] != SB_MAGIC then None
      else Restored(file, blockSize)
  }

  lemma PowAtLeast(e: nat)
    requires e >= 3
    ensures Pow(2, e) >= 8
  {
    if e == 3 {
      assert Pow(2, 3) == 2 * Pow(2, 2) == 4 * Pow(2, 1) == 8;
    } else {
      PowAtLeast(e - 1);
    }
  }

  lemma Pow512()
    ensures Pow(2, 9) == 512 && Pow(256, 8) == 0x1_0000_0000_0000_0000 && Pow(256, 2) == 65536
  {
    assert Pow(2, 9) == 8 * Pow(2, 6) && Pow(2, 6) == 8 * Pow(2, 3) && Pow(2, 3) == 8;
    assert Pow(256, 8) == 256 * 256 * Pow(256, 6) && Pow(256, 6) == 256 * 256 * Pow(256, 4);
    assert Pow(256, 4) == 256 * 256 * Pow(256, 2) && Pow(256, 2) == 65536;
  }

  lemma HeaderLength(count: nat, index: seq<nat>)
    requires |index| == INDICES
    ensures |Header(count, index)| == 512
  {
    JoinIs(Encodings(index), 8);
  }

  lemma HeaderIs(count: nat, index: seq<nat>, i: nat)
    requires |index| == INDICES && count < 65536 && i < INDICES && index[i] < 0x1_0000_0000_0000_0000
    ensures |Header(count, index)| == 512
    ensures CountOf(Header(count, index)) == count && IndexAt(Header(count, index), i) == index[i]
    ensures Header(count, index)[..4] == MAGIC && Header(count, index)[6] == 9
  {
    hide Encode, Decode, Join, Encodings, Pow;
    Pow512();
    DecodeEncode(count, 2);
    DecodeEncode(index[i], 8);
    JoinIs(Encodings(index), 8);
    JoinAt(Encodings(index), 8, i);
    var front, tail := MAGIC + Encode(count, 2) + [9, 0], Join(Encodings(index));
    assert Header(count, index) == front + tail;
    assert (front + tail)[4..6] == Encode(count, 2);
    SliceAfter(front, tail, 8 * i, 8 * i + 8);
    EncodingAt(index, i);
  }

  lemma EncodingAt(index: seq<nat>, i: nat)
    requires i < |index|
    ensures Encodings(index)[i] == Encode(index[i], 8)
  {}

  function Index(ps: seq<Piece>): (index: seq<nat>)
    requires |ps| <= INDICES
    ensures |index| == INDICES
  {
    Daddrs(ps) + Zeros(INDICES - |ps|)
  }

  lemma IndexIs(ps: seq<Piece>, i: nat)
    requires |ps| <= INDICES && AllValid(ps) && i < INDICES
    ensures Index(ps)[i] == if i < |ps| then ps[i].daddr else 0
    ensures Index(ps)[i] < 0x1_0000_0000_0000_0000
  {
    assert i < |ps| ==> ps[i].Valid();
  }

  lemma BlocksAre(ps: seq<Piece>)
    requires AllValid(ps)
    ensures |Blocks(ps)| == |ps| && forall b <- Blocks(ps) :: |b| == 512
  {
    forall b <- Blocks(ps) ensures |b| == 512 {
      var i :| 0 <= i < |ps| && b == Blocks(ps)[i];
      assert ps[i].Valid();
    }
  }

  /** A file that starts with a metablock, taken apart. */
  lemma Parts(ps: seq<Piece>, rest: seq<Byte>)
    requires |ps| <= INDICES && AllValid(ps)
    ensures |Header(|ps|, Index(ps))| == 512 && |Join(Blocks(ps))| == |ps| * 512
    ensures var file := Metablock(ps) + rest;
            && file[..512] == Header(|ps|, Index(ps))
            && file[512..512 + |ps| * 512] == Join(Blocks(ps))
            && file[512 + |ps| * 512..] == rest
  {
    hide Header, Join, Blocks, Index, AllValid;
    BlocksAre(ps);
    JoinIs(Blocks(ps), 512);
    HeaderLength(|ps|, Index(ps));
    MetablockParts(ps);
    var a, b := Header(|ps|, Index(ps)), Join(Blocks(ps));
    assert (a + b + rest)[512..512 + |ps| * 512] == b;
  }

  lemma MetablockParts(ps: seq<Piece>)
    requires |ps| <= INDICES
    ensures Metablock(ps) == Header(|ps|, Index(ps)) + Join(Blocks(ps))
  {}

  lemma CountAndMagic(file: seq<Byte>, ps: seq<Piece>)
    requires |ps| <= INDICES && AllValid(ps)
    requires |file| >= 512 && file[..512] == Header(|ps|, Index(ps))
    ensures CountOf(file) == |ps| && file[..4] == MAGIC && file[6] == 9
  {
    hide AllValid, Header, Index, CountOf;
    IndexIs(ps, INDICES - 1);
    HeaderIs(|ps|, Index(ps), INDICES - 1);
    CountOfPrefix(file);
    assert file[..4] == file[..512][..4] && file[6] == file[..512][6];
  }

  lemma CountOfPrefix(file: seq<Byte>)
    requires |file| >= 512
    ensures CountOf(file) == CountOf(file[..512])
  {
    assert file[4..6] == file[..512][4..6];
  }

  /** A metablock at the start of a file is read back. */
  lemma MetablockIs(ps: seq<Piece>, rest: seq<Byte>)
    requires |ps| <= INDICES && AllValid(ps)
    ensures |Metablock(ps)| == 512 + |ps| * 512
    ensures var file := Metablock(ps) + rest;
            && file[..4] == MAGIC && file[6] == 9 && CountOf(file) == |ps|
            && PiecesOf(file, 512, |ps|) == ps
            && file[512 + |ps| * 512..] == rest
  {
    Parts(ps, rest);
    MetablockParts(ps);
    var file := Metablock(ps) + rest;
    hide Header, Join, Blocks, Index, Metablock, CountOf, IndexAt;
    CountAndMagic(file, ps);
    forall i | 0 <= i < |ps|
      ensures PiecesOf(file, 512, |ps|)[i] == ps[i]
    {
      PieceAt(file, ps, i);
    }
    assert PiecesOf(file, 512, |ps|) == ps;
  }

  lemma PieceAt(file: seq<Byte>, ps: seq<Piece>, i: nat)
    requires i < |ps| <= INDICES && AllValid(ps) && 512 + |ps| * 512 <= |file|
    requires file[..512] == Header(|ps|, Index(ps)) && file[512..512 + |ps| * 512] == Join(Blocks(ps))
    ensures IndexAt(file[..512], i) == ps[i].daddr
    ensures BlockAt(file[512..512 + |ps| * 512], 512, i) == ps[i].block
  {
    IndexIs(ps, i);
    BlocksAre(ps);
    BlockIs(ps, i);
    hide Header, Join, Blocks, Index, IndexAt, AllValid;
    HeaderIs(|ps|, Index(ps), i);
    JoinAt(Blocks(ps), 512, i);
  }

  lemma BlockIs(ps: seq<Piece>, i: nat)
    requires i < |ps|
    ensures i < |Blocks(ps)| && Blocks(ps)[i] == ps[i].block
  {}

  /** Reading a whole dump gives back every block, with its address, in order. */
  lemma {:induction false} RestoredDump(ps: seq<Piece>)
    requires AllValid(ps)
    ensures Restored(Dump(ps), 512) == Some(ps)
    decreases |ps|
  {
    hide Metablock, CountOf, PiecesOf;
    assert MaxIndices(512) == INDICES;
    if |ps| < INDICES {
      MetablockIs(ps, []);
      assert Metablock(ps) + [] == Metablock(ps);
    } else {
      var first, rest := ps[..INDICES], ps[INDICES..];
      MetablockIs(first, Dump(rest));
      RestoredDump(rest);
      assert ps == first + rest;
    }
  }

  /** A dump that is cut short anywhere is noticed. */
  lemma {:induction false} CutDump(ps: seq<Piece>, n: nat)
    requires AllValid(ps) && n < |Dump(ps)|
    ensures Restored(Dump(ps)[..n], 512) == None
    decreases |ps|
  {
    hide Metablock, CountOf, PiecesOf;
    assert MaxIndices(512) == INDICES;
    var cut := Dump(ps)[..n];
    if n >= 512 {
      var first := if |ps| < INDICES then ps else ps[..INDICES];
      var tail := if |ps| < INDICES then [] else Dump(ps[INDICES..]);
      assert Dump(ps) == Metablock(first) + tail;
      MetablockIs(first, tail);
      CountOfPrefix(Dump(ps));
      CountOfPrefix(cut);
      assert cut[..512] == Dump(ps)[..512];
      var size := 512 + |first| * 512;
      if |ps| >= INDICES && n >= size {
        CutDump(ps[INDICES..], n - size);
        assert cut[size..] == tail[..n - size];
      }
    }
  }

  /** The first block of a dump is the primary superblock. */
  ghost predicate StartsWithSuperblock(ps: seq<Piece>) {
    ps != [] && AllValid(ps) && ps[0].daddr == 0 && |ps[0].block| == 512 && ps[0].block[..4] == SB_MAGIC
  }

  /** A finished dump is restored to exactly what was dumped; an unfinished one is refused. */
  lemma RestoreDump(ps: seq<Piece>, n: nat)
    requires StartsWithSuperblock(ps) && n <= |Dump(ps)|
    ensures Restore(Dump(ps)[..n]) == if n == |Dump(ps)| then Some(ps) else None
  {
    hide Metablock, CountOf, PiecesOf, IndexAt, Restored;
    Pow512();
    assert MaxIndices(512) == INDICES;
    var cut := Dump(ps)[..n];
    var first := if |ps| < INDICES then ps else ps[..INDICES];
    var tail := if |ps| < INDICES then [] else Dump(ps[INDICES..]);
    assert Dump(ps) == Metablock(first) + tail;
    MetablockIs(first, tail);
    if n >= 8 {
      assert cut[..4] == Dump(ps)[..4] && cut[6] == Dump(ps)[6];
    }
    var size := 512 + |first| * 512;
    if n >= size {
      CountOfPrefix(Dump(ps));
      CountOfPrefix(cut);
      assert cut[..512] == Dump(ps)[..512];
      FirstPiece(Dump(ps), cut, first);
    }
    if n == |Dump(ps)| {
      assert cut == Dump(ps);
      RestoredDump(ps);
    } else {
      CutDump(ps, n);
    }
  }

  /** A dump whose first block is not the primary superblock is refused. */
  lemma OnlyDumps(ps: seq<Piece>)
    requires AllValid(ps) && !StartsWithSuperblock(ps)
    ensures Restore(Dump(ps)) == None
  {
    hide Metablock, CountOf, PiecesOf, IndexAt, Restored;
    Pow512();
    assert MaxIndices(512) == INDICES;
    var first := if |ps| < INDICES then ps else ps[..INDICES];
    var tail := if |ps| < INDICES then [] else Dump(ps[INDICES..]);
    assert Dump(ps) == Metablock(first) + tail;
    MetablockIs(first, tail);
    if ps != [] {
      assert first[0] == ps[0] && ps[0].Valid();
      FirstPiece(Dump(ps), Dump(ps), first);
    }
  }

  lemma FirstPiece(file: seq<Byte>, cut: seq<Byte>, first: seq<Piece>)
    requires 0 < |first| <= INDICES && 512 + |first| * 512 <= |cut| <= |file| && cut == file[..|cut|]
    requires PiecesOf(file, 512, |first|) == first && |first[0].block| == 512
    ensures IndexAt(cut, 0) == first[0].daddr && cut[512..516] == first[0].block[..4]
  {
    assert PiecesOf(file, 512, |first|)[0] == first[0];
    var blocks := file[512..512 + |first| * 512];
    assert first[0].block == blocks[0..512];
    assert cut[8..16] == file[..512][8..16];
    assert cut[512..516] == blocks[..4] == blocks[0..512][..4];
  }

  /**
   * A dump ends with a metablock whose count is less than the number of indices and whose last index entry
   * is zero; all those before it are full.
   */
  lemma DumpEnds(ps: seq<Piece>)
    requires AllValid(ps)
    ensures var k := |ps| - |ps| % INDICES;
            && Dump(ps) == FullBlocks(ps[..k]) + Metablock(ps[k..])
            && CountOf(Metablock(ps[k..])) == |ps| - k < INDICES
            && |Metablock(ps[k..])| >= 512 && IndexAt(Metablock(ps[k..])[..512], INDICES - 1) == 0
  {
    hide Metablock, Header, FullBlocks, Index, CountOf, IndexAt, Dump;
    var k := |ps| - |ps| % INDICES;
    var last := ps[k..];
    DumpAfterFull(ps[..k], last);
    assert ps == ps[..k] + last;
    DumpOfFew(last);
    LastEntry(last);
  }

  lemma LastEntry(last: seq<Piece>)
    requires AllValid(last) && |last| < INDICES
    ensures CountOf(Metablock(last)) == |last|
    ensures |Metablock(last)| >= 512 && IndexAt(Metablock(last)[..512], INDICES - 1) == 0
  {
    hide Metablock, Header, Index, CountOf, IndexAt, AllValid;
    MetablockIs(last, []);
    Parts(last, []);
    assert Metablock(last) + [] == Metablock(last);
    IndexIs(last, INDICES - 1);
    HeaderIs(|last|, Index(last), INDICES - 1);
  }

  /** The two magic numbers, "XFSM" and "XFSB". */
  lemma Magics()
    ensures Decode(MAGIC) == 0x5846_534d && Decode(SB_MAGIC) == 0x5846_5342
  {
    FourDigits(0x58, 0x46, 0x53, 0x4d);
    FourDigits(0x58, 0x46, 0x53, 0x42);
  }

  lemma FourDigits(a: Byte, b: Byte, c: Byte, d: Byte)
    ensures Decode([a, b, c, d]) == ((a * 256 + b) * 256 + c) * 256 + d
  {
    assert [a, b, c, d][..3] == [a, b, c] && [a, b, c][..2] == [a, b] && [a, b][..1] == [a] && [a][..0] == [];
    assert Decode([a]) == a;
    assert Decode([a, b]) == a * 256 + b;
    assert Decode([a, b, c]) == (a * 256 + b) * 256 + c;
  }

  // --- the disk that was dumped -----------------------------------------------------------------

  /** A buffer that was read from a disk, given by its basic blocks. */
  ghost predicate ReadFrom(buf: Buffer, disk: nat -> seq<Byte>) {
    forall i :: 0 <= i < |buf.blocks| ==> buf.blocks[i] == disk(buf.bb + i)
  }

  /** Everything in some buffers, as WriteBuf writes them one after another. */
  ghost function AllPieces(bufs: seq<Buffer>): seq<Piece>
    requires forall b <- bufs :: b.Valid()
  {
    if bufs == [] then [] else AllPieces(bufs[..|bufs| - 1]) + bufs[|bufs| - 1].Pieces()
  }

  /** The blocks on a target to which pieces were written. */
  ghost function Image(ps: seq<Piece>): map<nat, seq<Byte>> {
    if ps == [] then map[] else Image(ps[..|ps| - 1])[ps[|ps| - 1].daddr := ps[|ps| - 1].block]
  }

  /** A basic block lies in one of the buffers. */
  ghost predicate Dumped(bufs: seq<Buffer>, daddr: nat) {
    exists b <- bufs :: b.bb <= daddr < b.bb + |b.blocks|
  }

  /** Restoring a dump of buffers puts the blocks they cover back in their places, and no others. */
  lemma RestoredImage(bufs: seq<Buffer>, disk: nat -> seq<Byte>, daddr: nat)
    requires forall b <- bufs :: b.Valid() && ReadFrom(b, disk)
    requires StartsWithSuperblock(AllPieces(bufs))
    ensures var restored := Restore(Dump(AllPieces(bufs)));
            && restored.Some?
            && (daddr in Image(restored.value) <==> Dumped(bufs, daddr))
            && (Dumped(bufs, daddr) ==> Image(restored.value)[daddr] == disk(daddr))
  {
    hide Restore, Dump, Image, Buffer.Valid, StartsWithSuperblock, ReadFrom, Dumped;
    var ps := AllPieces(bufs);
    RestoreDump(ps, |Dump(ps)|);
    assert Dump(ps)[..|Dump(ps)|] == Dump(ps);
    ImageIs(bufs, disk, daddr);
  }

  lemma {:induction false} ImageIs(bufs: seq<Buffer>, disk: nat -> seq<Byte>, daddr: nat)
    requires forall b <- bufs :: b.Valid() && ReadFrom(b, disk)
    ensures daddr in Image(AllPieces(bufs)) <==> Dumped(bufs, daddr)
    ensures Dumped(bufs, daddr) ==> Image(AllPieces(bufs))[daddr] == disk(daddr)
    decreases |bufs|
  {
    hide Image, Buffer.Valid, Buffer.Pieces;
    if bufs == [] {
      NothingWritten();
    } else {
      var front, last := bufs[..|bufs| - 1], bufs[|bufs| - 1];
      assert last in bufs && bufs == front + [last];
      ImageIs(front, disk, daddr);
      BufferIs(AllPieces(front), last, |last.blocks|, disk, daddr);
      TakeAll(last);
    }
  }

  lemma NothingWritten()
    ensures Image([]) == map[]
  {}

  lemma TakeAll(buf: Buffer)
    requires buf.Valid()
    ensures buf.Pieces()[..|buf.blocks|] == buf.Pieces()
  {}

  /** The first n blocks of a buffer, written after others. */
  lemma {:induction false} BufferIs(before: seq<Piece>, buf: Buffer, n: nat, disk: nat -> seq<Byte>, daddr: nat)
    requires buf.Valid() && ReadFrom(buf, disk) && n <= |buf.blocks|
    ensures var image, here := Image(before + buf.Pieces()[..n]), buf.bb <= daddr < buf.bb + n;
            && (daddr in image <==> daddr in Image(before) || here)
            && (here ==> image[daddr] == disk(daddr))
            && (!here && daddr in image ==> image[daddr] == Image(before)[daddr])
    decreases n
  {
    hide Image, Buffer.Pieces, Buffer.Valid;
    if n == 0 {
      assert before + buf.Pieces()[..0] == before;
    } else {
      BufferIs(before, buf, n - 1, disk, daddr);
      OneMorePiece(before, buf, n - 1);
    }
  }

  lemma OneMorePiece(before: seq<Piece>, buf: Buffer, n: nat)
    requires buf.Valid() && n < |buf.blocks|
    ensures Image(before + buf.Pieces()[..n + 1]) ==
            Image(before + buf.Pieces()[..n])[buf.bb + n := buf.blocks[n]]
  {
    hide Image;
    var some, p := before + buf.Pieces()[..n], Piece(buf.bb + n, buf.blocks[n]);
    assert before + buf.Pieces()[..n + 1] == some + [p];
    ImageSnoc(some, p);
  }

  lemma ImageSnoc(ps: seq<Piece>, p: Piece)
    ensures Image(ps + [p]) == Image(ps)[p.daddr := p.block]
  {
    assert (ps + [p])[..|ps|] == ps;
  }
}
