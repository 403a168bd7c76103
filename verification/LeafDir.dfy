/** Listing a directory of many blocks. */
module LeafDir {

  import opened Basics
  import opened Cookies
  import opened ShortDirs
  import DirData
  import M = MapTable

  /** Data blocks come before this byte of a directory. */
  const LEAF_OFFSET := 0x8_0000_0000

  const MAX_DATAPTR := 0xffff_ffff

  /** The cookie that is returned at the end. */
  const END := 0x7fff_ffff

  /** Where a directory block starts, in bytes. */
  function Base(dir: M.Dir, d: nat): nat { d * dir.Size() }

  ghost predicate ValidDir(dir: M.Dir) {
    && dir.Valid() && dir.Size() % 8 == 0 && 24 <= dir.Size() <= 65536 && Base(dir, dir.leafDb) == LEAF_OFFSET
    && forall d <- dir.blocks :: ValidBlock(dir, d)
  }

  ghost predicate ValidBlock(dir: M.Dir, d: nat)
    requires d in dir.blocks
  {
    && |dir.blocks[d]| == dir.Size() && WellTiled(dir.blocks[d], DirData.HEADER, dir.Size())
    && Base(dir, d) + dir.Size() <= LEAF_OFFSET
  }

  /** Directory blocks that exist, in order. */
  predicate Good(dir: M.Dir, dbs: seq<nat>, from: nat)
    decreases |dbs|
  {
    dbs == [] || (from <= dbs[0] && dbs[0] in dir.blocks && Good(dir, dbs[1..], dbs[0] + 1))
  }

  function BlockList(dir: M.Dir, d: nat, ptr: nat): seq<Dirent> {
    if d in dir.blocks then Listing(dir.blocks[d], Base(dir, d), ptr, dir.Size()) else []
  }

  /** The entries of directory blocks, one block after another. */
  function ListAll(dir: M.Dir, dbs: seq<nat>): seq<Dirent> {
    if dbs == [] then [] else BlockList(dir, dbs[0], DirData.HEADER) + ListAll(dir, dbs[1..])
  }

  lemma GoodEarlier(dir: M.Dir, dbs: seq<nat>, from: nat, earlier: nat)
    requires Good(dir, dbs, from) && earlier <= from
    ensures Good(dir, dbs, earlier)
  {}

  lemma {:induction false} LiveDbsGood(dir: M.Dir, from: nat)
    ensures Good(dir, dir.LiveDbs(from), from)
    decreases dir.leafDb - from
  {
    if from < dir.leafDb {
      LiveDbsGood(dir, from + 1);
      LiveDbsStep(dir, from);
      if from !in dir.blocks { GoodEarlier(dir, dir.LiveDbs(from), from + 1, from); }
    }
  }

  lemma LiveDbsStep(dir: M.Dir, from: nat)
    ensures from < dir.leafDb && from in dir.blocks ==>
              dir.LiveDbs(from) == [from] + dir.LiveDbs(from + 1) && dir.LiveDbs(from)[1..] == dir.LiveDbs(from + 1)
    ensures from < dir.leafDb && from !in dir.blocks ==> dir.LiveDbs(from) == dir.LiveDbs(from + 1)
    ensures from >= dir.leafDb ==> dir.LiveDbs(from) == [] == dir.LiveDbs(from + 1)
  {
    assert [] + dir.LiveDbs(from + 1) == dir.LiveDbs(from + 1);
  }

  /** Everything in the directory. */
  function All(dir: M.Dir): seq<Dirent> { ListAll(dir, dir.LiveDbs(0)) }

  lemma {:induction false} LiveDbsAre(dir: M.Dir, from: nat)
    ensures forall d: nat :: d in dir.LiveDbs(from) <==> from <= d < dir.leafDb && d in dir.blocks
    decreases dir.leafDb - from
  {
    LiveDbsStep(dir, from);
    if from < dir.leafDb {
      hide M.Dir.LiveDbs;
      LiveDbsAre(dir, from + 1);
    }
  }

  lemma {:induction false} ListedIsOf(dir: M.Dir, dbs: seq<nat>, e: Dirent)
    ensures e in ListAll(dir, dbs) <==> exists d <- dbs :: e in BlockList(dir, d, DirData.HEADER)
    decreases |dbs|
  {
    hide BlockList;
    if dbs != [] {
      ListedIsOf(dir, dbs[1..], e);
      assert dbs == [dbs[0]] + dbs[1..];
    }
  }

  /** Listed is what lies in a block before the leaf blocks. */
  lemma ListedIff(dir: M.Dir, e: Dirent)
    ensures e in All(dir) <==> exists d <- dir.blocks :: d < dir.leafDb && e in BlockList(dir, d, DirData.HEADER)
  {
    hide BlockList, ListAll, M.Dir.LiveDbs;
    LiveDbsAre(dir, 0);
    ListedIsOf(dir, dir.LiveDbs(0), e);
  }

  /** Block positions are multiples of eight, and go up with block numbers. */
  lemma BaseOrder(dir: M.Dir, c: nat, d: nat)
    ensures c < d ==> Base(dir, c) + dir.Size() <= Base(dir, d)
    ensures dir.Size() % 8 == 0 ==> Base(dir, d) % 8 == 0
  {
    hide M.Dir.Size;
    Row(c, d, dir.Size());
    if dir.Size() % 8 == 0 { Aligned(d, dir.Size()); }
  }

  lemma Aligned(d: nat, size: nat)
    requires size % 8 == 0
    ensures (d * size) % 8 == 0
  {
    var k := size / 8;
    assert d * size == 8 * (d * k);
  }

  lemma BlockOrder(dir: M.Dir, d: nat, ptr: nat)
    requires ValidDir(dir) && d in dir.blocks && ptr <= dir.Size() && ptr % 8 == 0
    ensures Ascending(BlockList(dir, d, ptr))
    ensures forall e <- BlockList(dir, d, ptr) ::
              Cookie(Base(dir, d) + ptr) <= e.cookie && e.cookie + 2 <= Cookie(Base(dir, d) + dir.Size())
  {
    hide Ascending, Listing, M.Dir.Valid, WellTiled, Base, M.Dir.Size;
    BaseOrder(dir, d, d);
    assert ValidBlock(dir, d);
    ListingOrder(dir.blocks[d], Base(dir, d), ptr, dir.Size());
  }

  lemma {:induction false} ListOrder(dir: M.Dir, dbs: seq<nat>, from: nat)
    requires ValidDir(dir) && Good(dir, dbs, from)
    ensures Ascending(ListAll(dir, dbs))
    ensures forall e <- ListAll(dir, dbs) :: Cookie(Base(dir, from)) <= e.cookie && e.cookie + 2 <= Cookie(LEAF_OFFSET)
    decreases |dbs|
  {
    hide Ascending, BlockList, M.Dir.Valid, ValidBlock, Base, M.Dir.Size;
    if dbs == [] {
      NothingAscends();
    } else {
      var d, size := dbs[0], dir.Size();
      assert ValidBlock(dir, d);
      EndOfBlock(dir, d);
      ListOrder(dir, dbs[1..], d + 1);
      BlockOrder(dir, d, DirData.HEADER);
      BaseOrder(dir, d, d + 1);
      BaseOrder(dir, from, d);
      AscendingConcat(BlockList(dir, d, DirData.HEADER), ListAll(dir, dbs[1..]), Cookie(Base(dir, d) + size));
    }
  }

  lemma EndOfBlock(dir: M.Dir, d: nat)
    requires ValidDir(dir) && d in dir.blocks
    ensures Base(dir, d) + dir.Size() <= LEAF_OFFSET && WellTiled(dir.blocks[d], DirData.HEADER, dir.Size())
    ensures |dir.blocks[d]| == dir.Size() && Base(dir, d) % 8 == 0
  {
    hide Base, M.Dir.Size, M.Dir.Valid, WellTiled;
    assert ValidBlock(dir, d);
    BaseOrder(dir, d, d);
  }

  lemma NothingAscends()
    ensures Ascending([])
  {}

  /** Blocks before the one a cookie lies in have nothing to offer. */
  lemma {:induction false} SkipBlocks(dir: M.Dir, k: nat, from: nat, cookie: nat)
    requires ValidDir(dir) && k <= from && Cookie(Base(dir, from)) <= cookie
    ensures From(ListAll(dir, dir.LiveDbs(k)), cookie) == From(ListAll(dir, dir.LiveDbs(from)), cookie)
    decreases from - k
  {
    hide BlockList, M.Dir.Valid, ValidBlock, Base, M.Dir.Size, From, M.Dir.LiveDbs;
    if k < from {
      SkipBlocks(dir, k + 1, from, cookie);
      LiveDbsStep(dir, k);
      if k < dir.leafDb && k in dir.blocks {
        var block, rest := BlockList(dir, k, DirData.HEADER), ListAll(dir, dir.LiveDbs(k + 1));
        BlockOrder(dir, k, DirData.HEADER);
        BaseOrder(dir, k, from);
        FromConcat(block, rest, cookie);
        FromAll(block, cookie);
        assert [] + From(rest, cookie) == From(rest, cookie);
      }
    }
  }

  /** A block is being listed: ptr is in it, and curoff is the byte offset of ptr. */
  ghost predicate Reading(dir: M.Dir, dbs: seq<nat>, ptr: nat, curoff: nat) {
    && Good(dir, dbs, 0) && dbs != []
    && DirData.HEADER <= ptr <= dir.Size() && ptr % 8 == 0 && curoff == Base(dir, dbs[0]) + ptr
    && WellTiled(dir.blocks[dbs[0]], ptr, dir.Size())
  }

  /** What is left to hand out while a block is being listed, and between blocks. */
  ghost function LeftHere(dir: M.Dir, dbs: seq<nat>, ptr: nat): seq<Dirent> {
    if dbs == [] then [] else BlockList(dir, dbs[0], ptr) + ListAll(dir, dbs[1..])
  }

  ghost function LeftFrom(dir: M.Dir, dbs: seq<nat>, curoff: nat): seq<Dirent> {
    From(ListAll(dir, dbs), Cookie(curoff))
  }

  /** The offset is not past the next block to be read. */
  ghost predicate Ahead(dir: M.Dir, dbs: seq<nat>, curoff: nat) {
    Good(dir, dbs, 0) && curoff % 8 == 0 && (dbs != [] ==> curoff < Base(dir, dbs[0]) + dir.Size())
  }

  /** At the end of a block, what is left is in the blocks after it. */
  lemma BlockDone(dir: M.Dir, dbs: seq<nat>, curoff: nat)
    requires ValidDir(dir) && Reading(dir, dbs, dir.Size(), curoff)
    ensures LeftFrom(dir, dbs[1..], curoff) == LeftHere(dir, dbs, dir.Size()) && Ahead(dir, dbs[1..], curoff)
  {
    hide BlockList, M.Dir.Valid, ValidBlock, Base, M.Dir.Size, From, Ascending, WellTiled;
    var d, rest := dbs[0], dbs[1..];
    GoodEarlier(dir, rest, d + 1, 0);
    EndOfBlock(dir, d);
    BaseOrder(dir, d, d + 1);
    ListOrder(dir, rest, d + 1);
    FromAll(ListAll(dir, rest), Cookie(curoff));
    EmptyBlock(dir, d);
    assert BlockList(dir, d, dir.Size()) + ListAll(dir, rest) == ListAll(dir, rest);
    if rest != [] { BaseOrder(dir, d, rest[0]); }
  }

  lemma EmptyBlock(dir: M.Dir, d: nat)
    ensures BlockList(dir, d, dir.Size()) == []
  {}

  /** Going past the entries of a block that are before an offset in it. */
  method Skip(b: seq<Byte>, ghost base: nat, size: nat, byteoff: nat) returns (ptr: nat)
    requires WellTiled(b, DirData.HEADER, size) && DirData.HEADER <= size && size % 8 == 0 && base % 8 == 0
    requires byteoff <= size && byteoff % 8 == 0
    ensures byteoff <= ptr && DirData.HEADER <= ptr <= size && ptr % 8 == 0 && WellTiled(b, ptr, size)
    ensures Listing(b, base, ptr, size) == From(Listing(b, base, DirData.HEADER, size), Cookie(base + byteoff))
  {
    hide From, Listing, WellTiled, DirData.RegionAt, DirData.Be16, DirData.NameLen, DirData.EntSize, DirentAt,
         Ascending;
    ghost var cookie, all := Cookie(base + byteoff), Listing(b, base, DirData.HEADER, size);
    ptr := DirData.HEADER;
    while ptr < byteoff
      invariant DirData.HEADER <= ptr <= size && ptr % 8 == 0 && WellTiled(b, ptr, size)
      invariant From(Listing(b, base, ptr, size), cookie) == From(all, cookie)
      decreases size - ptr
    {
      ListingStep(b, base, ptr, size);
      if DirData.Be16(b, ptr) == DirData.FREE_TAG {
        ptr := ptr + DirData.Be16(b, ptr + 2);
      } else {
        CookieAt(b, base, ptr);
        FromOne(DirentAt(b, base, ptr), Listing(b, base, DirData.RegionAt(b, ptr).End(), size), cookie);
        ptr := ptr + DirData.EntSize(DirData.NameLen(b, ptr));
      }
    }
    ListingOrder(b, base, ptr, size);
    FromAll(Listing(b, base, ptr, size), cookie);
  }

  lemma CookieAt(b: seq<Byte>, base: nat, ptr: nat)
    ensures DirentAt(b, base, ptr).cookie == Cookie(base + ptr)
  {}

  /** An offset in its block, and where that block starts. */
  function ByteOff(dir: M.Dir, curoff: nat): nat
    requires dir.Size() > 0
  {
    curoff % dir.Size()
  }

  function BlockStart(dir: M.Dir, curoff: nat): nat
    requires dir.Size() > 0
  {
    curoff / dir.Size() * dir.Size()
  }

  /** The position in a block that has just been read. */
  method Position(dir: M.Dir, d: nat, offset: nat, ghost dbs: seq<nat>) returns (ptr: nat, curoff: nat)
    requires ValidDir(dir) && Ahead(dir, dbs, offset) && dbs != [] && d == dbs[0]
    ensures Reading(dir, dbs, ptr, curoff) && LeftHere(dir, dbs, ptr) == LeftFrom(dir, dbs, offset)
  {
    hide M.Dir.Valid, ValidBlock, From, Ascending, WellTiled, Listing, Base, M.Dir.Size, ByteOff, BlockStart;
    var size, newoff := dir.Size(), Base(dir, d);
    EndOfBlock(dir, d);
    LeftInBlock(dir, dbs, offset);
    curoff := offset;
    if curoff < newoff {
      curoff := newoff;
    }
    InBlock(dir, d, curoff);
    ptr := DirData.HEADER;
    var byteoff := ByteOff(dir, curoff);
    if byteoff == 0 {
      curoff := curoff + DirData.HEADER;
    } else {
      ptr := Skip(dir.blocks[d], newoff, size, byteoff);
      curoff := BlockStart(dir, curoff) + ptr;
    }
  }

  lemma InBlock(dir: M.Dir, d: nat, curoff: nat)
    requires dir.Size() > 0 && Base(dir, d) <= curoff < Base(dir, d) + dir.Size()
    ensures ByteOff(dir, curoff) == curoff - Base(dir, d) && BlockStart(dir, curoff) == Base(dir, d)
  {
    hide M.Dir.Size;
    ModUnique(d, curoff - Base(dir, d), dir.Size());
  }

  /** What is left from an offset not past a block: of that block what is not before it, and all the others. */
  lemma LeftInBlock(dir: M.Dir, dbs: seq<nat>, offset: nat)
    requires ValidDir(dir) && Ahead(dir, dbs, offset) && dbs != []
    ensures LeftFrom(dir, dbs, offset) ==
            From(BlockList(dir, dbs[0], DirData.HEADER), Cookie(offset)) + ListAll(dir, dbs[1..])
    ensures offset <= Base(dir, dbs[0]) ==>
              From(BlockList(dir, dbs[0], DirData.HEADER), Cookie(offset)) == BlockList(dir, dbs[0], DirData.HEADER)
  {
    hide BlockList, M.Dir.Valid, ValidBlock, Base, M.Dir.Size, From, Ascending;
    var d, rest := dbs[0], dbs[1..];
    var block := BlockList(dir, d, DirData.HEADER);
    EndOfBlock(dir, d);
    BaseOrder(dir, d, d + 1);
    ListOrder(dir, rest, d + 1);
    BlockOrder(dir, d, DirData.HEADER);
    FromConcat(block, ListAll(dir, rest), Cookie(offset));
    FromAll(ListAll(dir, rest), Cookie(offset));
    FromAll(block, Cookie(offset));
  }

  /** What is left to hand out. */
  ghost function Left(dir: M.Dir, dbs: seq<nat>, bp: bool, ptr: nat, curoff: nat): seq<Dirent> {
    if bp then LeftHere(dir, dbs, ptr) else LeftFrom(dir, dbs, curoff)
  }

  /** An entry as it is handed out: its cookie has 31 bits. */
  function Masking(d: Dirent): Dirent { d.(cookie := ShortDirs.Masked(d.cookie)) }

  function MaskedAll(all: seq<Dirent>): (r: seq<Dirent>)
    ensures |r| == |all| && forall i :: 0 <= i < |all| ==> r[i] == Masking(all[i])
  {
    seq(|all|, i requires 0 <= i < |all| => Masking(all[i]))
  }

  lemma MaskedStep(d: Dirent, rest: seq<Dirent>)
    ensures MaskedAll([d] + rest) == [Masking(d)] + MaskedAll(rest)
  {}

  /** Between two turns of the loop, with or without a block in hand. */
  ghost predicate Between(dir: M.Dir, dbs: seq<nat>, blocks: nat, bp: bool, ptr: nat, curoff: nat) {
    if bp then Reading(dir, dbs, ptr, curoff) && blocks >= dir.n else Ahead(dir, dbs, curoff)
  }

  /**
   * The directory block before which a call ends. With room for more mappings than a directory block has blocks it
   * is the end of the data blocks; with room for one, and one block to a directory block, the end of the next hole.
   */
  ghost predicate EndsAt(dir: M.Dir, mapSize: nat, mapOff: nat, stop: nat) {
    && stop <= dir.leafDb && mapOff <= dir.Leaf()
    && if mapSize > dir.n then stop == dir.leafDb
       else mapSize == 1 == dir.n && stop == M.StopAt(M.Suffix(dir.recs, mapOff), dir.Leaf())
  }

  /** What a call may still hand out of what is left. */
  ghost function Due(dir: M.Dir, left: seq<Dirent>, stop: nat): seq<Dirent> { Below(left, Cookie(Base(dir, stop))) }

  /** Let go of the block in hand, if there is one, and read the next; false if there is none. */
  method NextBlock(t: M.Table, bp: bool, ptr: nat, offset: nat, wanted: nat, ghost stop: nat)
    returns (more: bool, d: nat, ptr': nat, curoff: nat)
    requires ValidDir(t.dir) && t.Valid() && t.dir.n <= wanted <= t.mapSize && EndsAt(t.dir, t.mapSize, t.mapOff, stop)
    requires Between(t.dir, t.dbs, t.mapBlocks, bp, ptr, offset) && (bp ==> ptr == t.dir.Size())
    modifies t
    ensures t.Valid() && |t.dbs| == |old(t.dbs)| - (if bp then 1 else 0)
    ensures more ==> Reading(t.dir, t.dbs, ptr', curoff) && t.mapBlocks >= t.dir.n && d == t.dbs[0] && d < stop
                     && EndsAt(t.dir, t.mapSize, t.mapOff, stop)
                     && LeftHere(t.dir, t.dbs, ptr') == old(Left(t.dir, t.dbs, bp, ptr, offset))
    ensures !more ==> curoff == Base(t.dir, stop) && Due(t.dir, old(Left(t.dir, t.dbs, bp, ptr, offset)), stop) == []
  {
    hide LeftHere, LeftFrom, Reading, Ahead, M.Dir.Valid, Base, M.Dir.Size, M.InStep, ValidBlock, Due, EndsAt;
    ghost var left := Left(t.dir, t.dbs, bp, ptr, offset);
    if bp {
      BlockDone(t.dir, t.dbs, offset);
      t.Drop();
    }
    assert Ahead(t.dir, t.dbs, offset) && LeftFrom(t.dir, t.dbs, offset) == left;
    ghost var table, mapOff := t.table, t.mapOff;
    EndsIs(t.dir, t.mapSize, t.mapOff, stop);
    TableCount(t.dir, t.table, t.mapBlocks, t.mapOff, t.dbs);
    t.Fill(wanted);
    TableCount(t.dir, t.table, t.mapBlocks, t.mapOff, t.dbs);
    if t.mapSize <= t.dir.n {
      OneFilled(t.dir, t.mapSize, table, mapOff, t.table, t.mapOff, stop);
    } else {
      EndsSame(t.dir, t.mapSize, mapOff, t.mapOff, stop);
    }
    if t.table == [] {
      NothingDue(t.dir, t.mapBlocks, t.mapOff, t.dbs, offset, stop);
      return false, 0, 0, t.mapOff / t.dir.n * t.dir.Size();
    }
    M.FirstBlock(t.dir, t.table, t.mapBlocks, t.mapOff, t.dbs);
    d := t.table[0].off / t.dir.n;
    ptr', curoff := Position(t.dir, d, offset, t.dbs);
    BlockInHand(t.dir, t.dbs, ptr', curoff);
    BeforeStop(t.dir, t.mapSize, t.table, t.mapBlocks, t.mapOff, t.dbs, stop);
    more := true;
  }

  /** With room for one mapping, after it has been asked for if the table was empty. */
  lemma OneFilled(dir: M.Dir, mapSize: nat, table: seq<M.Rec>, mapOff: nat, table': seq<M.Rec>, mapOff': nat, stop: nat)
    requires dir.Valid() && EndsAt(dir, mapSize, mapOff, stop) && mapSize <= dir.n && mapOff' <= dir.Leaf()
    requires table != [] || mapOff >= dir.Leaf() ==> table' == table && mapOff' == mapOff
    requires table == [] && mapOff < dir.Leaf() ==>
               var got := dir.Bmapi(mapOff, mapSize);
               table' == M.NonHoles(got) && mapOff' == if |got| == mapSize then got[|got| - 1].End() else dir.Leaf()
    ensures if table' == [] then mapOff' == stop else EndsAt(dir, mapSize, mapOff', stop)
  {
    hide M.Dir.Valid, M.NonHoles, M.Dir.Bmapi, M.Suffix, M.StopAt;
    M.StopBounds(dir, mapOff);
    if table == [] && mapOff < dir.Leaf() { M.OneMapping(dir, mapOff, dir.Bmapi(mapOff, 1)); }
  }

  lemma EndsIs(dir: M.Dir, mapSize: nat, mapOff: nat, stop: nat)
    requires EndsAt(dir, mapSize, mapOff, stop)
    ensures stop <= dir.leafDb && (mapSize > dir.n || mapSize == 1 == dir.n) && (mapSize > dir.n ==> stop == dir.leafDb)
  {}

  lemma EndsSame(dir: M.Dir, mapSize: nat, mapOff: nat, mapOff': nat, stop: nat)
    requires EndsAt(dir, mapSize, mapOff, stop) && mapSize > dir.n && mapOff' <= dir.Leaf()
    ensures EndsAt(dir, mapSize, mapOff', stop)
  {}

  /** Where there is nothing in the table, what is left lies behind the block before which the call ends. */
  lemma NothingDue(dir: M.Dir, blocks: nat, mapOff: nat, dbs: seq<nat>, offset: nat, stop: nat)
    requires ValidDir(dir) && M.InStep(dir, [], blocks, mapOff, dbs) && Ahead(dir, dbs, offset) && stop <= dir.leafDb
    requires (dir.n == 1 && mapOff == stop) || (dbs == [] && mapOff == dir.Leaf() && stop == dir.leafDb)
    ensures dir.n > 0 && mapOff / dir.n * dir.Size() == Base(dir, stop)
    ensures Due(dir, LeftFrom(dir, dbs, offset), stop) == []
  {
    hide M.Dir.Valid, ListAll, From, M.Expand, M.Fsbs, ValidBlock;
    LeafIs(dir);
    var all := ListAll(dir, dbs);
    FromAmong(all, Cookie(offset));
    if dbs == [] {
      NothingFrom(dir, offset);
    } else {
      M.BlocksAhead(dir, blocks, mapOff, dbs);
      assert Good(dir, dbs, stop);
      ListOrder(dir, dbs, stop);
      BelowAll(LeftFrom(dir, dbs, offset), Cookie(Base(dir, stop)));
    }
  }

  /** The block to read comes before the one before which the call ends. */
  lemma BeforeStop(dir: M.Dir, mapSize: nat, table: seq<M.Rec>, blocks: nat, mapOff: nat, dbs: seq<nat>, stop: nat)
    requires ValidDir(dir) && M.InStep(dir, table, blocks, mapOff, dbs) && blocks >= dir.n && dbs != []
    requires EndsAt(dir, mapSize, mapOff, stop) && dbs[0] in dir.blocks
    ensures dbs[0] < stop
  {
    hide M.Dir.Valid, M.Suffix, M.StopAt, ValidBlock, Base, M.Expand, M.Dir.Size;
    if mapSize > dir.n {
      EndOfBlock(dir, dbs[0]);
      BaseOrder(dir, dir.leafDb, dbs[0]);
    } else {
      M.FirstBlock(dir, table, blocks, mapOff, dbs);
      M.StopBounds(dir, mapOff);
      M.FirstIsMapped(table);
    }
  }

  lemma NothingFrom(dir: M.Dir, offset: nat)
    ensures LeftFrom(dir, [], offset) == []
  {}

  lemma LeafIs(dir: M.Dir)
    requires ValidDir(dir)
    ensures dir.n > 0 && dir.Leaf() / dir.n * dir.Size() == LEAF_OFFSET
  {
    hide M.Dir.Size;
    ModUnique(dir.leafDb, 0, dir.n);
  }

  lemma TableCount(dir: M.Dir, table: seq<M.Rec>, blocks: nat, mapOff: nat, dbs: seq<nat>)
    requires M.InStep(dir, table, blocks, mapOff, dbs)
    ensures dir.n > 0 && dir.Valid() && mapOff <= dir.Leaf() && (table == [] <==> blocks == 0)
  {
    hide M.Dir.Valid, M.Suffix, M.Expand;
    M.DirIs(dir);
    M.ExtentsCount(table);
  }

  /** The region at ptr: free space has nothing to hand out, an entry is the first of what is left. */
  lemma OneRegion(dir: M.Dir, dbs: seq<nat>, ptr: nat, curoff: nat)
    requires ValidDir(dir) && Reading(dir, dbs, ptr, curoff) && ptr < dir.Size()
    ensures var b := dir.blocks[dbs[0]];
            var r := DirData.RegionAt(b, ptr);
            && r.free == (DirData.Be16(b, ptr) == DirData.FREE_TAG)
            && r.End() == (if r.free then ptr + DirData.Be16(b, ptr + 2)
                           else ptr + DirData.EntSize(DirData.NameLen(b, ptr)))
            && ptr < r.End() && Reading(dir, dbs, r.End(), curoff + (r.End() - ptr))
            && LeftHere(dir, dbs, ptr) ==
               (if r.free then LeftHere(dir, dbs, r.End())
                else [DirentAt(b, Base(dir, dbs[0]), ptr)] + LeftHere(dir, dbs, r.End()))
            && DirentAt(b, Base(dir, dbs[0]), ptr).cookie == Cookie(curoff)
  {
    hide M.Dir.Valid, Base, M.Dir.Size, Listing, WellTiled, DirData.RegionAt, DirData.Be16, DirData.EntSize,
         DirData.NameLen;
    hide ValidBlock;
    var d := dbs[0];
    var b, base := dir.blocks[d], Base(dir, d);
    EndOfBlock(dir, d);
    ListingStep(b, base, ptr, dir.Size());
    CookieAt(b, base, ptr);
    var next := DirData.RegionAt(b, ptr).End();
    if !DirData.RegionAt(b, ptr).free {
      Associate([DirentAt(b, base, ptr)], BlockList(dir, d, next), ListAll(dir, dbs[1..]));
    }
  }

  /** One turn of the loop on the region at ptr. */
  method OneTurn(dir: M.Dir, d: nat, ghost dbs: seq<nat>, ptr: nat, curoff: nat, bufsize: nat, r: Receiver,
                 ghost goal: seq<Dirent>, ghost room: nat, ghost stop: nat)
    returns (refused: bool, ptr': nat, curoff': nat, bufsize': nat)
    requires ValidDir(dir) && Reading(dir, dbs, ptr, curoff) && d == dbs[0] && ptr < dir.Size() && d < stop
    requires Going(goal, room, r.taken, r.room, MaskedAll(Due(dir, LeftHere(dir, dbs, ptr), stop)))
    modifies r
    ensures bufsize' <= bufsize
    ensures refused ==> ptr' == ptr && curoff' == curoff && Due(dir, LeftHere(dir, dbs, ptr), stop) != []
                        && Due(dir, LeftHere(dir, dbs, ptr), stop)[0].cookie == Cookie(curoff)
                        && Going(goal, room, r.taken, 0, MaskedAll(Due(dir, LeftHere(dir, dbs, ptr), stop)))
    ensures !refused ==> ptr < ptr' && Reading(dir, dbs, ptr', curoff')
                         && Going(goal, room, r.taken, r.room, MaskedAll(Due(dir, LeftHere(dir, dbs, ptr'), stop)))
  {
    hide M.Dir.Valid, Base, M.Dir.Size, Listing, LeftHere, DirData.RegionAt, DirData.Be16, DirData.EntSize,
         DirData.NameLen;
    hide ValidBlock, DirentAt, Reading, Due, MaskedAll;
    OneRegion(dir, dbs, ptr, curoff);
    BlockInHand(dir, dbs, ptr, curoff);
    var b := dir.blocks[d];
    refused, bufsize' := false, bufsize;
    if DirData.Be16(b, ptr) == DirData.FREE_TAG {
      var length := DirData.Be16(b, ptr + 2);
      return false, ptr + length, curoff + length, bufsize;
    }
    var length := DirData.EntSize(DirData.NameLen(b, ptr));
    var entry := DirentAt(b, Base(dir, d), ptr);
    ghost var rest := LeftHere(dir, dbs, ptr + length);
    ghost var due := Due(dir, rest, stop);
    DueStep(dir, dbs, ptr, curoff, entry, rest, stop);
    MaskedStep(entry, due);
    entry := entry.(cookie := ShortDirs.Masked(Cookie(curoff)));
    Associate(r.taken, [entry], MaskedAll(due));
    refused := r.Filldir(entry);
    if refused { return true, ptr, curoff, bufsize; }
    bufsize' := if bufsize > length then bufsize - length else 0;
    ptr', curoff' := ptr + length, curoff + length;
  }

  /** An entry of a block before which the call does not end is due. */
  lemma DueStep(dir: M.Dir, dbs: seq<nat>, ptr: nat, curoff: nat, d: Dirent, rest: seq<Dirent>, stop: nat)
    requires ValidDir(dir) && Reading(dir, dbs, ptr, curoff) && ptr < dir.Size() && dbs[0] < stop
    requires d.cookie == Cookie(curoff)
    ensures Due(dir, [d] + rest, stop) == [d] + Due(dir, rest, stop)
  {
    hide M.Dir.Valid, M.Dir.Size, Base, ValidBlock, Good;
    BlockInHand(dir, dbs, ptr, curoff);
    EndOfBlock(dir, dbs[0]);
    BaseOrder(dir, dbs[0], stop);
    BelowStep(d, rest, Cookie(Base(dir, stop)));
  }

  lemma BlockInHand(dir: M.Dir, dbs: seq<nat>, ptr: nat, curoff: nat)
    requires Reading(dir, dbs, ptr, curoff)
    ensures dbs[0] in dir.blocks
  {}

  /** At the start of a call nothing has been handed out. */
  lemma Starts(dir: M.Dir, offset: nat)
    requires ValidDir(dir) && offset < MAX_DATAPTR
    ensures dir.Valid() && dir.bs > 0 && dir.Size() > 0 && dir.Size() == dir.n * dir.bs
    ensures var curoff, db := offset * 8, offset * 8 / dir.Size();
            && curoff < LEAF_OFFSET && db <= dir.leafDb && Ahead(dir, dir.LiveDbs(db), curoff)
            && LeftFrom(dir, dir.LiveDbs(db), curoff) == From(All(dir), offset)
  {
    hide M.Dir.Valid, ListAll, ValidBlock, From, M.Dir.LiveDbs, Good, Going;
    ValidIs(dir);
    OffsetBlock(dir, offset * 8);
    hide M.Dir.Size, Base;
    var curoff := offset * 8;
    var db := curoff / dir.Size();
    var dbs := dir.LiveDbs(db);
    LiveDbsGood(dir, db);
    GoodEarlier(dir, dbs, db, 0);
    FirstGood(dir, dbs, db);
    SkipBlocks(dir, 0, db, offset);
    assert Cookie(curoff) == offset;
  }

  lemma OffsetBlock(dir: M.Dir, curoff: nat)
    requires ValidDir(dir) && curoff < LEAF_OFFSET
    ensures dir.Size() > 0
    ensures var db := curoff / dir.Size();
            Base(dir, db) <= curoff < Base(dir, db) + dir.Size() && db <= dir.leafDb &&
              Cookie(Base(dir, db)) <= Cookie(curoff)
  {
    hide M.Dir.Size, M.Dir.Valid, ValidBlock;
    var db := curoff / dir.Size();
    assert db * dir.Size() <= curoff < db * dir.Size() + dir.Size();
    hide Base;
    assert Base(dir, db) == db * dir.Size() by { BaseIs(dir, db); }
    BaseOrder(dir, dir.leafDb, db);
    Grow(Base(dir, db), curoff);
  }

  lemma BaseIs(dir: M.Dir, d: nat)
    ensures Base(dir, d) == d * dir.Size()
  {}

  lemma FirstGood(dir: M.Dir, dbs: seq<nat>, from: nat)
    requires Good(dir, dbs, from)
    ensures dbs != [] ==> Base(dir, from) <= Base(dir, dbs[0])
  {
    if dbs != [] { BaseOrder(dir, from, dbs[0]); }
  }

  lemma ValidIs(dir: M.Dir)
    requires ValidDir(dir)
    ensures dir.Valid() && dir.bs > 0 && dir.Size() > 0 && dir.Size() == dir.n * dir.bs
  {}

  lemma Grow(a: nat, b: nat)
    requires a <= b
    ensures Cookie(a) <= Cookie(b)
  {}

  /** The loop of xfs_dir2_leaf_getdents; not done where an entry was refused. */
  method Loop(t: M.Table, offset: nat, bufsize0: nat, r: Receiver, ghost goal: seq<Dirent>, ghost room: nat,
              ghost stop: nat)
    returns (done: bool, curoff: nat, ghost rest: seq<Dirent>)
    requires ValidDir(t.dir) && t.Valid() && offset < LEAF_OFFSET && Ahead(t.dir, t.dbs, offset)
    requires t.dir.bs > 0 && t.dir.Size() == t.dir.n * t.dir.bs
    requires t.mapSize == M.Howmany(bufsize0 + t.dir.Size(), t.dir.bs) && EndsAt(t.dir, t.mapSize, t.mapOff, stop)
    requires Going(goal, room, r.taken, r.room, MaskedAll(Due(t.dir, LeftFrom(t.dir, t.dbs, offset), stop)))
    modifies t, r
    ensures Going(goal, room, r.taken, if done then r.room else 0, MaskedAll(rest))
    ensures done ==> curoff == Base(t.dir, stop) && rest == []
    ensures !done ==> rest != [] && rest[0].cookie == Cookie(curoff) && curoff < LEAF_OFFSET
  {
    hide M.Dir.Valid, ValidBlock, ValidDir, Base, M.Dir.Size, LeftHere, LeftFrom, Reading, Ahead, Going, Due, EndsAt;
    hide M.InStep, M.Howmany, MaskedAll;
    var size, bufsize: nat := t.dir.Size(), bufsize0;
    var bp, d: nat, ptr: nat := false, 0, 0;
    curoff := offset;
    rest := [];
    while curoff < LEAF_OFFSET
      invariant t.Valid() && bufsize <= bufsize0 && EndsAt(t.dir, t.mapSize, t.mapOff, stop)
      invariant Between(t.dir, t.dbs, t.mapBlocks, bp, ptr, curoff) && (bp ==> ptr <= size)
      invariant Going(goal, room, r.taken, r.room, MaskedAll(Due(t.dir, Left(t.dir, t.dbs, bp, ptr, curoff), stop)))
      invariant bp ==> t.dbs != [] && d == t.dbs[0] && d < stop && curoff <= LEAF_OFFSET
      invariant !bp ==> curoff < LEAF_OFFSET
      decreases |t.dbs|, if bp then 0 else 1, size - ptr
    {
      if !bp || ptr >= size {
        var wanted := M.Howmany(bufsize + size, t.dir.bs);
        Wanted(bufsize, bufsize0, size, t.dir.n, t.dir.bs);
        var more;
        more, d, ptr, curoff := NextBlock(t, bp, ptr, curoff, wanted, stop);
        if !more { return true, curoff, []; }
        bp := true;
        InHand(t.dir, t.dbs, ptr, curoff);
        if ptr >= size { continue; }
      }
      InHand(t.dir, t.dbs, ptr, curoff);
      var refused;
      refused, ptr, curoff, bufsize := OneTurn(t.dir, d, t.dbs, ptr, curoff, bufsize, r, goal, room, stop);
      if refused { return false, curoff, Due(t.dir, LeftHere(t.dir, t.dbs, ptr), stop); }
      InHand(t.dir, t.dbs, ptr, curoff);
    }
    NothingBehind(t.dir, t.dbs, ptr, curoff);
    AtTheEnd(t.dir, t.mapSize, t.mapOff, t.dbs, ptr, curoff, stop);
    done := true;
  }

  /** Behind the last block the call is where it ends. */
  lemma AtTheEnd(dir: M.Dir, mapSize: nat, mapOff: nat, dbs: seq<nat>, ptr: nat, curoff: nat, stop: nat)
    requires ValidDir(dir) && Reading(dir, dbs, ptr, curoff) && dbs[0] < stop && curoff >= LEAF_OFFSET
    requires EndsAt(dir, mapSize, mapOff, stop)
    ensures curoff == Base(dir, stop) && Due(dir, [], stop) == []
  {
    hide M.Dir.Valid, M.Dir.Size, Base, ValidBlock;
    EndOfBlock(dir, dbs[0]);
    BaseOrder(dir, dbs[0], stop);
    BaseOrder(dir, stop, dir.leafDb);
  }

  /** Where the data blocks end, nothing is left. */
  lemma NothingBehind(dir: M.Dir, dbs: seq<nat>, ptr: nat, curoff: nat)
    requires ValidDir(dir) && Reading(dir, dbs, ptr, curoff) && curoff >= LEAF_OFFSET
    ensures LeftHere(dir, dbs, ptr) == []
  {
    hide Base, M.Dir.Size, M.Dir.Valid, WellTiled, ValidBlock;
    var d := dbs[0];
    EndOfBlock(dir, d);
    EmptyBlock(dir, d);
    SecondGood(dir, dbs);
    if |dbs| > 1 {
      EndOfBlock(dir, dbs[1]);
      BaseOrder(dir, d, dbs[1]);
    }
    assert dbs[1..] == [];
  }

  lemma SecondGood(dir: M.Dir, dbs: seq<nat>)
    requires Good(dir, dbs, 0)
    ensures |dbs| > 1 ==> dbs[1] in dir.blocks && dbs[0] < dbs[1]
  {
    if |dbs| > 1 {
      var rest := dbs[1..];
      assert Good(dir, rest, dbs[0] + 1) && rest[0] == dbs[1];
    }
  }

  /** As many blocks are wanted as a directory block has, or more, but no more than there is room for. */
  lemma Wanted(bufsize: nat, bufsize0: nat, size: nat, n: nat, bs: nat)
    requires bs > 0 && size == n * bs && bufsize <= bufsize0
    ensures n <= M.Howmany(bufsize + size, bs) <= M.Howmany(bufsize0 + size, bs)
  {
    M.HowmanyGrows(bufsize + size, bufsize0 + size, bs);
    M.HowmanyIs(bufsize + size, n, bs);
  }

  lemma InHand(dir: M.Dir, dbs: seq<nat>, ptr: nat, curoff: nat)
    requires ValidDir(dir) && Reading(dir, dbs, ptr, curoff)
    ensures ptr <= dir.Size() && dbs != [] && curoff <= LEAF_OFFSET
    ensures ptr < dir.Size() ==> curoff < LEAF_OFFSET
  {
    EndOfBlock(dir, dbs[0]);
  }

  /** A call whose cookies, given and returned, have 31 bits. */
  function MaskedCallTo(all: seq<Dirent>, end: nat, cookie: nat, room: nat): (seq<Dirent>, nat) {
    var c := Call(all, end, cookie, room);
    (MaskedAll(c.0), ShortDirs.Masked(c.1))
  }

  function MaskedCall(all: seq<Dirent>, cookie: nat, room: nat): (seq<Dirent>, nat) {
    MaskedCallTo(all, END, cookie, room)
  }

  lemma MaskedRefused(all: seq<Dirent>, end: nat, cookie: nat, room: nat, taken: seq<Dirent>, rest: seq<Dirent>)
    requires Going(MaskedAll(From(all, cookie)), room, taken, 0, MaskedAll(rest)) && rest != []
    ensures MaskedCallTo(all, end, cookie, room) == (taken, ShortDirs.Masked(rest[0].cookie))
  {
    hide From, Masking;
    var left := From(all, cookie);
    assert MaskedAll(left[..room]) == MaskedAll(left)[..room] == taken;
    assert Masking(left[room]) == MaskedAll(left)[room] == MaskedAll(rest)[0] == Masking(rest[0]);
    MaskingCookie(left[room], rest[0]);
  }

  lemma MaskingCookie(a: Dirent, b: Dirent)
    requires Masking(a) == Masking(b)
    ensures ShortDirs.Masked(a.cookie) == ShortDirs.Masked(b.cookie)
  {}

  lemma MaskedFinished(all: seq<Dirent>, end: nat, cookie: nat, room: nat, taken: seq<Dirent>, left: nat)
    requires Going(MaskedAll(From(all, cookie)), room, taken, left, MaskedAll([]))
    ensures MaskedCallTo(all, end, cookie, room) == (taken, ShortDirs.Masked(end))
  {
    hide From, Masking;
    assert taken + MaskedAll([]) == taken;
    assert |From(all, cookie)| <= room;
  }

  /** The directory block before which a call ends, by the size of its buffer. */
  ghost function StopBlock(dir: M.Dir, bufsize: nat, offset: nat): nat
    requires dir.Size() > 0
  {
    if bufsize > 0 then dir.leafDb else M.StopAt(M.Suffix(dir.recs, offset * 8 / dir.Size() * dir.n), dir.Leaf())
  }

  /** The cookie of that block. */
  ghost function StopCookie(dir: M.Dir, bufsize: nat, offset: nat): nat
    requires dir.Size() > 0
  {
    Cookie(Base(dir, StopBlock(dir, bufsize, offset)))
  }

  /**
   * xfs_dir2_leaf_getdents, where every block can be read. Without a buffer size, and one block to a directory
   * block, the call ends where the next hole does.
   */
  method LeafGetdents(dir: M.Dir, bufsize: nat, offset: nat, r: Receiver) returns (offset': nat)
    requires ValidDir(dir) && (bufsize > 0 || dir.n == 1) && r.taken == []
    modifies r
    ensures offset >= MAX_DATAPTR ==> r.taken == [] && offset' == offset
    ensures offset < MAX_DATAPTR && bufsize > 0 ==> (r.taken, offset') == MaskedCall(All(dir), offset, old(r.room))
    ensures dir.Size() > 0
    ensures offset < MAX_DATAPTR ==>
              var c := StopCookie(dir, bufsize, offset);
              (r.taken, offset') == MaskedCallTo(Below(All(dir), c), Min(c, MAX_DATAPTR), offset, old(r.room))
  {
    hide ValidDir, ValidBlock, All, Ahead, LeftFrom, From, Below, MaskedAll, MaskedCallTo, Going, Good, Base, Cookie;
    hide Due, M.Dir.LiveDbs, M.Dir.Valid, M.Howmany, M.Dir.Size, EndsAt, StopBlock, StopCookie;
    ValidIs(dir);
    if offset >= MAX_DATAPTR { return offset; }
    ghost var stop, c := StopBlock(dir, bufsize, offset), StopCookie(dir, bufsize, offset);
    ghost var goal, room := MaskedAll(Due(dir, From(All(dir), offset), stop)), r.room;
    Starts(dir, offset);
    GoingStart(goal, room);
    var size, curoff := dir.Size(), offset * 8;
    var t := new M.Table(dir, M.Howmany(bufsize + size, dir.bs), curoff / size);
    Stopping(dir, bufsize, offset);
    DueIs(dir, bufsize, offset);
    var done;
    ghost var rest;
    done, curoff, rest := Loop(t, curoff, bufsize, r, goal, room, stop);
    if done {
      MaskedFinished(Below(All(dir), c), Min(c, MAX_DATAPTR), offset, room, r.taken, r.room);
    } else {
      MaskedRefused(Below(All(dir), c), Min(c, MAX_DATAPTR), offset, room, r.taken, rest);
    }
    MaskedEnd(curoff);
    offset' := ShortDirs.Masked(if curoff > MAX_DATAPTR * 8 then MAX_DATAPTR else Cookie(curoff));
    if bufsize > 0 { EndsBehindAll(dir, bufsize, offset, room); }
  }

  /** At the start, the table has room for enough mappings, or for one. */
  lemma Stopping(dir: M.Dir, bufsize: nat, offset: nat)
    requires ValidDir(dir) && (bufsize > 0 || dir.n == 1) && offset < MAX_DATAPTR
    ensures dir.bs > 0 && dir.Size() > 0
    ensures var db := offset * 8 / dir.Size();
            EndsAt(dir, M.Howmany(bufsize + dir.Size(), dir.bs), db * dir.n, StopBlock(dir, bufsize, offset))
    ensures Base(dir, StopBlock(dir, bufsize, offset)) <= LEAF_OFFSET
    ensures Base(dir, StopBlock(dir, bufsize, offset)) % 8 == 0
  {
    ValidIs(dir);
    OffsetBlock(dir, offset * 8);
    hide M.Dir.Valid, M.StopAt, M.Suffix, M.Howmany, ValidBlock, Base;
    var db, stop := offset * 8 / dir.Size(), StopBlock(dir, bufsize, offset);
    M.HowmanyIs(bufsize + dir.Size(), dir.n, dir.bs);
    Row(db, dir.leafDb, dir.n);
    M.StopBounds(dir, db * dir.n);
    if bufsize == 0 { OneBlockRoom(dir); }
    BaseOrder(dir, stop, dir.leafDb);
    BaseOrder(dir, stop, stop);
  }

  lemma OneBlockRoom(dir: M.Dir)
    requires dir.n == 1 && dir.bs > 0
    ensures M.Howmany(dir.Size(), dir.bs) == 1
  {
    ModUnique(1, dir.bs - 1, dir.bs);
  }

  lemma DueIs(dir: M.Dir, bufsize: nat, offset: nat)
    requires dir.Size() > 0
    ensures From(Below(All(dir), StopCookie(dir, bufsize, offset)), offset)
         == Due(dir, From(All(dir), offset), StopBlock(dir, bufsize, offset))
    ensures StopCookie(dir, bufsize, offset) == Cookie(Base(dir, StopBlock(dir, bufsize, offset)))
  {
    hide All, StopBlock;
    FromBelow(All(dir), offset, StopCookie(dir, bufsize, offset));
  }

  /** With a buffer size, a call ends behind all entries. */
  lemma EndsBehindAll(dir: M.Dir, bufsize: nat, offset: nat, room: nat)
    requires ValidDir(dir) && bufsize > 0 && dir.Size() > 0
    ensures var c := StopCookie(dir, bufsize, offset);
            MaskedCallTo(Below(All(dir), c), Min(c, MAX_DATAPTR), offset, room) == MaskedCall(All(dir), offset, room)
  {
    hide M.Dir.Valid, M.Dir.Size, M.Dir.LiveDbs, ValidBlock, ListAll, From, MaskedAll;
    LiveDbsGood(dir, 0);
    ListOrder(dir, dir.LiveDbs(0), 0);
    BelowAll(All(dir), Cookie(LEAF_OFFSET));
    assert ShortDirs.Masked(MAX_DATAPTR) == ShortDirs.Masked(END);
  }

  lemma MaskedEnd(curoff: nat)
    ensures MAX_DATAPTR * 8 < curoff < LEAF_OFFSET ==> Cookie(curoff) == MAX_DATAPTR
    ensures curoff <= LEAF_OFFSET && curoff % 8 == 0 ==>
              Min(Cookie(curoff), MAX_DATAPTR) == if curoff > MAX_DATAPTR * 8 then MAX_DATAPTR else Cookie(curoff)
  {}

  // --- the 31 bits of a cookie ---------------------------------------------------------------

  /** Every entry lies below 16 GiB: its cookie is below the one returned at the end. */
  ghost predicate Fits(all: seq<Dirent>) { forall d <- all :: d.cookie < END }

  lemma AllAscends(dir: M.Dir)
    requires ValidDir(dir)
    ensures Ascending(All(dir))
  {
    hide M.Dir.Valid, ListAll, M.Dir.LiveDbs, M.Dir.Size, ValidBlock, Ascending;
    LiveDbsGood(dir, 0);
    ListOrder(dir, dir.LiveDbs(0), 0);
  }

  /** Where all entries fit, the masks change nothing. */
  lemma FitsUnmasked(all: seq<Dirent>, cookie: nat, room: nat)
    requires Fits(all)
    ensures MaskedCall(all, cookie, room) == Call(all, END, cookie, room)
  {
    FromAmong(all, cookie);
    var c := Call(all, END, cookie, room);
    assert forall d <- c.0 :: d.cookie < END;
    assert MaskedAll(c.0) == c.0;
  }

  lemma {:induction false} FromAmong(all: seq<Dirent>, cookie: nat)
    ensures forall d <- From(all, cookie) :: d in all && d.cookie >= cookie
    ensures forall d <- all :: d.cookie >= cookie ==> d in From(all, cookie)
    decreases |all|
  {
    if all != [] { FromAmong(all[1..], cookie); }
  }

  /** After the end, a call delivers nothing if and only if every entry lies below 16 GiB. */
  lemma EndIsFinalIff(all: seq<Dirent>, room: nat)
    requires room > 0
    ensures MaskedCall(all, END, room).0 == [] <==> Fits(all)
  {
    FromAmong(all, END);
    var rest := From(all, END);
    if rest != [] { assert rest[0] in rest; }
  }

  /** A series of calls. */
  function MaskedCalls(all: seq<Dirent>, cookie: nat, rooms: seq<nat>): (seq<Dirent>, nat)
    decreases |rooms|
  {
    if rooms == [] then ([], cookie)
    else
      var first := MaskedCall(all, cookie, rooms[0]);
      var rest := MaskedCalls(all, first.1, rooms[1..]);
      (first.0 + rest.0, rest.1)
  }

  lemma {:induction false} FitsUnmaskedCalls(all: seq<Dirent>, cookie: nat, rooms: seq<nat>)
    requires Fits(all)
    ensures MaskedCalls(all, cookie, rooms) == Calls(all, END, cookie, rooms)
    decreases |rooms|
  {
    hide Call, MaskedCall;
    if rooms != [] {
      FitsUnmasked(all, cookie, rooms[0]);
      FitsUnmaskedCalls(all, Call(all, END, cookie, rooms[0]).1, rooms[1..]);
    }
  }

  /** The series delivers, in order, as many entries as there was room for; after the last nothing more. */
  ghost predicate EachIsListedOnce(all: seq<Dirent>, rooms: seq<nat>, more: seq<nat>) {
    && MaskedCalls(all, 0, rooms).0 == all[..Min(Sum(rooms), |all|)]
    && (Sum(rooms) >= |all| ==> MaskedCalls(all, 0, rooms) == (all, END) && MaskedCalls(all, END, more) == ([], END))
  }

  /**
   * Any series of calls delivers the live entries of all data blocks in order, each once, if and only if all
   * of them lie below 16 GiB.
   */
  lemma LeafEachOnceIff(dir: M.Dir)
    requires ValidDir(dir)
    ensures (forall rooms, more :: rooms != [] ==> EachIsListedOnce(All(dir), rooms, more)) <==> Fits(All(dir))
  {
    hide ValidDir, All, Call, MaskedCall, Calls, Ascending, Sum, Fits;
    var all := All(dir);
    if Fits(all) {
      AllAscends(dir);
      FitsBefore(all);
      forall rooms: seq<nat>, more: seq<nat> | rooms != [] ensures EachIsListedOnce(all, rooms, more) {
        EachOnce(all, END, rooms, more);
        FitsUnmaskedCalls(all, 0, rooms);
        FitsUnmaskedCalls(all, END, more);
      }
    } else {
      var rooms, more: seq<nat> := [|all|], [1];
      OneRoom(all);
      EndIsFinalIff(all, 1);
      OneCall(all, END, 1);
      assert !EachIsListedOnce(all, rooms, more);
    }
  }

  lemma FitsBefore(all: seq<Dirent>)
    ensures Fits(all) ==> Before(all, END)
  {}

  lemma OneRoom(all: seq<Dirent>)
    ensures Sum([|all|]) == |all|
  {
    assert [|all|][1..] == [];
  }

  lemma OneCall(all: seq<Dirent>, cookie: nat, room: nat)
    ensures MaskedCalls(all, cookie, [room]) == MaskedCall(all, cookie, room)
  {
    assert [room][1..] == [];
    var c := MaskedCall(all, cookie, room);
    assert c.0 + [] == c.0;
  }

  // --- a directory whose only entry lies behind 16 GiB -----------------------------------------

  const FAR: nat := 0x40_0000

  /** One entry named "a", and free space behind it. */
  function FarBlock(): (b: seq<Byte>)
    ensures |b| == 4096 && forall i :: 0 <= i < 4096 ==> b[i] == FarByte(i)
  {
    seq(4096, i requires 0 <= i < 4096 => FarByte(i))
  }

  function FarByte(i: nat): Byte {
    match i
    case 24 => 1
    case 25 => 0x61
    case 32 => 0xff
    case 33 => 0xff
    case 34 => 0x0f
    case 35 => 0xe0
    case _ => 0
  }

  function FarDir(): M.Dir { M.Lone(1, 4096, 0x80_0000, FAR, FarBlock()) }

  lemma FarTiles()
    ensures DirData.RegionAt(FarBlock(), 16) == DirData.Region(16, 16, false)
    ensures DirData.RegionAt(FarBlock(), 32) == DirData.Region(32, 4064, true)
    ensures DirData.NameAt(FarBlock(), 16) == [0x61] && Be64(FarBlock(), 16) == 0
  {}

  lemma FarBlockIs(base: nat)
    ensures WellTiled(FarBlock(), 16, 4096)
    ensures Listing(FarBlock(), base, 16, 4096) == [Dirent([0x61], 0, Cookie(base + 16))]
  {
    FarTiles();
    hide FarBlock, DirData.RegionAt, DirData.NameAt, Be64;
    var b := FarBlock();
    assert WellTiled(b, 4096, 4096) && Listing(b, base, 4096, 4096) == [];
    assert WellTiled(b, 32, 4096) && Listing(b, base, 32, 4096) == [];
  }

  lemma FarValid()
    ensures ValidDir(FarDir())
  {
    M.LoneValid(1, 4096, 0x80_0000, FAR, FarBlock());
    FarBlockIs(0);
    hide FarBlock, M.Dir.Valid, M.LoneRecs, WellTiled, Listing;
    assert ValidBlock(FarDir(), FAR);
  }

  lemma FarAll()
    ensures All(FarDir()) == [Dirent([0x61], 0, 0x8000_0002)]
  {
    hide FarBlock, WellTiled, Listing, M.Dir.LiveDbs, M.LoneRecs, BlockList;
    LoneAll(1, 4096, 0x80_0000, FAR, FarBlock());
    FarList();
  }

  lemma FarList()
    ensures BlockList(FarDir(), FAR, DirData.HEADER) == [Dirent([0x61], 0, 0x8000_0002)]
  {
    hide FarBlock, WellTiled, Listing, M.LoneRecs;
    FarBlockIs(0x4_0000_0000);
  }

  lemma LoneAll(n: nat, bs: nat, leafDb: nat, k: nat, b: seq<Byte>)
    requires k + 1 < leafDb
    ensures var dir := M.Lone(n, bs, leafDb, k, b);
            All(dir) == BlockList(dir, k, DirData.HEADER)
  {
    M.LoneLive(n, bs, leafDb, k, b, 0);
    hide BlockList, M.Dir.LiveDbs, M.Lone;
    var dir := M.Lone(n, bs, leafDb, k, b);
    assert ListAll(dir, [k][1..]) == [];
    assert BlockList(dir, k, DirData.HEADER) + [] == BlockList(dir, k, DirData.HEADER);
  }

  /** The listing of that directory is never over: after the end its entry is delivered again, with cookie 2. */
  method ListFarTwice(bufsize: nat) returns (first: seq<Dirent>, end: nat, second: seq<Dirent>, end': nat)
    requires bufsize > 0
    ensures first == second == [Dirent([0x61], 0, 2)] && end == end' == END
  {
    FarValid();
    FarAll();
    hide FarDir, All, ValidDir, MaskedCall;
    var r := new Receiver(1);
    end := LeafGetdents(FarDir(), bufsize, 0, r);
    var r' := new Receiver(1);
    end' := LeafGetdents(FarDir(), bufsize, end, r');
    FarCall(0);
    FarCall(END);
    first, second := r.taken, r'.taken;
  }

  lemma FarCall(cookie: nat)
    requires cookie <= END
    ensures MaskedCall([Dirent([0x61], 0, 0x8000_0002)], cookie, 1) == ([Dirent([0x61], 0, 2)], END)
  {
    var all := [Dirent([0x61], 0, 0x8000_0002)];
    FromAll(all, cookie);
    assert Masking(all[0]) == Dirent([0x61], 0, 2);
    assert MaskedAll(all) == [Dirent([0x61], 0, 2)];
  }

  /**
   * The first request with a buffer size of zero, in a directory whose one block is n extents behind a hole. One
   * block is missing in the table, so that for n > 1 more blocks will be taken out than there are.
   */
  method RequestWithoutBuffer(n: nat, bs: nat, leafDb: nat, k: nat, b: seq<Byte>) returns (t: M.Table)
    requires n > 0 && bs > 0 && 0 < k && k + 1 < leafDb
    ensures t.dir == M.Lone(n, bs, leafDb, k, b) && t.dir.LiveDbs(0) == [k] && t.mapBlocks == n - 1
  {
    M.RoomForNIsNotEnough(n, bs, leafDb, k, b);
    LoneSize(n, bs, leafDb, k, b);
    hide M.Lone, M.Dir.Valid, M.Dir.Bmapi, M.Dir.LiveDbs, M.Dir.Leaf, M.Fsbs, M.NonHoles;
    var dir := M.Lone(n, bs, leafDb, k, b);
    var mapSize := M.Howmany(0 + dir.Size(), dir.bs);
    t := new M.Table(dir, mapSize, 0);
    t.Fill(mapSize);
    GotBlocks(dir, dir.Bmapi(0, n), t.table, t.mapBlocks, t.mapOff, t.dbs);
  }

  /** For n == 1 the call ends at once: nothing is delivered, and the cookie is that of the end of the hole. */
  method ListWithoutBuffer(bs: nat, leafDb: nat, k: nat, b: seq<Byte>, r: Receiver) returns (offset': nat)
    requires 0 < k && k + 1 < leafDb && ValidDir(M.Lone(1, bs, leafDb, k, b)) && r.taken == []
    modifies r
    ensures r.taken == [] && offset' == ShortDirs.Masked(Cookie(Base(M.Lone(1, bs, leafDb, k, b), k)))
    ensures All(M.Lone(1, bs, leafDb, k, b)) == BlockList(M.Lone(1, bs, leafDb, k, b), k, DirData.HEADER)
  {
    ghost var dir := M.Lone(1, bs, leafDb, k, b);
    LoneAll(1, bs, leafDb, k, b);
    LoneStops(bs, leafDb, k, b, r.room);
    hide ValidDir, All, BlockList, M.Lone, MaskedCallTo, StopCookie, Below;
    offset' := LeafGetdents(M.Lone(1, bs, leafDb, k, b), 0, 0, r);
  }

  lemma LoneStops(bs: nat, leafDb: nat, k: nat, b: seq<Byte>, room: nat)
    requires 0 < k && k + 1 < leafDb && ValidDir(M.Lone(1, bs, leafDb, k, b))
    ensures var dir := M.Lone(1, bs, leafDb, k, b);
            && dir.n == 1 && dir.Size() > 0 && StopCookie(dir, 0, 0) == Cookie(Base(dir, k))
            && MaskedCallTo(Below(All(dir), Cookie(Base(dir, k))), Min(Cookie(Base(dir, k)), MAX_DATAPTR), 0, room)
               == ([], ShortDirs.Masked(Cookie(Base(dir, k))))
  {
    var dir := M.Lone(1, bs, leafDb, k, b);
    LoneAll(1, bs, leafDb, k, b);
    ValidIs(dir);
    M.LoneParts(1, leafDb, k);
    M.SuffixFromStart(dir.recs, 0);
    hide ValidBlock, M.Dir.Valid, All, BlockList, M.LoneRecs;
    BlockOrder(dir, k, DirData.HEADER);
    BelowAll(All(dir), Cookie(Base(dir, k)));
    EndOfBlock(dir, k);
  }

  lemma LoneSize(n: nat, bs: nat, leafDb: nat, k: nat, b: seq<Byte>)
    requires n > 0 && bs > 0 && k + 1 < leafDb
    ensures var dir := M.Lone(n, bs, leafDb, k, b);
            && dir.n == n && dir.bs == bs && dir.leafDb == leafDb && dir.Leaf() > 0
            && M.Howmany(dir.Size(), bs) == n
            && Base(dir, k) == M.First(k, 1) * dir.Size()
  {
    hide M.LoneRecs;
    ModUnique(n, bs - 1, bs);
    Row(0, leafDb, n);
  }

  /** In the table there are the blocks of the mappings that are not holes. */
  lemma GotBlocks(dir: M.Dir, got: seq<M.Rec>, table: seq<M.Rec>, blocks: nat, mapOff: nat, dbs: seq<nat>)
    requires dir.Valid() && M.InStep(dir, table, blocks, mapOff, dbs)
    requires (forall r <- got :: r.count > 0) && table == M.NonHoles(got)
    ensures blocks == |M.Fsbs(got)| && (table == [] <==> blocks == 0)
  {
    hide M.Dir.Valid, M.NonHoles, M.Expand, M.Suffix;
    M.NonHolesAre(got);
    M.ExtentsCount(table);
  }
}
