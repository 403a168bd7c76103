/** Listing the directories that fit in an inode or in one block. */
module ShortDirs {

  import opened Basics
  import opened Cookies
  import opened DirData

  /** XFS_ERROR(EIO) */
  const EIO := -5

  const DOT_OFFSET := 16
  const DOTDOT_OFFSET := 32

  /** Cookies are given out, and come back, with 31 bits. */
  function Masked(cookie: nat): nat { cookie % 0x8000_0000 }

  datatype SfEntry = SfEntry(offset: nat, name: seq<bv8>, ino: nat)

  /** A directory in its inode; an entry has the offset it would have in a block. */
  datatype SfDir = SfDir(bytes: nat, ino: nat, parent: nat, entries: seq<SfEntry>) {
    ghost predicate Valid(size: nat) {
      && size <= 65536
      && (forall e <- entries :: DOTDOT_OFFSET < e.offset < size && e.offset % 8 == 0)
      && (forall i, j :: 0 <= i < j < |entries| ==> entries[i].offset < entries[j].offset)
    }
  }

  /** A byte offset in the directory as a cookie. */
  function Cookie(offset: nat): nat { offset / 8 }

  function SfDirent(e: SfEntry): Dirent { Dirent(e.name, e.ino, Cookie(e.offset)) }

  function SfTail(dir: SfDir, i: nat): (all: seq<Dirent>)
    requires i <= |dir.entries|
    ensures |all| == |dir.entries| - i && forall k :: 0 <= k < |all| ==> all[k] == SfDirent(dir.entries[i + k])
  {
    seq(|dir.entries| - i, k requires 0 <= k < |dir.entries| - i => SfDirent(dir.entries[i + k]))
  }

  function Dots(dir: SfDir): seq<Dirent> {
    [Dirent([0x2e], dir.ino, Cookie(DOT_OFFSET)), Dirent([0x2e, 0x2e], dir.parent, Cookie(DOTDOT_OFFSET))]
  }

  /** Everything there is to list: the two dots first. */
  function SfAll(dir: SfDir): seq<Dirent> { Dots(dir) + SfTail(dir, 0) }

  lemma SfAscending(dir: SfDir, size: nat)
    requires dir.Valid(size) && size >= 40 && size % 8 == 0
    ensures Ascending(SfAll(dir)) && Before(SfAll(dir), Cookie(size))
    ensures forall d <- SfAll(dir) :: Masked(d.cookie) == d.cookie
  {
    var dots, rest := Dots(dir), SfTail(dir, 0);
    SfTailAscending(dir, size);
    assert forall d <- dots :: d.cookie <= 4 && Masked(d.cookie) == d.cookie;
    hide Ascending, SfTail, Dots, Cookie, Masked;
    assert SfAll(dir) == dots + rest;
    AscendingConcat(dots, rest, 5);
  }

  lemma SfTailAscending(dir: SfDir, size: nat)
    requires dir.Valid(size) && size >= 40 && size % 8 == 0
    ensures Ascending(SfTail(dir, 0)) && Ascending(Dots(dir)) && 4 < Cookie(size)
    ensures forall d <- SfTail(dir, 0) :: 4 < d.cookie < Cookie(size) && Masked(d.cookie) == d.cookie
  {
    var rest := SfTail(dir, 0);
    forall i | 0 <= i < |rest|
      ensures rest[i].cookie * 8 == dir.entries[i].offset && DOTDOT_OFFSET < dir.entries[i].offset < size {
      assert dir.entries[i] in dir.entries && rest[i] == SfDirent(dir.entries[i]);
    }
  }

  /** What has been taken, what is still to be offered, and the room left. */
  ghost predicate Going(goal: seq<Dirent>, room: nat, taken: seq<Dirent>, left: nat, pending: seq<Dirent>) {
    goal == taken + pending && |taken| + left == room
  }

  /** The first entry that is refused is where the next call goes on. */
  lemma Refused(all: seq<Dirent>, end: nat, cookie: nat, room: nat, taken: seq<Dirent>, pending: seq<Dirent>)
    requires Going(From(all, cookie), room, taken, 0, pending) && pending != []
    ensures Call(all, end, cookie, room) == (taken, pending[0].cookie)
  {}

  lemma Finished(all: seq<Dirent>, end: nat, cookie: nat, room: nat, taken: seq<Dirent>, left: nat)
    requires Going(From(all, cookie), room, taken, left, [])
    ensures Call(all, end, cookie, room) == (taken, end)
  {
    assert taken + [] == taken;
  }

  /** Hand out one entry. If it is refused the call is over, and its cookie is returned. */
  method Give(d: Dirent, ghost cookie: nat, r: Receiver, ghost all: seq<Dirent>, ghost end: nat, ghost room: nat,
              ghost rest: seq<Dirent>)
    returns (refused: bool)
    requires d.cookie >= cookie && Going(From(all, cookie), room, r.taken, r.room, From([d] + rest, cookie))
    modifies r
    ensures if refused then (r.taken, d.cookie) == Call(all, end, cookie, room)
            else Going(From(all, cookie), room, r.taken, r.room, From(rest, cookie))
  {
    FromOne(d, rest, cookie);
    hide From, Call;
    Associate(r.taken, [d], From(rest, cookie));
    refused := r.Filldir(d);
    if refused { Refused(all, end, cookie, room, r.taken, [d] + From(rest, cookie)); }
  }

  /** Hand out one entry if it is not before the cookie. */
  method Offer(d: Dirent, cookie: nat, r: Receiver, ghost all: seq<Dirent>, ghost end: nat, ghost room: nat,
               ghost rest: seq<Dirent>)
    returns (refused: bool)
    requires Going(From(all, cookie), room, r.taken, r.room, From([d] + rest, cookie))
    modifies r
    ensures if refused then (r.taken, d.cookie) == Call(all, end, cookie, room)
            else Going(From(all, cookie), room, r.taken, r.room, From(rest, cookie))
  {
    FromOne(d, rest, cookie);
    hide From, Call, Going;
    refused := false;
    if d.cookie >= cookie {
      refused := Give(d, cookie, r, all, end, room, rest);
    }
  }

  /** The loop over the entries. */
  method OfferEntries(dir: SfDir, offset: nat, r: Receiver, ghost all: seq<Dirent>, ghost end: nat, ghost room: nat)
    returns (refused: bool, cookie: nat)
    requires Going(From(all, offset), room, r.taken, r.room, From(SfTail(dir, 0), offset))
    modifies r
    ensures refused ==> (r.taken, cookie) == Call(all, end, offset, room)
    ensures refused ==> exists e <- dir.entries :: cookie == Cookie(e.offset)
    ensures !refused ==> Going(From(all, offset), room, r.taken, r.room, [])
  {
    hide From, Call, Going;
    refused, cookie := false, 0;
    for i := 0 to |dir.entries|
      invariant Going(From(all, offset), room, r.taken, r.room, From(SfTail(dir, i), offset))
    {
      var d := SfDirent(dir.entries[i]);
      assert SfTail(dir, i) == [d] + SfTail(dir, i + 1);
      refused := Offer(d, offset, r, all, end, room, SfTail(dir, i + 1));
      if refused { return true, d.cookie; }
    }
    NothingLeft(offset);
    assert SfTail(dir, |dir.entries|) == [];
  }

  /** xfs_dir2_sf_getdents */
  method SfGetdents(dir: SfDir, size: nat, offset: nat, r: Receiver) returns (error: int, offset': nat)
    requires dir.Valid(size) && size >= 40 && size % 8 == 0 && r.taken == []
    modifies r
    ensures dir.bytes < 2 ==> error == EIO && offset' == offset && r.taken == []
    ensures dir.bytes >= 2 ==> error == 0
    ensures dir.bytes >= 2 && offset >= Cookie(size) ==> r.taken == [] && offset' == offset
    ensures dir.bytes >= 2 && offset < Cookie(size) ==>
              (r.taken, offset') == Call(SfAll(dir), Cookie(size), offset, old(r.room))
  {
    error, offset' := 0, offset;
    if dir.bytes < 2 { return EIO, offset; }
    PastTheEnd(offset, size);
    if offset * 8 / size > 0 { return; }
    ghost var room, all, end := r.room, SfAll(dir), Cookie(size);
    GoingStart(From(all, offset), room);
    var dot, dotdot := Dots(dir)[0], Dots(dir)[1];
    assert Masked(dot.cookie) == dot.cookie && Masked(dotdot.cookie) == dotdot.cookie;
    assert all == [dot] + ([dotdot] + SfTail(dir, 0));
    MaskedEnd(dir, size);
    hide *;
    var refused := Offer(dot, offset, r, all, end, room, [dotdot] + SfTail(dir, 0));
    if refused { return 0, Masked(dot.cookie); }
    refused := Offer(dotdot, offset, r, all, end, room, SfTail(dir, 0));
    if refused { return 0, Masked(dotdot.cookie); }
    var cookie;
    refused, cookie := OfferEntries(dir, offset, r, all, end, room);
    if refused { return 0, Masked(cookie); }
    Finished(all, end, offset, room, r.taken, r.room);
    offset' := Masked(Cookie(size));
  }

  lemma PastTheEnd(offset: nat, size: nat)
    requires size > 0 && size % 8 == 0
    ensures offset * 8 / size > 0 <==> offset >= Cookie(size)
  {
    Divide(offset * 8, size);
  }

  lemma MaskedEnd(dir: SfDir, size: nat)
    requires dir.Valid(size)
    ensures Masked(Cookie(size)) == Cookie(size)
    ensures forall e <- dir.entries :: Masked(Cookie(e.offset)) == Cookie(e.offset)
  {}

  lemma GoingStart(goal: seq<Dirent>, room: nat)
    ensures Going(goal, room, [], room, goal)
  {
    assert [] + goal == goal;
  }

  lemma NothingLeft(cookie: nat)
    ensures From([], cookie) == []
  {}

  function Be64(b: seq<Byte>, i: nat): nat { Be32(b, i) * 0x1_0000_0000 + Be32(b, i + 4) }

  /** The entry at an offset in a block that itself starts at byte `base` of the directory. */
  function DirentAt(b: seq<Byte>, base: nat, at: nat): Dirent {
    Dirent(NameAt(b, at), Be64(b, at), Cookie(base + at))
  }

  /** The entries of a block from ptr on. */
  function Listing(b: seq<Byte>, base: nat, ptr: nat, end: nat): seq<Dirent>
    decreases end - ptr
  {
    if ptr >= end || !Whole(RegionAt(b, ptr), end) then []
    else
      (if RegionAt(b, ptr).free then [] else [DirentAt(b, base, ptr)]) + Listing(b, base, RegionAt(b, ptr).End(), end)
  }

  /** The regions from ptr on go exactly to the end. */
  predicate WellTiled(b: seq<Byte>, ptr: nat, end: nat)
    decreases end - ptr
  {
    ptr == end || (ptr < end && Whole(RegionAt(b, ptr), end) && WellTiled(b, RegionAt(b, ptr).End(), end))
  }

  /** A block the checker finds no fault with is well tiled. */
  lemma {:induction false} TilingIsWell(b: seq<Byte>, rs: seq<Region>, ptr: nat, end: nat)
    requires Tiling(b, rs, ptr, end)
    ensures WellTiled(b, ptr, end)
    decreases |rs|
  {
    if rs != [] { TilingIsWell(b, rs[1..], rs[0].End(), end); }
  }

  lemma {:induction false} ListingOrder(b: seq<Byte>, base: nat, ptr: nat, end: nat)
    requires ptr % 8 == 0 && base % 8 == 0 && end % 8 == 0 && ptr <= end
    ensures Ascending(Listing(b, base, ptr, end))
    ensures forall d <- Listing(b, base, ptr, end) ::
              Cookie(base + ptr) <= d.cookie && d.cookie + 2 <= Cookie(base + end)
    decreases end - ptr
  {
    hide RegionAt, NameAt, Be64;
    if ptr < end && Whole(RegionAt(b, ptr), end) {
      RegionStarts(b, ptr);
      var next := RegionAt(b, ptr).End();
      ListingOrder(b, base, next, end);
      var rest := Listing(b, base, next, end);
      if RegionAt(b, ptr).free {
        assert [] + rest == rest;
      } else {
        AscendingConcat([DirentAt(b, base, ptr)], rest, Cookie(base + next));
      }
    }
  }

  lemma RegionStarts(b: seq<Byte>, ptr: nat)
    ensures RegionAt(b, ptr).at == ptr && (!RegionAt(b, ptr).free ==> RegionAt(b, ptr).size >= 16)
  {}

  lemma ListingStep(b: seq<Byte>, base: nat, ptr: nat, end: nat)
    requires WellTiled(b, ptr, end) && ptr % 8 == 0 && end % 8 == 0 && ptr < end
    ensures var r := RegionAt(b, ptr);
            && ptr < r.End() <= end && r.End() % 8 == 0 && WellTiled(b, r.End(), end)
            && r.free == (Be16(b, ptr) == FREE_TAG)
            && r.End() == (if r.free then ptr + Be16(b, ptr + 2) else ptr + EntSize(NameLen(b, ptr)))
            && Listing(b, base, ptr, end) ==
               if r.free then Listing(b, base, r.End(), end)
               else [DirentAt(b, base, ptr)] + Listing(b, base, r.End(), end)
  {
    hide Be16, EntSize, NameLen, DirentAt;
    var rest := Listing(b, base, RegionAt(b, ptr).End(), end);
    assert [] + rest == rest;
  }

  lemma ListingEnds(b: seq<Byte>, base: nat, end: nat)
    ensures Listing(b, base, end, end) == []
  {}

  /** Everything in a block-format directory. */
  function BlockAll(b: seq<Byte>): seq<Dirent>
    requires |b| >= 8 && TailFits(b)
  {
    Listing(b, 0, HEADER, LeafStart(b))
  }

  lemma BlockAscending(b: seq<Byte>)
    requires 24 <= |b| <= 65536 && |b| % 8 == 0 && TailFits(b)
    ensures Ascending(BlockAll(b)) && Before(BlockAll(b), Cookie(|b|))
    ensures forall d <- BlockAll(b) :: Masked(d.cookie) == d.cookie
  {
    BlockBounds(b, 0);
    hide Listing, Be32, TailFits, LeafStart, Masked, Ascending, BlockAll;
    ListingOrder(b, 0, HEADER, LeafStart(b));
    forall d <- BlockAll(b) ensures Masked(d.cookie) == d.cookie && d.cookie < Cookie(|b|) {
      SmallCookie(8 * d.cookie);
      assert Cookie(8 * d.cookie) == d.cookie;
    }
  }

  /** The loop over the data portion of a block. */
  method OfferBlock(b: seq<Byte>, endptr: nat, ghost offset: nat, wantoff: nat, r: Receiver,
                    ghost all: seq<Dirent>, ghost end: nat, ghost room: nat)
    returns (refused: bool, dep: nat)
    requires HEADER <= endptr && endptr % 8 == 0 && WellTiled(b, HEADER, endptr) && wantoff == offset * 8
    requires Going(From(all, offset), room, r.taken, r.room, From(Listing(b, 0, HEADER, endptr), offset))
    modifies r
    ensures refused ==> dep < endptr && (r.taken, Cookie(dep)) == Call(all, end, offset, room)
    ensures !refused ==> Going(From(all, offset), room, r.taken, r.room, [])
  {
    hide From, Call, Going, Be16, NameLen, EntSize, RegionAt, WellTiled, Listing, NameAt, Be64;
    refused, dep := false, 0;
    var ptr := HEADER;
    while ptr < endptr
      invariant HEADER <= ptr <= endptr && ptr % 8 == 0 && WellTiled(b, ptr, endptr)
      invariant Going(From(all, offset), room, r.taken, r.room, From(Listing(b, 0, ptr, endptr), offset))
      decreases endptr - ptr
    {
      ListingStep(b, 0, ptr, endptr);
      if Be16(b, ptr) == FREE_TAG {
        ptr := ptr + Be16(b, ptr + 2);
        continue;
      }
      dep := ptr;
      ptr := ptr + EntSize(NameLen(b, ptr));
      ghost var rest := Listing(b, 0, ptr, endptr);
      FromOne(DirentAt(b, 0, dep), rest, offset);
      if dep < wantoff { continue; }
      refused := Give(DirentAt(b, 0, dep), offset, r, all, end, room, rest);
      if refused { return; }
    }
    ListingEnds(b, 0, endptr);
    NothingLeft(offset);
  }

  /** xfs_dir2_block_getdents, for a block that was read. */
  method BlockGetdents(b: seq<Byte>, offset: nat, r: Receiver) returns (offset': nat)
    requires 24 <= |b| <= 65536 && |b| % 8 == 0 && TailFits(b) && WellTiled(b, HEADER, LeafStart(b))
    requires r.taken == []
    modifies r
    ensures offset >= Cookie(|b|) ==> r.taken == [] && offset' == offset
    ensures offset < Cookie(|b|) ==> (r.taken, offset') == Call(BlockAll(b), Cookie(|b|), offset, old(r.room))
  {
    BlockBounds(b, offset);
    hide *;
    offset' := offset;
    if offset * 8 / |b| > 0 { return; }
    var wantoff, endptr := offset * 8 % |b|, LeafStart(b);
    ghost var all, end, room := Listing(b, 0, HEADER, endptr), Cookie(|b|), r.room;
    GoingStart(From(all, offset), room);
    var refused, dep := OfferBlock(b, endptr, offset, wantoff, r, all, end, room);
    if refused {
      SmallCookie(dep);
      return Masked(Cookie(dep));
    }
    Finished(all, end, offset, room, r.taken, r.room);
    SmallCookie(|b|);
    offset' := Masked(Cookie(|b|));
  }

  lemma BlockBounds(b: seq<Byte>, offset: nat)
    requires 24 <= |b| <= 65536 && |b| % 8 == 0 && TailFits(b)
    ensures HEADER <= LeafStart(b) <= |b| && LeafStart(b) % 8 == 0
    ensures offset * 8 / |b| > 0 <==> offset >= Cookie(|b|)
    ensures offset < Cookie(|b|) ==> offset * 8 % |b| == offset * 8
    ensures BlockAll(b) == Listing(b, 0, HEADER, LeafStart(b))
  {
    Divide(offset * 8, |b|);
    hide Listing, Be32;
    assert offset * 8 < |b| <==> offset < Cookie(|b|);
  }

  lemma Divide(x: nat, n: nat)
    requires n > 0
    ensures x / n > 0 <==> x >= n
    ensures x < n ==> x % n == x
  {}

  lemma SmallCookie(at: nat)
    ensures at <= 65536 ==> Masked(Cookie(at)) == Cookie(at)
  {}

  /** Any series of calls on a shortform directory, and on a block directory, delivers each entry once. */
  lemma SfEachOnce(dir: SfDir, size: nat, rooms: seq<nat>, more: seq<nat>)
    requires dir.Valid(size) && size >= 40 && size % 8 == 0 && rooms != []
    ensures var all, end := SfAll(dir), Cookie(size);
            && Calls(all, end, 0, rooms).0 == all[..Min(Sum(rooms), |all|)]
            && (Sum(rooms) >= |all| ==>
                  Calls(all, end, 0, rooms) == (all, end) && Calls(all, end, end, more) == ([], end))
  {
    SfAscending(dir, size);
    EachOnce(SfAll(dir), Cookie(size), rooms, more);
  }

  lemma BlockEachOnce(b: seq<Byte>, rooms: seq<nat>, more: seq<nat>)
    requires 24 <= |b| <= 65536 && |b| % 8 == 0 && TailFits(b) && rooms != []
    ensures var all, end := BlockAll(b), Cookie(|b|);
            && Calls(all, end, 0, rooms).0 == all[..Min(Sum(rooms), |all|)]
            && (Sum(rooms) >= |all| ==>
                  Calls(all, end, 0, rooms) == (all, end) && Calls(all, end, end, more) == ([], end))
  {
    BlockAscending(b);
    EachOnce(BlockAll(b), Cookie(|b|), rooms, more);
  }
}
