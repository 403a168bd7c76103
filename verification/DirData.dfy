/** The checker's walk through one directory data block. */
module DirData {

  import opened Basics
  import H = DirHash
  import NameHash

  /** A region of a data block: an entry, or free space. */
  datatype Region = Region(at: nat, size: nat, free: bool) {
    function End(): nat { at + size }
  }

  const BLOCK_MAGIC := 0x58443242
  const DATA_MAGIC := 0x58443244
  const FREE_TAG := 0xffff
  const HEADER := 16

  /** Bytes after the block count as zero; no answer below depends on them. */
  function At(b: seq<Byte>, i: nat): (x: nat)
    ensures x < 256
  {
    if i < |b| then b[i] else 0
  }

  function Be16(b: seq<Byte>, i: nat): (x: nat)
    ensures x < 65536
  {
    At(b, i) * 256 + At(b, i + 1)
  }

  function Be32(b: seq<Byte>, i: nat): (x: nat)
    ensures x < 0x1_0000_0000
  {
    Be16(b, i) * 65536 + Be16(b, i + 2)
  }

  function EntSize(namelen: nat): (n: nat)
    ensures n % 8 == 0 && namelen + 11 <= n < namelen + 19
  {
    (namelen + 18) / 8 * 8
  }

  function NameLen(b: seq<Byte>, ptr: nat): nat { At(b, ptr + 8) }

  /** What the bytes at ptr say is there. */
  function RegionAt(b: seq<Byte>, ptr: nat): Region {
    if Be16(b, ptr) == FREE_TAG then Region(ptr, Be16(b, ptr + 2), true)
    else Region(ptr, EntSize(NameLen(b, ptr)), false)
  }

  predicate Whole(r: Region, end: nat) { r.size > 0 && r.size % 8 == 0 && r.End() <= end }

  /** The regions from `from` to `end`, each as its bytes describe it, with nothing between them. */
  ghost predicate Tiling(b: seq<Byte>, rs: seq<Region>, from: nat, end: nat)
    decreases |rs|
  {
    if rs == [] then from == end
    else rs[0] == RegionAt(b, from) && Whole(rs[0], end) && Tiling(b, rs[1..], rs[0].End(), end)
  }

  /** The regions read one after another, up to the end or the first that is not whole. */
  function Parse(b: seq<Byte>, ptr: nat, end: nat): seq<Region>
    decreases end - ptr
  {
    if ptr >= end || !Whole(RegionAt(b, ptr), end) then []
    else [RegionAt(b, ptr)] + Parse(b, RegionAt(b, ptr).End(), end)
  }

  function StopsAt(rs: seq<Region>, from: nat): nat { if rs == [] then from else rs[|rs| - 1].End() }

  /** Reading to the end finds the tiling, if there is one. */
  lemma {:induction false} ParseIsTheTiling(b: seq<Byte>, rs: seq<Region>, from: nat, end: nat)
    requires from <= end
    ensures Tiling(b, rs, from, end) <==> rs == Parse(b, from, end) && StopsAt(rs, from) == end
    decreases |rs|
  {
    if rs != [] && rs[0] == RegionAt(b, from) && Whole(rs[0], end) {
      ParseIsTheTiling(b, rs[1..], rs[0].End(), end);
      assert rs == [rs[0]] + rs[1..];
      assert Parse(b, from, end)[1..] == Parse(b, rs[0].End(), end);
    }
  }

  lemma {:induction false} TilingOrder(b: seq<Byte>, rs: seq<Region>, from: nat, end: nat)
    requires Tiling(b, rs, from, end)
    ensures forall i :: 0 <= i < |rs| ==> from <= rs[i].at && rs[i].End() <= end && rs[i].size > 0
    ensures forall i, j :: 0 <= i < j < |rs| ==> rs[i].End() <= rs[j].at
    decreases |rs|
  {
    if rs != [] {
      TilingOrder(b, rs[1..], rs[0].End(), end);
      assert forall i :: 0 < i < |rs| ==> rs[i] == rs[1..][i - 1];
    }
  }

  /** Every byte between the header and the end is in exactly one region. */
  lemma {:induction false} TilingCovers(b: seq<Byte>, rs: seq<Region>, from: nat, end: nat, byte: nat)
    requires Tiling(b, rs, from, end) && from <= byte < end
    ensures exists i :: 0 <= i < |rs| && rs[i].at <= byte < rs[i].End()
    ensures forall i, j :: 0 <= i < j < |rs| ==> !(rs[i].at <= byte < rs[i].End() && rs[j].at <= byte < rs[j].End())
    decreases |rs|
  {
    TilingOrder(b, rs, from, end);
    if byte >= rs[0].End() {
      TilingCovers(b, rs[1..], rs[0].End(), end, byte);
      var i :| 0 <= i < |rs[1..]| && rs[1..][i].at <= byte < rs[1..][i].End();
      assert rs[i + 1].at <= byte < rs[i + 1].End();
    }
  }

  predicate TagRight(b: seq<Byte>, r: Region)
    requires r.size >= 2
  {
    Be16(b, r.End() - 2) == r.at
  }

  /** Every region ends with its own offset, entries have names, and free space is joined. */
  ghost predicate Sound(b: seq<Byte>, rs: seq<Region>) {
    && (forall r <- rs :: r.size >= 2 && TagRight(b, r))
    && (forall r <- rs :: !r.free ==> NameLen(b, r.at) > 0)
    && NoneAdjacent(rs)
  }

  /** No free region directly follows another. */
  ghost predicate NoneAdjacent(rs: seq<Region>) { forall i :: 0 <= i < |rs| - 1 ==> !BothFree(rs, i) }

  predicate BothFree(rs: seq<Region>, i: nat)
    requires i < |rs| - 1
  {
    rs[i].free && rs[i + 1].free
  }

  function SlotOffset(b: seq<Byte>, i: nat): nat { Be16(b, 4 + 4 * i) }

  function SlotLength(b: seq<Byte>, i: nat): nat { Be16(b, 6 + 4 * i) }

  predicate Names(b: seq<Byte>, i: nat, r: Region) { SlotLength(b, i) > 0 && SlotOffset(b, i) == r.at }

  /**
   * The three slots of the best-free table: in order of length, an empty one all zero, each of the others
   * naming its own free region, and no region longer than the third length left out.
   */
  ghost predicate BestFree(b: seq<Byte>, rs: seq<Region>) {
    && SlotLength(b, 0) >= SlotLength(b, 1) >= SlotLength(b, 2)
    && (forall i: nat :: i < 3 && SlotLength(b, i) == 0 ==> SlotOffset(b, i) == 0)
    && (forall i: nat :: i < 3 && SlotLength(b, i) > 0 ==>
          exists r <- rs :: r.free && r.size >= SlotLength(b, 2) && Names(b, i, r))
    && (forall i: nat, j: nat :: i < j < 3 && SlotLength(b, i) > 0 && SlotLength(b, j) > 0 ==>
          SlotOffset(b, i) != SlotOffset(b, j))
    && (forall r <- rs :: r.free && r.size > SlotLength(b, 2) ==> exists i: nat :: i < 3 && Names(b, i, r))
  }

  /** process_data_dir_v2_freefind: the slot that names a free region, or 3 if none does. */
  function FreeFind(b: seq<Byte>, r: Region): (i: nat)
    ensures i <= 3
  {
    if r.size < SlotLength(b, 2) then 3 else FindSlot(b, r, 0)
  }

  function FindSlot(b: seq<Byte>, r: Region, i: nat): (k: nat)
    requires i <= 3
    ensures i <= k <= 3
    decreases 3 - i
  {
    if i == 3 || SlotOffset(b, i) == 0 then 3
    else if SlotOffset(b, i) == r.at then i
    else FindSlot(b, r, i + 1)
  }

  predicate Bad(b: seq<Byte>) {
    || SlotLength(b, 0) < SlotLength(b, 1) || SlotLength(b, 1) < SlotLength(b, 2)
    || (SlotLength(b, 0) == 0 && SlotOffset(b, 0) != 0)
    || (SlotLength(b, 1) == 0 && SlotOffset(b, 1) != 0)
    || (SlotLength(b, 2) == 0 && SlotOffset(b, 2) != 0)
  }

  /** A slot counts as seen if it is empty, or once a free region has been found to be the one it names. */
  ghost predicate Seen(b: seq<Byte>, rs: seq<Region>, i: nat) {
    SlotLength(b, i) == 0 || exists r <- rs :: r.free && FreeFind(b, r) == i
  }

  /** No complaint about a free region that comes after the others. */
  ghost predicate Fine(b: seq<Byte>, before: seq<Region>, r: Region) {
    r.free ==> if FreeFind(b, r) < 3 then !Seen(b, before, FreeFind(b, r)) else r.size <= SlotLength(b, 2)
  }

  ghost predicate AllFine(b: seq<Byte>, rs: seq<Region>) {
    forall k :: 0 <= k < |rs| ==> Fine(b, rs[..k], rs[k])
  }

  ghost predicate NoOverlap(rs: seq<Region>) {
    && (forall i :: 0 <= i < |rs| ==> rs[i].at > 0)
    && (forall i, j :: 0 <= i < j < |rs| ==> rs[i].at != rs[j].at)
  }

  /** What freefind finds is a slot that names the region; what it misses is too short or not named. */
  lemma FreeFindIs(b: seq<Byte>, r: Region)
    requires !Bad(b) && r.at > 0
    ensures var k := FreeFind(b, r);
            && (k < 3 ==> Names(b, k, r) && r.size >= SlotLength(b, 2)
                          && forall i: nat :: i < k ==> SlotOffset(b, i) != r.at)
            && (k == 3 && r.size >= SlotLength(b, 2) && InUse(b) ==> forall i: nat :: i < 3 ==> !Names(b, i, r))
  {
    hide SlotOffset, SlotLength;
    FindSlotIs(b, r, 0);
  }

  /** No slot with a length names offset zero. */
  ghost predicate InUse(b: seq<Byte>) { forall i: nat :: i < 3 && SlotLength(b, i) > 0 ==> SlotOffset(b, i) > 0 }

  lemma {:induction false} FindSlotIs(b: seq<Byte>, r: Region, i: nat)
    requires !Bad(b) && r.at > 0 && i <= 3
    ensures var k := FindSlot(b, r, i);
            && (k < 3 ==> Names(b, k, r) && forall j: nat :: i <= j < k ==> SlotOffset(b, j) != r.at)
            && (k == 3 && InUse(b) ==> forall j: nat :: i <= j < 3 ==> !Names(b, j, r))
    decreases 3 - i
  {
    hide SlotOffset, SlotLength;
    if i < 3 { FindSlotIs(b, r, i + 1); }
  }

  /** The checks made along the way add up to the meaning of the table. */
  lemma BestFreeIff(b: seq<Byte>, rs: seq<Region>)
    requires NoOverlap(rs)
    ensures BestFree(b, rs) <==> !Bad(b) && AllFine(b, rs) && Seen(b, rs, 0) && Seen(b, rs, 1) && Seen(b, rs, 2)
  {
    hide *;
    if BestFree(b, rs) { BestFreeIsFine(b, rs); }
    if !Bad(b) && AllFine(b, rs) && Seen(b, rs, 0) && Seen(b, rs, 1) && Seen(b, rs, 2) {
      FineIsBestFree(b, rs);
    }
  }

  lemma BestFreeIsFine(b: seq<Byte>, rs: seq<Region>)
    requires NoOverlap(rs) && BestFree(b, rs)
    ensures !Bad(b) && AllFine(b, rs) && Seen(b, rs, 0) && Seen(b, rs, 1) && Seen(b, rs, 2)
  {
    hide SlotOffset, SlotLength, FreeFind;
    forall i: nat | i < 3 ensures Seen(b, rs, i) {
      if SlotLength(b, i) > 0 {
        assert InUse(b);
        var r :| r in rs && r.free && r.size >= SlotLength(b, 2) && Names(b, i, r);
        FreeFindIs(b, r);
      }
    }
    forall k | 0 <= k < |rs| ensures Fine(b, rs[..k], rs[k]) {
      if rs[k].free {
        FreeFindIs(b, rs[k]);
        var i := FreeFind(b, rs[k]);
        if i < 3 && Seen(b, rs[..k], i) {
          var r :| r in rs[..k] && r.free && FreeFind(b, r) == i;
          FreeFindIs(b, r);
        }
      }
    }
  }

  lemma FineIsBestFree(b: seq<Byte>, rs: seq<Region>)
    requires NoOverlap(rs)
    requires !Bad(b) && AllFine(b, rs) && Seen(b, rs, 0) && Seen(b, rs, 1) && Seen(b, rs, 2)
    ensures BestFree(b, rs)
  {
    hide SlotOffset, SlotLength, FreeFind;
    forall i: nat | i < 3 && SlotLength(b, i) > 0
      ensures exists r <- rs :: r.free && r.size >= SlotLength(b, 2) && Names(b, i, r) && FreeFind(b, r) == i
    {
      assert Seen(b, rs, i);
      var r :| r in rs && r.free && FreeFind(b, r) == i;
      FreeFindIs(b, r);
    }
    forall i: nat, j: nat | i < j < 3 && SlotLength(b, i) > 0 && SlotLength(b, j) > 0
      ensures SlotOffset(b, i) != SlotOffset(b, j)
    {
      var r :| r in rs && r.free && Names(b, j, r) && FreeFind(b, r) == j;
      FreeFindIs(b, r);
    }
    forall r <- rs | r.free && r.size > SlotLength(b, 2)
      ensures exists i: nat :: i < 3 && Names(b, i, r)
    {
      var k :| 0 <= k < |rs| && rs[k] == r;
      assert Fine(b, rs[..k], rs[k]);
      FreeFindIs(b, r);
    }
  }

  function NameAt(b: seq<Byte>, at: nat): seq<bv8> {
    seq(NameLen(b, at), i requires 0 <= i < NameLen(b, at) => At(b, at + 9 + i) as bv8)
  }

  /** A 32-bit number as a word. */
  function Word(x: nat): bv32 { (x % TWO32) as bv32 }

  /** The hash of an entry's name, and its data pointer in a directory block that starts at base. */
  function EntryKey(b: seq<Byte>, base: nat, at: nat): H.Key {
    H.Key(NameHash.HashName(NameAt(b, at)), (base + at) / 8 % TWO32)
  }

  function KeysAt(b: seq<Byte>, base: nat, ats: seq<nat>): (keys: seq<H.Key>)
    ensures |keys| == |ats| && forall i :: 0 <= i < |ats| ==> keys[i] == EntryKey(b, base, ats[i])
  {
    seq(|ats|, i requires 0 <= i < |ats| => EntryKey(b, base, ats[i]))
  }

  lemma KeysSnoc(b: seq<Byte>, base: nat, ats: seq<nat>, at: nat)
    ensures KeysAt(b, base, ats + [at]) == KeysAt(b, base, ats) + [EntryKey(b, base, at)]
  {
    hide EntryKey;
  }

  function Num(c: bool): nat { if c then 1 else 0 }

  function EntriesOf(rs: seq<Region>): seq<nat> {
    if rs == [] then []
    else EntriesOf(rs[..|rs| - 1]) + (if rs[|rs| - 1].free then [] else [rs[|rs| - 1].at])
  }

  ghost predicate AllTagged(b: seq<Byte>, rs: seq<Region>) { forall r <- rs :: r.size >= 2 && TagRight(b, r) }

  ghost predicate AllNamed(b: seq<Byte>, rs: seq<Region>) { forall r <- rs :: !r.free ==> NameLen(b, r.at) > 0 }

  predicate EndsFree(rs: seq<Region>) { rs != [] && rs[|rs| - 1].free }

  /** How one more region changes what is known of those before it. */
  lemma Snoc(b: seq<Byte>, rs: seq<Region>, r: Region)
    ensures AllTagged(b, rs + [r]) <==> AllTagged(b, rs) && r.size >= 2 && TagRight(b, r)
    ensures AllNamed(b, rs + [r]) <==> AllNamed(b, rs) && (!r.free ==> NameLen(b, r.at) > 0)
    ensures NoneAdjacent(rs + [r]) <==> NoneAdjacent(rs) && !(EndsFree(rs) && r.free)
    ensures EndsFree(rs + [r]) <==> r.free
    ensures AllFine(b, rs + [r]) <==> AllFine(b, rs) && Fine(b, rs, r)
    ensures EntriesOf(rs + [r]) == EntriesOf(rs) + (if r.free then [] else [r.at])
  {
    hide *;
    SnocEach(b, rs, r);
    SnocAdjacent(rs, r);
    SnocFine(b, rs, r);
    SnocEntries(rs, r);
  }

  lemma SnocEach(b: seq<Byte>, rs: seq<Region>, r: Region)
    ensures AllTagged(b, rs + [r]) <==> AllTagged(b, rs) && r.size >= 2 && TagRight(b, r)
    ensures AllNamed(b, rs + [r]) <==> AllNamed(b, rs) && (!r.free ==> NameLen(b, r.at) > 0)
  {
    hide TagRight, NameLen;
    assert r in rs + [r] && forall q <- rs :: q in rs + [r];
  }

  lemma SnocAdjacent(rs: seq<Region>, r: Region)
    ensures NoneAdjacent(rs + [r]) <==> NoneAdjacent(rs) && !(EndsFree(rs) && r.free)
    ensures EndsFree(rs + [r]) <==> r.free
  {
    var all := rs + [r];
    assert forall i: nat :: i < |rs| - 1 ==> BothFree(all, i) == BothFree(rs, i);
    assert rs != [] ==> BothFree(all, |rs| - 1) == (EndsFree(rs) && r.free);
    if NoneAdjacent(all) {
      assert forall i: nat :: i < |rs| - 1 ==> !BothFree(all, i);
    }
  }

  lemma SnocFine(b: seq<Byte>, rs: seq<Region>, r: Region)
    ensures AllFine(b, rs + [r]) <==> AllFine(b, rs) && Fine(b, rs, r)
  {
    hide Fine;
    var all := rs + [r];
    assert all[..|rs|] == rs;
    assert forall k :: 0 <= k < |rs| ==> all[..k] == rs[..k] && all[k] == rs[k];
    if AllFine(b, all) {
      assert Fine(b, all[..|rs|], all[|rs|]);
      forall k | 0 <= k < |rs| ensures Fine(b, rs[..k], rs[k]) {
        assert Fine(b, all[..k], all[k]);
      }
    }
  }

  lemma SnocEntries(rs: seq<Region>, r: Region)
    ensures EntriesOf(rs + [r]) == EntriesOf(rs) + (if r.free then [] else [r.at])
  {
    assert (rs + [r])[..|rs|] == rs;
  }

  lemma SeenSnoc(b: seq<Byte>, rs: seq<Region>, r: Region, i: nat)
    ensures Seen(b, rs + [r], i) <==> Seen(b, rs, i) || (r.free && FreeFind(b, r) == i)
  {
    hide FreeFind;
    var all := rs + [r];
    assert r in all && forall q <- rs :: q in all;
  }

  lemma NothingYet(b: seq<Byte>)
    ensures AllNamed(b, []) && StopsAt([], HEADER) == HEADER
  {}

  lemma NothingSeen(b: seq<Byte>)
    ensures forall i: nat :: i < 3 ==> (Seen(b, [], i) <==> SlotLength(b, i) == 0)
    ensures AllFine(b, []) && AllTagged(b, []) && NoneAdjacent([]) && !EndsFree([]) && EntriesOf([]) == []
  {}

  /** The program's tests for a bad region, for a position and an end that are multiples of eight. */
  lemma BadRegions(b: seq<Byte>, ptr: nat, end: nat)
    requires ptr % 8 == 0 && end % 8 == 0 && ptr < end
    ensures var r := RegionAt(b, ptr);
            && r.at == ptr
            && (r.free <==> Be16(b, ptr) == FREE_TAG)
            && (if r.free
                then r.size == Be16(b, ptr + 2)
                  && (Whole(r, end) <==> !(r.size % 8 != 0 || r.size == 0 || ptr + r.size - 2 >= end))
                else r.size == EntSize(NameLen(b, ptr)) && (Whole(r, end) <==> ptr + r.size - 2 < end))
            && (Whole(r, end) ==> r.size >= 2 && ptr < r.End() <= end && r.End() % 8 == 0)
  {
    hide Be16;
  }

  lemma ParseStep(b: seq<Byte>, ptr: nat, end: nat)
    ensures ptr < end && Whole(RegionAt(b, ptr), end) ==>
              Parse(b, ptr, end) == [RegionAt(b, ptr)] + Parse(b, RegionAt(b, ptr).End(), end)
    ensures !(ptr < end && Whole(RegionAt(b, ptr), end)) ==> Parse(b, ptr, end) == []
  {}

  /** The walk: the global error count, and the counters of one call. */
  class Walk {
    var error: nat
    var bfErr: nat
    var lastfreeErr: nat
    var tagErr: nat
    var freeseen: seq<bool>
    var lastfree: bool
    var count: nat
    /** The directory hash, and where the block starts in the directory. */
    const hash: H.DirHash
    var base: nat
    /** The offsets of the entries so far, and the hash before them. */
    ghost var entries: seq<nat>
    ghost var start: seq<H.Node>

    constructor (hash: H.DirHash)
      ensures error == 0 && this.hash == hash
    {
      this.hash := hash;
      error, bfErr, lastfreeErr, tagErr, freeseen, lastfree, count, base := 0, 0, 0, 0, [], false, 0, 0;
      entries, start := [], [];
    }

    /** The hash has been given the entries so far. */
    ghost predicate Hashed(b: seq<Byte>)
      reads `base, `entries, `start, hash`nodes, hash.dirhash
    {
      hash.Valid() && hash.nodes == H.Added(start, KeysAt(b, base, entries))
    }

    /** What the counters say after the regions rs. */
    ghost predicate Counted(b: seq<Byte>, rs: seq<Region>)
      reads `bfErr, `lastfreeErr, `tagErr, `freeseen, `lastfree, `count, `entries
    {
      && |freeseen| == 3 && (forall i: nat :: i < 3 ==> (freeseen[i] <==> Seen(b, rs, i)))
      && (bfErr == 0 <==> !Bad(b) && AllFine(b, rs))
      && (lastfreeErr == 0 <==> NoneAdjacent(rs)) && (lastfree <==> EndsFree(rs))
      && (tagErr == 0 <==> AllTagged(b, rs))
      && entries == EntriesOf(rs) && count == |entries|
    }

    /** The checks of the best-free table before the walk. */
    method Start(b: seq<Byte>)
      requires hash.Valid()
      modifies `bfErr, `lastfreeErr, `tagErr, `freeseen, `lastfree, `count, `entries, `start
      ensures Counted(b, []) && entries == EntriesOf([]) && Hashed(b) && start == hash.nodes
    {
      NothingSeen(b);
      hide SlotLength, SlotOffset, Seen, AllFine, AllTagged, NoneAdjacent, EndsFree, EntriesOf;
      bfErr, lastfreeErr, tagErr, lastfree, count, entries := 0, 0, 0, false, 0, [];
      start := hash.nodes;
      var seen0, seen1, seen2 := false, false, false;
      if SlotLength(b, 0) == 0 {
        bfErr := bfErr + Num(SlotOffset(b, 0) != 0);
        seen0 := true;
      }
      if SlotLength(b, 1) == 0 {
        bfErr := bfErr + Num(SlotOffset(b, 1) != 0);
        seen1 := true;
      }
      if SlotLength(b, 2) == 0 {
        bfErr := bfErr + Num(SlotOffset(b, 2) != 0);
        seen2 := true;
      }
      freeseen := [seen0, seen1, seen2];
      bfErr := bfErr + Num(SlotLength(b, 0) < SlotLength(b, 1));
      bfErr := bfErr + Num(SlotLength(b, 1) < SlotLength(b, 2));
    }

    /** A free region that is whole. */
    method VisitFree(b: seq<Byte>, r: Region, ghost rs: seq<Region>)
      requires Counted(b, rs) && r.free && r.size >= 2
      modifies `bfErr, `lastfreeErr, `tagErr, `freeseen, `lastfree
      ensures Counted(b, rs + [r]) && entries == EntriesOf(rs + [r])
    {
      hide AllTagged, AllFine, NoneAdjacent, EntriesOf, EndsFree, FreeFind, Seen, SlotLength, Bad, Be16;
      Snoc(b, rs, r);
      SeenSnoc(b, rs, r, 0);
      SeenSnoc(b, rs, r, 1);
      SeenSnoc(b, rs, r, 2);
      lastfreeErr := lastfreeErr + Num(lastfree);
      tagErr := tagErr + Num(Be16(b, r.End() - 2) != r.at);
      var i := FreeFind(b, r);
      if i < 3 {
        bfErr := bfErr + Num(freeseen[i]);
        freeseen := freeseen[i := true];
      } else {
        bfErr := bfErr + Num(r.size > SlotLength(b, 2));
      }
      lastfree := true;
    }

    /** The name and the position of an entry are added to the directory hash. */
    method HashEntry(b: seq<Byte>, at: nat)
      requires Hashed(b)
      modifies `entries, hash`nodes, hash.dirhash
      ensures Hashed(b) && entries == old(entries) + [at]
    {
      hide EntryKey, KeysAt, H.Added, H.DirHash.Valid;
      hash.Add(EntryKey(b, base, at));
      KeysSnoc(b, base, entries, at);
      H.AddedSnoc(start, KeysAt(b, base, entries), EntryKey(b, base, at));
      entries := entries + [at];
    }

    /** An entry that is whole. */
    method VisitEntry(b: seq<Byte>, r: Region, ghost rs: seq<Region>)
      requires Counted(b, rs) && Hashed(b) && !r.free && r.size >= 2
      modifies `tagErr, `lastfree, `count, `entries, hash`nodes, hash.dirhash
      ensures Counted(b, rs + [r]) && entries == EntriesOf(rs + [r]) && Hashed(b)
    {
      hide Hashed, AllTagged, AllFine, NoneAdjacent, EntriesOf, EndsFree, FreeFind, Seen, SlotLength, Bad, Be16;
      Snoc(b, rs, r);
      SeenSnoc(b, rs, r, 0);
      SeenSnoc(b, rs, r, 1);
      SeenSnoc(b, rs, r, 2);
      tagErr := tagErr + Num(Be16(b, r.End() - 2) != r.at);
      HashEntry(b, r.at);
      count := count + 1;
      lastfree := false;
    }

    /** One region: true where the walk goes on. */
    method Visit(b: seq<Byte>, ptr: nat, end: nat, ghost rs: seq<Region>) returns (next: nat, ok: bool)
      requires ptr % 8 == 0 && end % 8 == 0 && ptr < end && Counted(b, rs) && Hashed(b)
      modifies this, hash`nodes, hash.dirhash
      ensures var r := RegionAt(b, ptr);
              && (ok <==> Whole(r, end))
              && (if ok then next == r.End() && ptr < next <= end && next % 8 == 0 && Counted(b, rs + [r])
                        && (error == old(error) <==> (!r.free ==> NameLen(b, r.at) > 0))
                  else error > old(error) && entries == old(entries))
      ensures error >= old(error) && Hashed(b) && start == old(start) && base == old(base)
    {
      hide Counted, Hashed, Be16, NameLen, EntSize, RegionAt, Whole, EntriesOf;
      BadRegions(b, ptr, end);
      next, ok := ptr, false;
      if Be16(b, ptr) == FREE_TAG {
        var length := Be16(b, ptr + 2);
        if length % 8 != 0 || length == 0 || ptr + length - 2 >= end {
          lastfreeErr := lastfreeErr + Num(lastfree);
          error := error + 1;
          return;
        }
        VisitFree(b, Region(ptr, length, true), rs);
        next := ptr + length;
      } else {
        if NameLen(b, ptr) == 0 {
          error := error + 1;
        }
        var size := EntSize(NameLen(b, ptr));
        if ptr + size - 2 >= end {
          error := error + 1;
          return;
        }
        VisitEntry(b, Region(ptr, size, false), rs);
        next := ptr + size;
      }
      ok := true;
    }

    lemma CountedEntries(b: seq<Byte>, rs: seq<Region>)
      requires Counted(b, rs)
      ensures entries == EntriesOf(rs)
    {}

    /** The walk from the header to the end; it stops at the first region that is not whole. */
    method Regions(b: seq<Byte>, end: nat) returns (ghost rs: seq<Region>)
      requires HEADER <= end && end % 8 == 0 && hash.Valid()
      modifies this, hash`nodes, hash.dirhash
      ensures Hashed(b) && start == old(hash.nodes) && base == old(base)
      ensures rs == Parse(b, HEADER, end)
      ensures error == old(error) <==> StopsAt(rs, HEADER) == end && AllNamed(b, rs)
      ensures error >= old(error) && (error == old(error) ==> Counted(b, rs))
      ensures entries == EntriesOf(rs)
    {
      NothingYet(b);
      hide Counted, Hashed, AllNamed, EntriesOf, Parse, NameLen, RegionAt, Whole, AllTagged, NoneAdjacent, AllFine;
      Start(b);
      rs := [];
      var ptr := HEADER;
      assert [] + Parse(b, HEADER, end) == Parse(b, HEADER, end);
      while ptr < end
        invariant HEADER <= ptr <= end && ptr % 8 == 0
        invariant Parse(b, HEADER, end) == rs + Parse(b, ptr, end) && StopsAt(rs, HEADER) == ptr
        invariant error >= old(error) && (error == old(error) <==> AllNamed(b, rs))
        invariant Counted(b, rs) && entries == EntriesOf(rs)
        invariant Hashed(b) && start == old(hash.nodes) && base == old(base)
        decreases end - ptr
      {
        ghost var r, before := RegionAt(b, ptr), rs;
        ParseStep(b, ptr, end);
        Snoc(b, rs, r);
        var next, ok := Visit(b, ptr, end, rs);
        if !ok { break; }
        rs := rs + [r];
        CountedEntries(b, rs);
        ptr := next;
        assert before + ([r] + Parse(b, ptr, end)) == rs + Parse(b, ptr, end);
      }
      assert rs + [] == rs;
      ParseStep(b, ptr, end);
      if ptr == end { CountedEntries(b, rs); }
    }

    /** The leaf entries of a block-format directory: each live one is looked up, the others are counted. */
    method LeafEntries(b: seq<Byte>) returns (stale: nat)
      requires |b| >= 8 && TailFits(b) && hash.Valid()
      modifies `error, hash`nodes, hash.dirhash
      ensures hash.Valid() && hash.nodes == H.AfterSees(old(hash.nodes), LiveFrom(b, 0))
      ensures error == old(error) + H.SeeErrors(old(hash.nodes), LiveFrom(b, 0))
      ensures stale + |LiveFrom(b, 0)| == TailCount(b)
    {
      hide Be32, Be16, Word, H.Answer, H.Marked, H.DirHash.Valid;
      ghost var nodes := hash.nodes;
      stale := 0;
      var i := 0;
      while i < TailCount(b)
        invariant i <= TailCount(b) && hash.Valid()
        invariant H.AfterSees(hash.nodes, LiveFrom(b, i)) == H.AfterSees(nodes, LiveFrom(b, 0))
        invariant error + H.SeeErrors(hash.nodes, LiveFrom(b, i)) == old(error) + H.SeeErrors(nodes, LiveFrom(b, 0))
        invariant stale + |LiveFrom(b, 0)| == i + |LiveFrom(b, i)|
      {
        LiveStep(b, i);
        var lep := LeafStart(b) + 8 * i;
        // The program's test for a leaf entry past the end of the block: it never succeeds.
        assert lep < |b|;
        if Be32(b, lep + 4) == 0 {
          stale := stale + 1;
        } else {
          var answer := hash.See(LeafKey(b, lep));
          if answer != 0 {
            error := error + 1;
          }
        }
        i := i + 1;
      }
    }

    /**
     * process_data_dir_v2, for a block that starts at byte `at` of the directory. No error is counted exactly
     * for a consistent block whose live leaf entries, if it has any, are all found unseen. Then the hash has
     * been given the entries of the block, and the leaf entries have been marked.
     */
    method ProcessData(b: seq<Byte>, at: nat)
      requires |b| % 8 == 0 && 24 <= |b| <= 65536 && hash.Valid()
      modifies this, hash`nodes, hash.dirhash
      ensures hash.Valid() && error >= old(error)
      ensures error == old(error) <==>
              Consistent(b) && H.SeeErrors(H.Added(old(hash.nodes), BlockKeys(b, at)), LiveKeys(b)) == 0
      ensures error == old(error) ==>
                hash.nodes == H.AfterSees(H.Added(old(hash.nodes), BlockKeys(b, at)), LiveKeys(b))
    {
      hide Be32, Be16, Tiling, Parse, Counted, Hashed, AllNamed, EntriesOf, LiveFrom, Bad, AllFine, Seen;
      hide NoneAdjacent, AllTagged, StopsAt, Consistent, H.Added, H.SeeErrors, H.AfterSees, H.DirHash.Valid;
      if !IsBlock(b) && !IsData(b) {
        NotConsistent(b);
        error := error + 1;
        return;
      }
      var end := |b|;
      if IsBlock(b) {
        if TailFits(b) {
          end := LeafStart(b);
        } else {
          NotConsistent(b);
          error := error + 1;
        }
      }
      base := at;
      ghost var rs := Regions(b, end);
      if error == old(error) {
        CountedIs(b, rs);
        ConsistentIff(b, rs);
        EntriesFewer(b, HEADER, end);
      } else if !IsBlock(b) || TailFits(b) {
        ConsistentIff(b, rs);
      }
      HashedIs(b);
      NoSees(hash.nodes);
      ghost var walked := error;
      var stale := 0;
      if IsBlock(b) && TailFits(b) {
        stale := LeafEntries(b);
      }
      AddErrors();
      if IsBlock(b) && count % TWO32 != (TailCount(b) - TailStale(b)) % TWO32 {
        error := error + 1;
      }
      if IsBlock(b) && stale != TailStale(b) {
        error := error + 1;
      }
    }

    lemma HashedIs(b: seq<Byte>)
      requires Hashed(b)
      ensures hash.Valid() && hash.nodes == H.Added(start, KeysAt(b, base, entries))
    {}

    lemma CountedIs(b: seq<Byte>, rs: seq<Region>)
      requires Counted(b, rs)
      ensures |freeseen| == 3 && entries == EntriesOf(rs) && count == |entries|
      ensures bfErr == 0 && freeseen == [true, true, true] && lastfreeErr == 0 && tagErr == 0 <==>
              !Bad(b) && AllFine(b, rs) && Seen(b, rs, 0) && Seen(b, rs, 1) && Seen(b, rs, 2)
              && NoneAdjacent(rs) && AllTagged(b, rs)
    {
      hide Bad, AllFine, Seen, NoneAdjacent, AllTagged, EntriesOf, EndsFree;
      assert freeseen == [true, true, true] <==> freeseen[0] && freeseen[1] && freeseen[2];
    }

    /**
     * process_block_dir_v2, for a block that was read. No error is counted if and only if the block is
     * consistent and its live leaf entries are the hashes and positions of its entries, each once.
     */
    method ProcessBlockDir(b: seq<Byte>)
      requires |b| % 8 == 0 && 24 <= |b| <= 65536 && hash.Valid() && hash.nodes == []
      modifies this, hash`nodes, hash.dirhash
      ensures error >= old(error)
      ensures error == old(error) <==> Consistent(b) && multiset(LiveKeys(b)) == multiset(BlockKeys(b, 0))
    {
      hide Consistent, LiveKeys, BlockKeys, H.Added, H.SeeErrors, H.AfterSees, H.Unseen, H.DirHash.Valid;
      H.NoErrorsIff(BlockKeys(b, 0), LiveKeys(b));
      if Consistent(b) { KeysDiffer(b, 0); }
      ProcessData(b, 0);
      var missing := hash.Check();
      error := error + missing;
    }

    /** The leaf blocks in turn, and the check for what has not been seen. */
    method SeeLeaves(leaves: seq<H.Leaf>)
      requires hash.Valid()
      modifies `error, hash, hash.dirhash
      ensures hash.Valid()
      ensures var nodes, keys := old(hash.nodes), H.LiveOf(leaves);
              error == old(error) + H.StaleErrors(leaves) + H.SeeErrors(nodes, keys) +
                       H.Unseen(H.AfterSees(nodes, keys))
    {
      hide H.SeeErrors, H.AfterSees, H.Unseen, H.DirHash.Valid, H.Live;
      ghost var nodes := hash.nodes;
      assert leaves[0..] == leaves;
      for i := 0 to |leaves|
        invariant hash.Valid()
        invariant H.AfterSees(hash.nodes, H.LiveOf(leaves[i..])) == H.AfterSees(nodes, H.LiveOf(leaves))
        invariant error + H.SeeErrors(hash.nodes, H.LiveOf(leaves[i..])) + H.StaleErrors(leaves[i..]) ==
                  old(error) + H.SeeErrors(nodes, H.LiveOf(leaves)) + H.StaleErrors(leaves)
      {
        assert leaves[i..][1..] == leaves[i + 1..];
        H.SeeConcat(hash.nodes, H.Live(leaves[i].entries), H.LiveOf(leaves[i + 1..]));
        H.OneLeaf(leaves[i]);
        var before := hash.error;
        hash.SeeLeaf(leaves[i]);
        error := error + (hash.error - before);
      }
      NoSees(hash.nodes);
      var missing := hash.Check();
      error := error + missing;
    }

    /**
     * process_leaf_node_dir_v2, for blocks that were read: the data blocks, the leaf blocks, and the check of the
     * hash. No error is counted if and only if every data block is consistent, the stale counts of the leaf
     * blocks agree, the live leaf entries of all blocks are the keys of all entries, each once, and those in a
     * data block of the block format are of entries in that block or in blocks before it.
     */
    method ProcessDirectory(blocks: seq<DataBlock>, leaves: seq<H.Leaf>)
      requires InOrder(blocks) && hash.Valid() && hash.nodes == []
      modifies this, hash, hash.dirhash
      ensures error >= old(error)
      ensures error == old(error) <==>
              && SoundBlocks(blocks) && H.StaleErrors(leaves) == 0
              && multiset(AllLive(blocks) + H.LiveOf(leaves)) == multiset(AllKeys(blocks))
    {
      hide H.Added, H.SeeErrors, H.AfterSees, H.Unseen, H.DirHash.Valid, H.Stands, AllKeys, AllLive, SoundBlocks;
      hide Consistent, BlockKeys, LiveKeys, InOrder, AllConsistent;
      NoBlocks();
      for n := 0 to |blocks|
        invariant hash.Valid() && error >= old(error) && (error == old(error) <==> SoundBlocks(blocks[..n]))
        invariant error == old(error) ==> AllConsistent(blocks[..n])
        invariant error == old(error) ==> H.Stands(hash.nodes, AllKeys(blocks[..n]), AllLive(blocks[..n]))
      {
        var b := blocks[n];
        BlockIs(blocks, n);
        OneMoreBlock(blocks, n);
        OneMoreSound(blocks, n);
        if error == old(error) && Consistent(b.bytes) {
          KeysAllDiffer(blocks, n + 1);
          H.StandsStep(hash.nodes, AllKeys(blocks[..n]), AllLive(blocks[..n]), BlockKeys(b.bytes, b.at),
                       LiveKeys(b.bytes));
        }
        ProcessData(b.bytes, b.at);
      }
      assert blocks[..|blocks|] == blocks;
      if error == old(error) {
        KeysAllDiffer(blocks, |blocks|);
        H.StandsAtLast(hash.nodes, AllKeys(blocks), AllLive(blocks), H.LiveOf(leaves));
      }
      SeeLeaves(leaves);
    }

    /** The errors of the counters: one each, whatever their value. */
    method AddErrors()
      modifies `error, `bfErr
      ensures error >= old(error)
      ensures |freeseen| == 3 ==>
        (error == old(error) <==> old(bfErr) == 0 && freeseen == [true, true, true] && lastfreeErr == 0 && tagErr == 0)
    {
      bfErr := bfErr + Num(freeseen != [true, true, true]);
      if bfErr != 0 {
        error := error + 1;
      }
      if lastfreeErr != 0 {
        error := error + 1;
      }
      if tagErr != 0 {
        error := error + 1;
      }
    }
  }

  const TWO32 := 0x1_0000_0000

  predicate IsBlock(b: seq<Byte>) { Be32(b, 0) == BLOCK_MAGIC }

  predicate IsData(b: seq<Byte>) { Be32(b, 0) == DATA_MAGIC }

  function TailCount(b: seq<Byte>): nat
    requires |b| >= 8
  {
    Be32(b, |b| - 8)
  }

  function TailStale(b: seq<Byte>): nat
    requires |b| >= 8
  {
    Be32(b, |b| - 4)
  }

  /** The leaf entries start after the header. */
  predicate TailFits(b: seq<Byte>)
    requires |b| >= 8
  {
    |b| - 8 - 8 * TailCount(b) > HEADER
  }

  function LeafStart(b: seq<Byte>): nat
    requires |b| >= 8 && TailFits(b)
  {
    |b| - 8 - 8 * TailCount(b)
  }

  function DataEnd(b: seq<Byte>): nat
    requires |b| >= 8
  {
    if IsBlock(b) && TailFits(b) then LeafStart(b) else |b|
  }

  /** A leaf entry. */
  function LeafKey(b: seq<Byte>, lep: nat): H.Key { H.Key(Word(Be32(b, lep)), Be32(b, lep + 4)) }

  /** The live leaf entries of a block-format directory, from the i-th entry on. */
  function LiveFrom(b: seq<Byte>, i: nat): seq<H.Key>
    requires |b| >= 8 && TailFits(b)
    decreases TailCount(b) - i
  {
    if i >= TailCount(b) then []
    else
      var lep := LeafStart(b) + 8 * i;
      (if Be32(b, lep + 4) == 0 then [] else [LeafKey(b, lep)]) + LiveFrom(b, i + 1)
  }

  lemma LiveStep(b: seq<Byte>, i: nat)
    requires |b| >= 8 && TailFits(b) && i < TailCount(b)
    ensures var lep := LeafStart(b) + 8 * i;
            if Be32(b, lep + 4) == 0 then LiveFrom(b, i) == LiveFrom(b, i + 1)
            else LiveFrom(b, i) == [LeafKey(b, lep)] + LiveFrom(b, i + 1) && LiveFrom(b, i)[1..] == LiveFrom(b, i + 1)
    ensures LiveFrom(b, TailCount(b)) == []
  {
    hide Be32;
    assert [] + LiveFrom(b, i + 1) == LiveFrom(b, i + 1);
  }

  /** The leaf entries that are looked up in a block: those of a block-format directory. */
  function LiveKeys(b: seq<Byte>): seq<H.Key>
    requires |b| >= 8
  {
    if IsBlock(b) && TailFits(b) then LiveFrom(b, 0) else []
  }

  /** The keys of the entries of a block. */
  function BlockKeys(b: seq<Byte>, base: nat): seq<H.Key>
    requires |b| >= 8
  {
    KeysAt(b, base, EntriesOf(Parse(b, HEADER, DataEnd(b))))
  }

  lemma NoSees(nodes: seq<H.Node>)
    ensures H.SeeErrors(nodes, []) == 0 && H.AfterSees(nodes, []) == nodes
  {}

  /** The tail of a block-format directory counts its entries: all leaf entries, and the stale ones. */
  ghost predicate TailAgrees(b: seq<Byte>, rs: seq<Region>)
    requires |b| >= 8 && TailFits(b)
  {
    && |EntriesOf(rs)| == |LiveFrom(b, 0)|
    && |LiveFrom(b, 0)| + TailStale(b) == TailCount(b)
  }

  /** What it means for a directory data block to be consistent. */
  ghost predicate Consistent(b: seq<Byte>)
    requires |b| >= 8
  {
    && (IsBlock(b) || IsData(b))
    && (IsBlock(b) ==> TailFits(b))
    && exists rs :: Tiling(b, rs, HEADER, DataEnd(b)) && Sound(b, rs) && BestFree(b, rs)
                    && (IsBlock(b) ==> TailAgrees(b, rs))
  }

  /** There is one tiling to consider, the one the walk finds. */
  lemma ConsistentIff(b: seq<Byte>, rs: seq<Region>)
    requires |b| >= 24 && (IsBlock(b) || IsData(b)) && (IsBlock(b) ==> TailFits(b))
    requires rs == Parse(b, HEADER, DataEnd(b))
    ensures Consistent(b) <==>
            && StopsAt(rs, HEADER) == DataEnd(b) && AllNamed(b, rs) && AllTagged(b, rs) && NoneAdjacent(rs)
            && !Bad(b) && AllFine(b, rs) && Seen(b, rs, 0) && Seen(b, rs, 1) && Seen(b, rs, 2)
            && (IsBlock(b) ==> TailAgrees(b, rs))
  {
    hide Be32, Be16, Tiling, Parse, BestFree, TailAgrees, Bad, AllFine, Seen, NoneAdjacent;
    var end := DataEnd(b);
    ParseIsTheTiling(b, rs, HEADER, end);
    if Tiling(b, rs, HEADER, end) {
      TilingOrder(b, rs, HEADER, end);
      BestFreeIff(b, rs);
    }
    forall other | Tiling(b, other, HEADER, end) ensures other == rs {
      ParseIsTheTiling(b, other, HEADER, end);
    }
  }

  lemma NotConsistent(b: seq<Byte>)
    requires |b| >= 8 && ((!IsBlock(b) && !IsData(b)) || (IsBlock(b) && !TailFits(b)))
    ensures !Consistent(b)
  {}

  lemma EntriesFewer(b: seq<Byte>, ptr: nat, end: nat)
    requires ptr <= end
    ensures |EntriesOf(Parse(b, ptr, end))| <= end - ptr
  {
    EntriesCount(Parse(b, ptr, end));
    ParseCount(b, ptr, end);
  }

  lemma {:induction false} EntriesCount(rs: seq<Region>)
    ensures |EntriesOf(rs)| <= |rs|
    decreases |rs|
  {
    if rs != [] { EntriesCount(rs[..|rs| - 1]); }
  }

  lemma {:induction false} ParseCount(b: seq<Byte>, ptr: nat, end: nat)
    requires ptr <= end
    ensures |Parse(b, ptr, end)| <= end - ptr
    decreases end - ptr
  {
    if ptr < end && Whole(RegionAt(b, ptr), end) { ParseCount(b, RegionAt(b, ptr).End(), end); }
  }

  /** The entries of a consistent block are in different places, so no two have the same key. */
  lemma KeysDiffer(b: seq<Byte>, base: nat)
    requires 24 <= |b| <= 65536 && |b| % 8 == 0 && Consistent(b) && base % 8 == 0
    ensures H.AllDifferent(BlockKeys(b, base))
  {
    hide Consistent, Be32, Be16, Parse, NameAt, EntryKey, Tiling, EntriesOf;
    var rs := Parse(b, HEADER, DataEnd(b));
    ConsistentTiles(b);
    EntriesGoUp(b, rs, HEADER, DataEnd(b));
    var ats, keys := EntriesOf(rs), BlockKeys(b, base);
    forall i, j | 0 <= i < j < |keys| ensures keys[i] != keys[j] {
      assert keys[i] == EntryKey(b, base, ats[i]) && keys[j] == EntryKey(b, base, ats[j]);
      assert ats[i] in ats && ats[j] in ats;
      DifferentPlaces(b, base, ats[i], ats[j]);
    }
  }

  // --- the data blocks of a directory ------------------------------------------------------------

  /** A data block, and the byte of the directory where it starts. */
  datatype DataBlock = DataBlock(at: nat, bytes: seq<Byte>)

  /** Data blocks end before this byte of a directory. */
  const DATA_END := 0x8_0000_0000

  /** Blocks one behind another. */
  ghost predicate InOrder(blocks: seq<DataBlock>) {
    && (forall b <- blocks :: b.at % 8 == 0 && |b.bytes| % 8 == 0 && 24 <= |b.bytes| <= 65536)
    && (forall b <- blocks :: b.at + |b.bytes| <= DATA_END)
    && (forall i, j :: 0 <= i < j < |blocks| ==> blocks[i].at + |blocks[i].bytes| <= blocks[j].at)
  }

  /** The keys of all entries, and those looked up while the data blocks are walked. */
  ghost function AllKeys(blocks: seq<DataBlock>): seq<H.Key> {
    if blocks == [] then []
    else
      var last := blocks[|blocks| - 1];
      AllKeys(blocks[..|blocks| - 1]) + if |last.bytes| >= 8 then BlockKeys(last.bytes, last.at) else []
  }

  ghost function AllLive(blocks: seq<DataBlock>): seq<H.Key> {
    if blocks == [] then []
    else
      var last := blocks[|blocks| - 1];
      AllLive(blocks[..|blocks| - 1]) + if |last.bytes| >= 8 then LiveKeys(last.bytes) else []
  }

  /** Every block is consistent, and what it looks up is the key of an entry before, looked up for the first time. */
  ghost predicate SoundBlocks(blocks: seq<DataBlock>) {
    AllConsistent(blocks) && forall n: nat :: n <= |blocks| ==> SeenAfterAdded(blocks[..n])
  }

  ghost predicate AllConsistent(blocks: seq<DataBlock>) {
    forall b <- blocks :: |b.bytes| >= 8 && Consistent(b.bytes)
  }

  ghost predicate SeenAfterAdded(blocks: seq<DataBlock>) { multiset(AllLive(blocks)) <= multiset(AllKeys(blocks)) }

  lemma NoBlocks()
    ensures AllKeys([]) == [] == AllLive([]) && SoundBlocks([]) && AllConsistent([]) && H.Stands([], [], [])
  {}

  lemma BlockIs(blocks: seq<DataBlock>, n: nat)
    requires InOrder(blocks) && n < |blocks|
    ensures var b := blocks[n];
            b.at % 8 == 0 && |b.bytes| % 8 == 0 && 24 <= |b.bytes| <= 65536 && b.at + |b.bytes| <= DATA_END
  {
    assert blocks[n] in blocks;
  }

  lemma OneMoreBlock(blocks: seq<DataBlock>, n: nat)
    requires n < |blocks| && |blocks[n].bytes| >= 8
    ensures AllKeys(blocks[..n + 1]) == AllKeys(blocks[..n]) + BlockKeys(blocks[n].bytes, blocks[n].at)
    ensures AllLive(blocks[..n + 1]) == AllLive(blocks[..n]) + LiveKeys(blocks[n].bytes)
    ensures AllConsistent(blocks[..n + 1]) <==> AllConsistent(blocks[..n]) && Consistent(blocks[n].bytes)
  {
    hide Consistent, BlockKeys, LiveKeys;
    assert blocks[..n + 1][..n] == blocks[..n] && blocks[..n + 1] == blocks[..n] + [blocks[n]];
  }

  lemma OneMoreSound(blocks: seq<DataBlock>, n: nat)
    requires n < |blocks| && |blocks[n].bytes| >= 8
    ensures SoundBlocks(blocks[..n + 1]) <==>
            SoundBlocks(blocks[..n]) && Consistent(blocks[n].bytes) && SeenAfterAdded(blocks[..n + 1])
    ensures SoundBlocks(blocks[..n]) ==> AllConsistent(blocks[..n])
  {
    OneMoreBlock(blocks, n);
    hide Consistent, AllConsistent, SeenAfterAdded;
    var some, more := blocks[..n], blocks[..n + 1];
    assert forall m: nat :: m <= n ==> more[..m] == some[..m];
    assert more[..n + 1] == more;
    if SoundBlocks(more) {
      forall m: nat | m <= n ensures SeenAfterAdded(some[..m]) {
        assert SeenAfterAdded(more[..m]);
      }
    }
    if SoundBlocks(some) && Consistent(blocks[n].bytes) && SeenAfterAdded(more) {
      forall m: nat | m <= n + 1 ensures SeenAfterAdded(more[..m]) {
        if m <= n { assert SeenAfterAdded(some[..m]); }
      }
    }
  }

  /** As it should be, with data blocks of the data format only, nothing is looked up before the leaf blocks. */
  lemma DataFormatOnly(blocks: seq<DataBlock>)
    requires forall b <- blocks :: |b.bytes| >= 8 && IsData(b.bytes)
    ensures AllLive(blocks) == [] && (SoundBlocks(blocks) <==> AllConsistent(blocks))
  {
    hide IsData, AllLive, AllKeys, AllConsistent;
    forall n: nat | n <= |blocks| ensures AllLive(blocks[..n]) == [] && SeenAfterAdded(blocks[..n]) {
      NothingLive(blocks[..n]);
    }
    assert blocks[..|blocks|] == blocks;
  }

  /**
   * A sound directory: consistent blocks of the data format, and leaf blocks with the keys of all their entries, in
   * any order and none of them stale. No error is counted for it.
   */
  lemma SoundDirectory(blocks: seq<DataBlock>, leaves: seq<H.Leaf>)
    requires InOrder(blocks) && AllConsistent(blocks) && forall b <- blocks :: |b.bytes| >= 8 && IsData(b.bytes)
    requires multiset(H.EntriesIn(leaves)) == multiset(AllKeys(blocks)) && forall leaf <- leaves :: leaf.stale == 0
    ensures SoundBlocks(blocks) && H.StaleErrors(leaves) == 0
    ensures multiset(AllLive(blocks) + H.LiveOf(leaves)) == multiset(AllKeys(blocks))
  {
    hide IsData, AllLive, AllKeys, AllConsistent, SoundBlocks, InOrder;
    DataFormatOnly(blocks);
    assert blocks[..|blocks|] == blocks;
    PointersNotZero(blocks, |blocks|);
    var entries := H.EntriesIn(leaves);
    forall k <- entries ensures k.address != 0 {
      assert k in multiset(entries);
      assert k in AllKeys(blocks);
    }
    H.NoneStaleIn(leaves);
    assert [] + entries == entries;
  }

  lemma {:induction false} PointersNotZero(blocks: seq<DataBlock>, n: nat)
    requires InOrder(blocks) && n <= |blocks| && AllConsistent(blocks[..n])
    ensures forall k <- AllKeys(blocks[..n]) :: k.address != 0
    decreases n
  {
    hide Consistent, BlockKeys, AllKeys, AllConsistent;
    NoKeys();
    if n > 0 {
      BlockIs(blocks, n - 1);
      OneMoreBlock(blocks, n - 1);
      PointersNotZero(blocks, n - 1);
      KeysInBlock(blocks[n - 1].bytes, blocks[n - 1].at);
    }
  }

  lemma {:induction false} NothingLive(blocks: seq<DataBlock>)
    requires forall b <- blocks :: |b.bytes| >= 8 && IsData(b.bytes)
    ensures AllLive(blocks) == []
    decreases |blocks|
  {
    if blocks != [] {
      assert blocks[|blocks| - 1] in blocks;
      NothingLive(blocks[..|blocks| - 1]);
    }
  }

  /** Entries of consistent blocks are in different places, also in different blocks. */
  lemma {:induction false} KeysAllDiffer(blocks: seq<DataBlock>, n: nat)
    requires InOrder(blocks) && n <= |blocks| && AllConsistent(blocks[..n])
    ensures H.AllDifferent(AllKeys(blocks[..n]))
    ensures n > 0 ==> forall k <- AllKeys(blocks[..n]) :: k.address < (blocks[n - 1].at + |blocks[n - 1].bytes|) / 8
    decreases n
  {
    hide Consistent, BlockKeys, AllKeys, AllConsistent, H.AllDifferent;
    NoKeys();
    if n > 0 {
      var b := blocks[n - 1];
      BlockIs(blocks, n - 1);
      OneMoreBlock(blocks, n - 1);
      KeysAllDiffer(blocks, n - 1);
      KeysDiffer(b.bytes, b.at);
      KeysInBlock(b.bytes, b.at);
      var front, keys := AllKeys(blocks[..n - 1]), BlockKeys(b.bytes, b.at);
      forall i, j | 0 <= i < |front| && 0 <= j < |keys| ensures front[i] != keys[j] {
        assert front[i] in front && keys[j] in keys;
      }
      DifferentTogether(front, keys);
    }
  }

  lemma NoKeys()
    ensures AllKeys([]) == [] && H.AllDifferent([])
  {}

  lemma DifferentTogether(a: seq<H.Key>, b: seq<H.Key>)
    requires H.AllDifferent(a) && H.AllDifferent(b)
    requires forall i, j :: 0 <= i < |a| && 0 <= j < |b| ==> a[i] != b[j]
    ensures H.AllDifferent(a + b)
  {}

  /** The data pointers of a block's entries are in the block. */
  lemma KeysInBlock(b: seq<Byte>, base: nat)
    requires 24 <= |b| && |b| % 8 == 0 && Consistent(b) && base % 8 == 0 && base + |b| <= DATA_END
    ensures forall k <- BlockKeys(b, base) :: base / 8 + 2 <= k.address < (base + |b|) / 8
  {
    hide Consistent, Be32, Be16, Parse, NameAt, Tiling, EntriesOf;
    var rs := Parse(b, HEADER, DataEnd(b));
    ConsistentTiles(b);
    EntriesGoUp(b, rs, HEADER, DataEnd(b));
    var ats, keys := EntriesOf(rs), BlockKeys(b, base);
    forall i | 0 <= i < |keys| ensures base / 8 + 2 <= keys[i].address < (base + |b|) / 8 {
      assert keys[i] == EntryKey(b, base, ats[i]) && ats[i] in ats;
    }
  }

  lemma ConsistentTiles(b: seq<Byte>)
    requires |b| >= 24 && |b| % 8 == 0 && Consistent(b)
    ensures Tiling(b, Parse(b, HEADER, DataEnd(b)), HEADER, DataEnd(b)) && DataEnd(b) <= |b|
  {
    hide Be32, Be16, Tiling, Parse, Sound, BestFree, TailAgrees;
    TilingIsParse(b);
  }

  lemma DifferentPlaces(b: seq<Byte>, base: nat, a: nat, c: nat)
    requires base % 8 == 0 && a % 8 == 0 && c % 8 == 0 && a < c < a + 65536
    ensures EntryKey(b, base, a) != EntryKey(b, base, c)
  {
    hide NameAt;
    var x, d := (base + a) / 8, (c - a) / 8;
    assert (base + c) / 8 == x + d && 0 < d < TWO32;
  }

  lemma EntriesGoUp(b: seq<Byte>, rs: seq<Region>, from: nat, end: nat)
    requires Tiling(b, rs, from, end) && from % 8 == 0
    ensures forall i, j :: 0 <= i < j < |EntriesOf(rs)| ==> EntriesOf(rs)[i] < EntriesOf(rs)[j]
    ensures forall at <- EntriesOf(rs) :: at % 8 == 0 && from <= at < end
  {
    AllAligned(b, rs, from, end);
    TilingOrder(b, rs, from, end);
    PrefixGoesUp(rs, from, end);
  }

  lemma {:induction false} AllAligned(b: seq<Byte>, rs: seq<Region>, from: nat, end: nat)
    requires Tiling(b, rs, from, end) && from % 8 == 0
    ensures forall r <- rs :: r.at % 8 == 0
    decreases |rs|
  {
    if rs != [] {
      hide Be16, EntSize, NameLen;
      AllAligned(b, rs[1..], rs[0].End(), end);
    }
  }

  lemma {:induction false} PrefixGoesUp(rs: seq<Region>, from: nat, end: nat)
    requires forall i :: 0 <= i < |rs| ==> from <= rs[i].at < end && rs[i].at % 8 == 0
    requires forall i, j :: 0 <= i < j < |rs| ==> rs[i].at < rs[j].at
    ensures forall i, j :: 0 <= i < j < |EntriesOf(rs)| ==> EntriesOf(rs)[i] < EntriesOf(rs)[j]
    ensures forall at <- EntriesOf(rs) :: at % 8 == 0 && from <= at < end
    ensures rs != [] ==> forall at <- EntriesOf(rs) :: at <= rs[|rs| - 1].at
    decreases |rs|
  {
    if rs != [] {
      var front := rs[..|rs| - 1];
      PrefixGoesUp(front, from, end);
      var before := EntriesOf(front);
      forall i | 0 <= i < |before| ensures before[i] < rs[|rs| - 1].at {
        assert before[i] in before;
      }
    }
  }

  lemma TilingIsParse(b: seq<Byte>)
    requires |b| >= 24
    ensures forall rs :: Tiling(b, rs, HEADER, DataEnd(b)) ==> rs == Parse(b, HEADER, DataEnd(b))
  {
    forall rs | Tiling(b, rs, HEADER, DataEnd(b)) ensures rs == Parse(b, HEADER, DataEnd(b)) {
      ParseIsTheTiling(b, rs, HEADER, DataEnd(b));
    }
  }

  /** A data block with one free region of 16 bytes, for which the best-free table says 8. */
  const WRONG_LENGTH: seq<Byte> := [
    0x58, 0x44, 0x32, 0x44, 0, 16, 0, 8, 0, 0, 0, 0, 0, 0, 0, 0,
    0xff, 0xff, 0, 16, 0, 0, 0, 0, 0, 0, 0, 0, 0, 0, 0, 16]

  /** The checker finds no fault with it: of the regions the table names, only the offset is looked at. */
  lemma LengthsAreNotCompared()
    ensures Consistent(WRONG_LENGTH)
    ensures exists r :: Tiling(WRONG_LENGTH, [r], HEADER, DataEnd(WRONG_LENGTH))
                        && Names(WRONG_LENGTH, 0, r) && SlotLength(WRONG_LENGTH, 0) != r.size
  {
    hide Be16, Be32, SlotOffset, SlotLength, Sound, BestFree, Consistent, WRONG_LENGTH;
    var b, r := WRONG_LENGTH, Region(16, 16, true);
    WrongLengthRegion();
    WrongLengthTable();
    OneRegionIsConsistent(b, r);
  }

  lemma WrongLengthRegion()
    ensures var b := WRONG_LENGTH;
            Be32(b, 0) == DATA_MAGIC && Be16(b, 16) == FREE_TAG && Be16(b, 18) == 16 && Be16(b, 30) == 16 && |b| == 32
  {
    var b := WRONG_LENGTH;
    assert At(b, 0) == 0x58 && At(b, 1) == 0x44 && At(b, 2) == 0x32 && At(b, 3) == 0x44;
    assert At(b, 16) == 0xff && At(b, 17) == 0xff && At(b, 18) == 0 && At(b, 19) == 16;
    assert At(b, 30) == 0 && At(b, 31) == 16;
  }

  lemma WrongLengthTable()
    ensures var b := WRONG_LENGTH;
            && SlotOffset(b, 0) == 16 && SlotLength(b, 0) == 8 && SlotOffset(b, 1) == 0 == SlotLength(b, 1)
            && SlotOffset(b, 2) == 0 == SlotLength(b, 2)
  {
    WrongLengthBytes();
    hide At, WRONG_LENGTH;
  }

  lemma WrongLengthBytes()
    ensures var b := WRONG_LENGTH;
            && At(b, 4) == 0 && At(b, 5) == 16 && At(b, 6) == 0 && At(b, 7) == 8
            && forall i: nat :: 8 <= i < 16 ==> At(b, i) == 0
  {}

  lemma OneRegionIsConsistent(b: seq<Byte>, r: Region)
    requires |b| == 32 && IsData(b) && RegionAt(b, 16) == r == Region(16, 16, true) && Be16(b, 30) == 16
    requires SlotOffset(b, 0) == 16 && SlotLength(b, 0) > 0 && SlotOffset(b, 1) == SlotLength(b, 1) == 0
    requires SlotOffset(b, 2) == SlotLength(b, 2) == 0
    ensures Consistent(b) && Tiling(b, [r], HEADER, DataEnd(b)) && Names(b, 0, r)
  {
    hide Be16, SlotOffset, SlotLength, RegionAt;
    var rs := [r];
    assert rs[1..] == [] && Tiling(b, [], 32, 32) && Tiling(b, rs, 16, 32);
    assert TagRight(b, r) && NoneAdjacent(rs) && Sound(b, rs);
    assert r in rs && Names(b, 0, r);
    assert BestFree(b, rs);
  }

  /** Walking it counts no error. */
  method WalkWrongLength(w: Walk)
    requires w.hash.Valid()
    modifies w, w.hash`nodes, w.hash.dirhash
    ensures w.error == old(w.error)
  {
    hide Consistent, BlockKeys, H.Added, H.SeeErrors, H.AfterSees, H.DirHash.Valid, Be32;
    LengthsAreNotCompared();
    NoLookups(WRONG_LENGTH, H.Added(w.hash.nodes, BlockKeys(WRONG_LENGTH, 0)));
    w.ProcessData(WRONG_LENGTH, 0);
  }

  lemma NoLookups(b: seq<Byte>, nodes: seq<H.Node>)
    requires b == WRONG_LENGTH
    ensures LiveKeys(b) == [] && H.SeeErrors(nodes, LiveKeys(b)) == 0
  {
    hide Be32, Be16;
    WrongLengthRegion();
    NoSees(nodes);
  }
}
