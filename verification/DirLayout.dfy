/** Directory blocks as they are written: entries and free space byte by byte, and what is read back from them. */
module DirLayout {

  import opened Basics
  import opened Cookies
  import opened DirData
  import opened ShortDirs
  import H = DirHash
  import LeafDir
  import M = MapTable
  import NameHash

  /** What lies behind the header of a block: an entry, or free space of so many bytes. */
  datatype Item = Entry(ino: nat, name: seq<bv8>) | Gap(length: nat) {
    /** An inode number whose first bytes are those of the free tag would be taken for free space. */
    predicate Valid() {
      match this
      case Entry(ino, name) => ino < 0xffff_0000_0000_0000 && |name| < 256
      case Gap(length) => 8 <= length < 65536 && length % 8 == 0
    }

    function Size(): nat {
      match this
      case Entry(_, name) => 11 + |name| + Padding(|name|)
      case Gap(length) => length
    }

    /** Inode, length of the name, name, padding and the item's own offset; or the free tag, length and offset. */
    function Bytes(at: nat): (s: seq<Byte>)
      requires Valid()
      ensures |s| == Size()
    {
      match this
      case Entry(ino, name) =>
        BigEndian(ino, 8) + ([|name|] + (NameBytes(name) + (Zeros(Padding(|name|)) + BigEndian(at, 2))))
      case Gap(length) => [0xff, 0xff] + (BigEndian(length, 2) + (Zeros(length - 6) + BigEndian(at, 2)))
    }
  }

  /** Up to the next multiple of eight. */
  function Padding(namelen: nat): nat { (8 - (11 + namelen) % 8) % 8 }

  /** A number in so many bytes, the most significant first. */
  function BigEndian(x: nat, n: nat): (s: seq<Byte>)
    ensures |s| == n
  {
    if n == 0 then [] else BigEndian(x / 256, n - 1) + [x % 256]
  }

  function Zeros(n: nat): (s: seq<Byte>)
    ensures |s| == n
  {
    seq(n, _ => 0)
  }

  function NameBytes(name: seq<bv8>): (s: seq<Byte>)
    ensures |s| == |name|
  {
    seq(|name|, i requires 0 <= i < |name| => name[i] as int)
  }

  predicate AllValid(items: seq<Item>) { forall it <- items :: it.Valid() }

  /** Items one after another. */
  function Laid(items: seq<Item>, at: nat): seq<Byte>
    requires AllValid(items)
  {
    if items == [] then [] else items[0].Bytes(at) + Laid(items[1..], at + items[0].Size())
  }

  function Length(items: seq<Item>): nat { if items == [] then 0 else items[0].Size() + Length(items[1..]) }

  lemma {:induction false} LaidLength(items: seq<Item>, at: nat)
    requires AllValid(items)
    ensures |Laid(items, at)| == Length(items)
    decreases |items|
  {
    if items != [] { LaidLength(items[1..], at + items[0].Size()); }
  }

  /** The bytes from an offset on are these. */
  predicate Holds(b: seq<Byte>, at: nat, s: seq<Byte>) { at + |s| <= |b| && b[at..at + |s|] == s }

  lemma HoldsParts(b: seq<Byte>, at: nat, s: seq<Byte>, t: seq<Byte>)
    ensures Holds(b, at, s + t) <==> Holds(b, at, s) && Holds(b, at + |s|, t)
  {
    if Holds(b, at, s + t) {
      assert b[at..at + |s|] == (s + t)[..|s|] == s;
      assert b[at + |s|..at + |s| + |t|] == (s + t)[|s|..] == t;
    }
    if Holds(b, at, s) && Holds(b, at + |s|, t) {
      assert b[at..at + |s + t|] == b[at..at + |s|] + b[at + |s|..at + |s| + |t|];
    }
  }

  // --- numbers --------------------------------------------------------------------------------

  lemma ByteIs(b: seq<Byte>, at: nat, x: Byte)
    requires Holds(b, at, [x])
    ensures At(b, at) == x
  {
    assert b[at..at + 1][0] == b[at];
  }

  lemma Be16Is(b: seq<Byte>, at: nat, x: nat)
    requires Holds(b, at, BigEndian(x, 2)) && x < 0x1_0000
    ensures Be16(b, at) == x
  {
    var y := x / 256;
    assert BigEndian(y, 1) == [] + [y % 256] == [y];
    assert BigEndian(x, 2) == [y] + [x % 256];
    HoldsParts(b, at, [y], [x % 256]);
    ByteIs(b, at, y);
    ByteIs(b, at + 1, x % 256);
  }

  /** What is left of a number without its n low bytes, and those bytes. */
  function High(x: nat, n: nat): nat { if n == 0 then x else High(x / 256, n - 1) }

  function Low(x: nat, n: nat): nat { if n == 0 then 0 else Low(x / 256, n - 1) * 256 + x % 256 }

  lemma {:induction false} BigEndianParts(x: nat, m: nat, n: nat)
    ensures BigEndian(x, m + n) == BigEndian(High(x, n), m) + BigEndian(Low(x, n), n)
    decreases n
  {
    if n == 0 {
      assert BigEndian(x, m) + [] == BigEndian(x, m);
    } else {
      BigEndianParts(x / 256, m, n - 1);
      Associate(BigEndian(High(x, n), m), BigEndian(Low(x / 256, n - 1), n - 1), [x % 256]);
    }
  }

  lemma TwoBytes(x: nat)
    ensures High(x, 2) == x / 65536 && Low(x, 2) == x % 65536
  {
    assert High(x / 256, 1) == High(x / 256 / 256, 0) && Low(x / 256, 1) == x / 256 % 256;
  }

  lemma FourBytes(x: nat)
    ensures High(x, 4) == x / 0x1_0000_0000 && Low(x, 4) == x % 0x1_0000_0000
  {
    TwoBytes(x / 65536);
    assert High(x, 4) == High(x / 256, 3) == High(x / 65536, 2);
    assert Low(x / 256, 3) == Low(x / 65536, 2) * 256 + x / 256 % 256;
  }

  lemma Be32Is(b: seq<Byte>, at: nat, x: nat)
    requires Holds(b, at, BigEndian(x, 4)) && x < 0x1_0000_0000
    ensures Be32(b, at) == x
  {
    hide Be16, BigEndian, Holds, High, Low;
    BigEndianParts(x, 2, 2);
    TwoBytes(x);
    HoldsParts(b, at, BigEndian(x / 65536, 2), BigEndian(x % 65536, 2));
    Be16Is(b, at, x / 65536);
    Be16Is(b, at + 2, x % 65536);
  }

  lemma Be64Is(b: seq<Byte>, at: nat, x: nat)
    requires Holds(b, at, BigEndian(x, 8)) && x < 0x1_0000_0000_0000_0000
    ensures Be64(b, at) == x
    ensures Be16(b, at) == x / 0x1_0000_0000_0000
  {
    hide Be16, Be32, BigEndian, Holds, High, Low;
    BigEndianParts(x, 4, 4);
    FourBytes(x);
    var high, low := x / 0x1_0000_0000, x % 0x1_0000_0000;
    HoldsParts(b, at, BigEndian(high, 4), BigEndian(low, 4));
    Be32Is(b, at, high);
    Be32Is(b, at + 4, low);
    BigEndianParts(high, 2, 2);
    HoldsParts(b, at, BigEndian(high / 65536, 2), BigEndian(high % 65536, 2));
    TwoBytes(high);
    Be16Is(b, at, high / 65536);
  }

  // --- reading items --------------------------------------------------------------------------

  /** The region an item is read as. */
  function Place(it: Item, at: nat): Region { Region(at, it.Size(), it.Gap?) }

  lemma SizeIs(it: Item)
    requires it.Valid()
    ensures it.Size() >= 8 && it.Size() % 8 == 0
    ensures it.Entry? ==> it.Size() == EntSize(|it.name|) && it.Size() < 300
  {}

  lemma EntryParts(b: seq<Byte>, it: Item, at: nat)
    requires it.Valid() && it.Entry? && Holds(b, at, it.Bytes(at))
    ensures var n := |it.name|;
            && Holds(b, at, BigEndian(it.ino, 8)) && Holds(b, at + 8, [n]) && Holds(b, at + 9, NameBytes(it.name))
            && Holds(b, at + it.Size() - 2, BigEndian(at, 2))
  {
    hide Holds, BigEndian, Padding;
    var n, pad := |it.name|, Zeros(Padding(|it.name|));
    var tag := BigEndian(at, 2);
    HoldsParts(b, at, BigEndian(it.ino, 8), [n] + (NameBytes(it.name) + (pad + tag)));
    HoldsParts(b, at + 8, [n], NameBytes(it.name) + (pad + tag));
    HoldsParts(b, at + 9, NameBytes(it.name), pad + tag);
    HoldsParts(b, at + 9 + n, pad, tag);
  }

  /** An entry is read as the name and the inode number it was written for. */
  lemma EntryIsRead(b: seq<Byte>, it: Item, at: nat)
    requires it.Valid() && it.Entry? && Holds(b, at, it.Bytes(at)) && at < 65536
    ensures RegionAt(b, at) == Place(it, at) && it.Size() >= 2 && TagRight(b, Place(it, at))
    ensures NameLen(b, at) == |it.name| && NameAt(b, at) == it.name && Be64(b, at) == it.ino
  {
    hide Be16, Be64, BigEndian, Item.Bytes, NameBytes, Holds, EntSize, Padding;
    SizeIs(it);
    EntryParts(b, it, at);
    ByteIs(b, at + 8, |it.name|);
    Be64Is(b, at, it.ino);
    Be16Is(b, at + it.Size() - 2, at);
    NameIs(b, it.name, at);
  }

  lemma NameIs(b: seq<Byte>, name: seq<bv8>, at: nat)
    requires Holds(b, at + 9, NameBytes(name)) && NameLen(b, at) == |name|
    ensures NameAt(b, at) == name
  {
    hide NameLen;
    forall i | 0 <= i < |name| ensures NameAt(b, at)[i] == name[i] {
      ThereAndBack(name[i]);
      var x := name[i] as int;
      assert b[at + 9..at + 9 + |name|][i] == b[at + 9 + i] && NameBytes(name)[i] == x;
      assert At(b, at + 9 + i) == x;
    }
  }

  lemma ThereAndBack(x: bv8)
    ensures (x as int) as bv8 == x
  {}

  lemma GapIsRead(b: seq<Byte>, it: Item, at: nat)
    requires it.Valid() && it.Gap? && Holds(b, at, it.Bytes(at)) && at < 65536
    ensures RegionAt(b, at) == Place(it, at) && it.Size() >= 2 && TagRight(b, Place(it, at))
  {
    hide Be16, BigEndian, Holds;
    var n := it.length;
    var pad, tag := Zeros(n - 6), BigEndian(at, 2);
    HoldsParts(b, at, [0xff, 0xff], BigEndian(n, 2) + (pad + tag));
    HoldsParts(b, at + 2, BigEndian(n, 2), pad + tag);
    HoldsParts(b, at + 4, pad, tag);
    Be16Is(b, at + 2, n);
    Be16Is(b, at + n - 2, at);
    TagIs(b, at);
  }

  lemma TagIs(b: seq<Byte>, at: nat)
    requires Holds(b, at, [0xff, 0xff])
    ensures Be16(b, at) == FREE_TAG
  {
    assert b[at..at + 2][0] == b[at] && b[at..at + 2][1] == b[at + 1];
  }

  // --- reading a block --------------------------------------------------------------------------

  function Places(items: seq<Item>, at: nat): (rs: seq<Region>)
    ensures |rs| == |items|
  {
    if items == [] then [] else [Place(items[0], at)] + Places(items[1..], at + items[0].Size())
  }

  /** The entries among items that start at a byte of the directory, each with that position as its cookie. */
  function Dirents(items: seq<Item>, start: nat): seq<Dirent> {
    if items == [] then []
    else
      var rest := Dirents(items[1..], start + items[0].Size());
      if items[0].Gap? then rest else [Dirent(items[0].name, items[0].ino, start / 8)] + rest
  }

  /** Their hashes and data pointers. */
  function Keys(items: seq<Item>, start: nat): seq<H.Key> {
    if items == [] then []
    else
      var rest := Keys(items[1..], start + items[0].Size());
      if items[0].Gap? then rest else [H.Key(NameHash.HashName(items[0].name), start / 8 % 0x1_0000_0000)] + rest
  }

  /** What is read from a position on. */
  ghost predicate ReadsAs(b: seq<Byte>, items: seq<Item>, at: nat, base: nat) {
    var end := at + Length(items);
    && Tiling(b, Places(items, at), at, end) && WellTiled(b, at, end) && AllTagged(b, Places(items, at))
    && Listing(b, base, at, end) == Dirents(items, base + at)
    && KeysAt(b, base, EntriesOf(Places(items, at))) == Keys(items, base + at)
    && (AllNamed(b, Places(items, at)) <==> Named(items))
  }

  lemma {:induction false} LaidIsRead(b: seq<Byte>, items: seq<Item>, at: nat, base: nat)
    requires AllValid(items) && Holds(b, at, Laid(items, at)) && at + Length(items) <= 65536
    ensures ReadsAs(b, items, at, base)
    decreases |items|
  {
    hide Be16, Be64, Item.Bytes, Holds, NameLen, NameAt, RegionAt, TagRight, EntryKey, Item.Size, Item.Valid;
    if items == [] {
      NothingRead(b, at, base);
    } else {
      var it, rest, next := items[0], items[1..], at + items[0].Size();
      SizeIs(it);
      LaidLength(rest, next);
      HoldsParts(b, at, it.Bytes(at), Laid(rest, next));
      LaidIsRead(b, rest, next, base);
      if it.Gap? { GapIsRead(b, it, at); } else { EntryIsRead(b, it, at); }
      OneMoreItem(b, items, at, base);
    }
  }

  lemma NothingRead(b: seq<Byte>, at: nat, base: nat)
    ensures ReadsAs(b, [], at, base)
  {}

  lemma OneMoreItem(b: seq<Byte>, items: seq<Item>, at: nat, base: nat)
    requires items != [] && items[0].Valid() && items[0].Size() >= 2
    requires ReadsAs(b, items[1..], at + items[0].Size(), base)
    requires RegionAt(b, at) == Place(items[0], at) && TagRight(b, Place(items[0], at))
    requires items[0].Entry? ==>
               NameLen(b, at) == |items[0].name| && NameAt(b, at) == items[0].name && Be64(b, at) == items[0].ino
    ensures ReadsAs(b, items, at, base)
  {
    hide Be64, NameLen, NameAt, RegionAt, TagRight, Tiling, WellTiled, Listing, KeysAt, Item.Size, Item.Valid;
    hide AllTagged, AllNamed, Named, EntriesOf;
    var it, next := items[0], at + items[0].Size();
    var r, rs := Place(it, at), Places(items[1..], next);
    SizeIs(it);
    assert Places(items, at) == [r] + rs;
    TilesFirst(b, r, rs, at, at + Length(items));
    ListsFirst(b, base, at, at + Length(items));
    KeysFirst(b, base, r, rs);
    EachFirst(b, r, rs);
    NamedFirst(items);
  }

  lemma TilesFirst(b: seq<Byte>, r: Region, rs: seq<Region>, at: nat, end: nat)
    requires RegionAt(b, at) == r && r.size > 0 && r.size % 8 == 0 && Tiling(b, rs, r.End(), end)
    requires WellTiled(b, r.End(), end) && r.End() <= end && r.at == at
    ensures Tiling(b, [r] + rs, at, end) && WellTiled(b, at, end)
  {
    hide RegionAt;
    assert ([r] + rs)[1..] == rs;
  }

  lemma ListsFirst(b: seq<Byte>, base: nat, at: nat, end: nat)
    requires Whole(RegionAt(b, at), end) && at < end
    ensures var rest := Listing(b, base, RegionAt(b, at).End(), end);
            Listing(b, base, at, end) ==
            if RegionAt(b, at).free then rest
            else [Dirent(NameAt(b, at), Be64(b, at), (base + at) / 8)] + rest
  {
    hide RegionAt, NameAt, Be64;
    var rest := Listing(b, base, RegionAt(b, at).End(), end);
    assert [] + rest == rest;
  }

  lemma KeysFirst(b: seq<Byte>, base: nat, r: Region, rs: seq<Region>)
    ensures var rest := KeysAt(b, base, EntriesOf(rs));
            KeysAt(b, base, EntriesOf([r] + rs)) ==
            if r.free then rest
            else [H.Key(NameHash.HashName(NameAt(b, r.at)), (base + r.at) / 8 % 0x1_0000_0000)] + rest
  {
    EntriesFirst(r, rs);
    hide EntriesOf, NameAt, NameHash.HashName;
    assert [] + EntriesOf(rs) == EntriesOf(rs);
  }

  lemma {:induction false} EntriesFirst(r: Region, rs: seq<Region>)
    ensures EntriesOf([r] + rs) == (if r.free then [] else [r.at]) + EntriesOf(rs)
    decreases |rs|
  {
    if rs == [] {
      assert [r] + rs == [] + [r];
      SnocEntries([], r);
    } else {
      var front, last := rs[..|rs| - 1], rs[|rs| - 1];
      EntriesFirst(r, front);
      assert [r] + rs == ([r] + front) + [last] && rs == front + [last];
      SnocEntries([r] + front, last);
      SnocEntries(front, last);
    }
  }

  lemma EachFirst(b: seq<Byte>, r: Region, rs: seq<Region>)
    ensures AllTagged(b, [r] + rs) <==> AllTagged(b, rs) && r.size >= 2 && TagRight(b, r)
    ensures AllNamed(b, [r] + rs) <==> AllNamed(b, rs) && (!r.free ==> NameLen(b, r.at) > 0)
  {
    hide TagRight, NameLen;
    assert r in [r] + rs && forall q <- rs :: q in [r] + rs;
  }

  /** Every entry has a name. */
  predicate Named(items: seq<Item>) { forall it <- items :: it.Entry? ==> it.name != [] }

  lemma NamedFirst(items: seq<Item>)
    requires items != []
    ensures Named(items) <==> Named(items[1..]) && (items[0].Entry? ==> items[0].name != [])
  {
    assert items == [items[0]] + items[1..];
  }

  // --- whole blocks -----------------------------------------------------------------------------

  /** A slot of the best-free table. */
  datatype Slot = Slot(offset: nat, length: nat) {
    predicate Shows(r: Region) { length > 0 && offset == r.at }
  }

  /** What follows the entries in a block-format directory: the leaf entries, and how many of them are stale. */
  datatype Tail = Tail(leaves: seq<H.Key>, stale: nat) {
    predicate Valid() { stale < 0x1_0000_0000 && forall k <- leaves :: k.address < 0x1_0000_0000 }

    function Bytes(): (s: seq<Byte>)
      requires Valid()
      ensures |s| == 8 * |leaves| + 8
    {
      LeafBytes(leaves) + (BigEndian(|leaves|, 4) + BigEndian(stale, 4))
    }
  }

  /** Hash and address of each leaf entry. */
  function LeafBytes(leaves: seq<H.Key>): (s: seq<Byte>)
    requires forall k <- leaves :: k.address < 0x1_0000_0000
    ensures |s| == 8 * |leaves|
  {
    if leaves == [] then []
    else BigEndian(leaves[0].hash as nat, 4) + (BigEndian(leaves[0].address, 4) + LeafBytes(leaves[1..]))
  }

  function SlotBytes(slots: seq<Slot>): (s: seq<Byte>)
    ensures |s| == 4 * |slots|
  {
    if slots == [] then []
    else BigEndian(slots[0].offset, 2) + (BigEndian(slots[0].length, 2) + SlotBytes(slots[1..]))
  }

  /** A directory block: of the block format if it has a tail, and of the data format if not. */
  datatype Block = Block(slots: seq<Slot>, items: seq<Item>, tail: Option<Tail>) {
    predicate Valid() {
      && |slots| == 3 && (forall s <- slots :: s.offset < 65536 && s.length < 65536)
      && AllValid(items) && items != []
      && (tail.Some? ==> tail.value.Valid())
      && Size() <= 65536
    }

    function Size(): nat {
      16 + Length(items) + match tail case None => 0 case Some(t) => 8 * |t.leaves| + 8
    }

    /** "XD2B" or "XD2D", the table, the items, the tail. */
    function Bytes(): seq<Byte>
      requires Valid()
    {
      match tail
      case Some(t) => [0x58, 0x44, 0x32, 0x42] + (SlotBytes(slots) + (Laid(items, 16) + t.Bytes()))
      case None => [0x58, 0x44, 0x32, 0x44] + (SlotBytes(slots) + (Laid(items, 16) + []))
    }
  }

  lemma {:induction false} LengthIs(items: seq<Item>)
    requires AllValid(items)
    ensures Length(items) % 8 == 0 && (items != [] ==> Length(items) >= 8)
    decreases |items|
  {
    if items != [] {
      SizeIs(items[0]);
      LengthIs(items[1..]);
    }
  }

  lemma MagicIs(b: seq<Byte>, last: Byte)
    requires Holds(b, 0, [0x58, 0x44, 0x32, last])
    ensures Be32(b, 0) == 0x5844_3200 + last
  {
    var s: seq<Byte> := [0x58, 0x44, 0x32, last];
    assert b[0..4][0] == b[0] && b[0..4][1] == b[1] && b[0..4][2] == b[2] && b[0..4][3] == b[3];
    assert At(b, 0) == 0x58 && At(b, 1) == 0x44 && At(b, 2) == 0x32 && At(b, 3) == last;
  }

  lemma {:induction false} SlotsAre(b: seq<Byte>, at: nat, slots: seq<Slot>, i: nat)
    requires Holds(b, at, SlotBytes(slots)) && i < |slots|
    requires forall s <- slots :: s.offset < 65536 && s.length < 65536
    ensures Be16(b, at + 4 * i) == slots[i].offset && Be16(b, at + 4 * i + 2) == slots[i].length
    decreases i
  {
    hide Be16, BigEndian, Holds;
    var offset, length := BigEndian(slots[0].offset, 2), BigEndian(slots[0].length, 2);
    HoldsParts(b, at, offset, length + SlotBytes(slots[1..]));
    HoldsParts(b, at + 2, length, SlotBytes(slots[1..]));
    if i == 0 {
      Be16Is(b, at, slots[0].offset);
      Be16Is(b, at + 2, slots[0].length);
    } else {
      SlotsAre(b, at + 4, slots[1..], i - 1);
    }
  }

  lemma {:induction false} LeavesAre(b: seq<Byte>, at: nat, leaves: seq<H.Key>, i: nat)
    requires forall k <- leaves :: k.address < 0x1_0000_0000
    requires Holds(b, at, LeafBytes(leaves)) && i < |leaves|
    ensures LeafKey(b, at + 8 * i) == leaves[i] && Be32(b, at + 8 * i + 4) == leaves[i].address
    decreases i
  {
    hide Be32, BigEndian, Holds, Word;
    var hash, address := BigEndian(leaves[0].hash as nat, 4), BigEndian(leaves[0].address, 4);
    HoldsParts(b, at, hash, address + LeafBytes(leaves[1..]));
    HoldsParts(b, at + 4, address, LeafBytes(leaves[1..]));
    if i == 0 {
      Be32Is(b, at, leaves[0].hash as nat);
      Be32Is(b, at + 4, leaves[0].address);
      SameWord(leaves[0].hash);
    } else {
      LeavesAre(b, at + 8, leaves[1..], i - 1);
    }
  }

  lemma SameWord(x: bv32)
    ensures Word(x as nat) == x
  {
    WordThereAndBack(x);
    var n := x as nat;
    SmallMod(n);
  }

  lemma WordThereAndBack(x: bv32)
    ensures (x as nat) as bv32 == x && x as nat < TWO32
  {}

  lemma SmallMod(n: nat)
    requires n < TWO32
    ensures n % TWO32 == n
  {}

  /** The live leaf entries are read as they were written. */
  lemma {:induction false} LiveIs(b: seq<Byte>, leaves: seq<H.Key>, i: nat)
    requires |b| >= 8 && TailFits(b) && TailCount(b) == |leaves| && i <= |leaves|
    requires forall k <- leaves :: k.address < 0x1_0000_0000
    requires Holds(b, LeafStart(b), LeafBytes(leaves))
    ensures LiveFrom(b, i) == H.Live(leaves[i..])
    decreases |leaves| - i
  {
    hide Be32, Holds, LeafKey, LiveFrom, TailCount, LeafStart, TailFits, LeafBytes;
    if i < |leaves| {
      LiveIs(b, leaves, i + 1);
      LeavesAre(b, LeafStart(b), leaves, i);
      OneMoreLive(b, leaves, i);
    } else {
      LiveStart(b);
    }
  }

  lemma OneMoreLive(b: seq<Byte>, leaves: seq<H.Key>, i: nat)
    requires |b| >= 8 && TailFits(b) && i < TailCount(b) == |leaves|
    requires LeafKey(b, LeafStart(b) + 8 * i) == leaves[i] && Be32(b, LeafStart(b) + 8 * i + 4) == leaves[i].address
    requires LiveFrom(b, i + 1) == H.Live(leaves[i + 1..])
    ensures LiveFrom(b, i) == H.Live(leaves[i..])
  {
    LiveStep(b, i);
    hide Be32, LeafKey, LiveFrom, TailCount, LeafStart, TailFits;
    assert leaves[i..][1..] == leaves[i + 1..];
    var rest := H.Live(leaves[i + 1..]);
    assert [] + rest == rest;
  }

  lemma LiveStart(b: seq<Byte>)
    requires |b| >= 8 && TailFits(b)
    ensures LiveFrom(b, TailCount(b)) == []
  {}

  /** The parts of a block lie one behind the other. */
  lemma PartsAre(x: Block)
    requires x.Valid()
    ensures var b, end := x.Bytes(), 16 + Length(x.items);
            && |b| == x.Size() && |b| % 8 == 0 && |b| >= 24 && end <= |b|
            && Holds(b, 0, [0x58, 0x44, 0x32, if x.tail.Some? then 0x42 else 0x44])
            && Holds(b, 4, SlotBytes(x.slots)) && Holds(b, 16, Laid(x.items, 16))
            && (x.tail.Some? ==> Holds(b, end, x.tail.value.Bytes()))
  {
    hide Holds, Laid, Length, SlotBytes, Tail.Bytes, Item.Valid;
    LengthIs(x.items);
    LaidLength(x.items, 16);
    var magic: seq<Byte> := [0x58, 0x44, 0x32, if x.tail.Some? then 0x42 else 0x44];
    var tail: seq<Byte> := if x.tail.Some? then x.tail.value.Bytes() else [];
    FourParts(magic, SlotBytes(x.slots), Laid(x.items, 16), tail);
  }

  lemma FourParts(a: seq<Byte>, b: seq<Byte>, c: seq<Byte>, d: seq<Byte>)
    ensures var s := a + (b + (c + d));
            && |s| == |a| + |b| + |c| + |d|
            && Holds(s, 0, a) && Holds(s, |a|, b) && Holds(s, |a| + |b|, c) && Holds(s, |a| + |b| + |c|, d)
  {
    hide Holds;
    var s := a + (b + (c + d));
    AllHeld(s);
    HoldsParts(s, 0, a, b + (c + d));
    HoldsParts(s, |a|, b, c + d);
    HoldsParts(s, |a| + |b|, c, d);
  }

  lemma AllHeld(b: seq<Byte>)
    ensures Holds(b, 0, b)
  {}

  /** The header and the tail are read as they were written. */
  lemma HeaderIsRead(x: Block)
    requires x.Valid()
    ensures var b := x.Bytes();
            && |b| == x.Size() && |b| % 8 == 0 && |b| >= 24
            && (IsBlock(b) <==> x.tail.Some?) && (IsData(b) <==> x.tail.None?)
            && forall i: nat :: i < 3 ==> Slot(SlotOffset(b, i), SlotLength(b, i)) == x.slots[i]
    ensures x.tail.None? ==> DataEnd(x.Bytes()) == 16 + Length(x.items) && LiveKeys(x.Bytes()) == []
  {
    hide Holds, Length, SlotBytes, Be32, Be16, Item.Valid;
    PartsAre(x);
    var b := x.Bytes();
    MagicIs(b, if x.tail.Some? then 0x42 else 0x44);
    hide Block.Bytes;
    forall i: nat | i < 3 ensures Slot(SlotOffset(b, i), SlotLength(b, i)) == x.slots[i] {
      SlotsAre(b, 4, x.slots, i);
    }
  }

  lemma TailNumbers(b: seq<Byte>, end: nat, t: Tail)
    requires t.Valid() && Holds(b, end, t.Bytes()) && |b| == end + 8 * |t.leaves| + 8 <= 65536 && end > HEADER
    ensures TailCount(b) == |t.leaves| && TailStale(b) == t.stale && TailFits(b) && LeafStart(b) == end
    ensures Holds(b, end, LeafBytes(t.leaves))
  {
    hide Holds, LeafBytes, Be32, BigEndian;
    HoldsParts(b, end, LeafBytes(t.leaves), BigEndian(|t.leaves|, 4) + BigEndian(t.stale, 4));
    HoldsParts(b, |b| - 8, BigEndian(|t.leaves|, 4), BigEndian(t.stale, 4));
    Be32Is(b, |b| - 8, |t.leaves|);
    Be32Is(b, |b| - 4, t.stale);
  }

  lemma TailIsRead(x: Block)
    requires x.Valid() && x.tail.Some?
    ensures var b, t := x.Bytes(), x.tail.value;
            && |b| >= 24 && IsBlock(b) && TailCount(b) == |t.leaves| && TailStale(b) == t.stale && TailFits(b)
            && LeafStart(b) == DataEnd(b) == 16 + Length(x.items) && LiveKeys(b) == H.Live(t.leaves)
  {
    HeaderIsRead(x);
    PartsAre(x);
    hide Holds, Length, LeafBytes, IsBlock, IsData, TailFits, TailCount, TailStale, LeafStart, Block.Bytes, LiveFrom;
    var b, t, end := x.Bytes(), x.tail.value, 16 + Length(x.items);
    LengthIs(x.items);
    TailNumbers(b, end, t);
    LiveIs(b, t.leaves, 0);
    assert t.leaves[0..] == t.leaves;
  }

  /**
   * A directory block lists the entries it was written from, with their names and inode numbers in order, each with
   * its position as the cookie; and the checker takes their hashes and positions.
   */
  lemma ListedAsWritten(x: Block, base: nat)
    requires x.Valid()
    ensures var b := x.Bytes();
            && |b| == x.Size() && |b| >= 24 && DataEnd(b) == 16 + Length(x.items) && WellTiled(b, HEADER, DataEnd(b))
            && Listing(b, base, HEADER, DataEnd(b)) == Dirents(x.items, base + 16)
            && BlockKeys(b, base) == Keys(x.items, base + 16)
            && LiveKeys(b) == (if x.tail.Some? then H.Live(x.tail.value.leaves) else [])
    ensures x.tail.Some? ==> TailFits(x.Bytes()) && BlockAll(x.Bytes()) == Dirents(x.items, 16)
  {
    hide Length, Be32, Block.Bytes, Listing, Parse, IsBlock, IsData, TailCount, Block.Valid, TailFits, LeafStart;
    hide Places, Tiling, WellTiled, AllTagged, AllNamed, Named, KeysAt, Keys, Dirents, EntriesOf, LiveFrom, H.Live;
    HeaderIsRead(x);
    if x.tail.Some? { TailIsRead(x); }
    var b := x.Bytes();
    ItemsAreRead(x, base);
    ItemsAreRead(x, 0);
    ParseIsTheTiling(b, Places(x.items, 16), 16, 16 + Length(x.items));
  }

  // --- sound blocks -----------------------------------------------------------------------------

  /** No two pieces of free space that should have been one. */
  ghost predicate Joined(items: seq<Item>) { forall i :: 0 < i < |items| ==> !(items[i - 1].Gap? && items[i].Gap?) }

  /**
   * The best-free table by its slots: in order of length, an empty one all zero, each of the others at a piece of
   * free space of its own, and none longer than the third length left out.
   */
  ghost predicate TableRight(slots: seq<Slot>, rs: seq<Region>)
    requires |slots| == 3
  {
    && slots[0].length >= slots[1].length >= slots[2].length
    && (forall i :: 0 <= i < 3 && slots[i].length == 0 ==> slots[i].offset == 0)
    && (forall i :: 0 <= i < 3 && slots[i].length > 0 ==>
          exists r <- rs :: r.free && r.size >= slots[2].length && slots[i].Shows(r))
    && (forall i, j :: 0 <= i < j < 3 && slots[i].length > 0 && slots[j].length > 0 ==>
          slots[i].offset != slots[j].offset)
    && (forall r <- rs :: r.free && r.size > slots[2].length ==> exists i :: 0 <= i < 3 && slots[i].Shows(r))
  }

  ghost predicate SlotsRead(b: seq<Byte>, slots: seq<Slot>) {
    |slots| == 3 && forall i: nat :: i < 3 ==> Slot(SlotOffset(b, i), SlotLength(b, i)) == slots[i]
  }

  lemma SlotShows(b: seq<Byte>, slots: seq<Slot>, i: nat, r: Region)
    requires SlotsRead(b, slots) && i < 3
    ensures Names(b, i, r) <==> slots[i].Shows(r)
  {
    hide SlotOffset, SlotLength;
  }

  lemma TableFromBytes(b: seq<Byte>, slots: seq<Slot>, rs: seq<Region>)
    requires SlotsRead(b, slots) && BestFree(b, rs)
    ensures TableRight(slots, rs)
  {
    hide SlotOffset, SlotLength, Names, Slot.Shows;
    forall i | 0 <= i < 3 && slots[i].length > 0
      ensures exists r <- rs :: r.free && r.size >= slots[2].length && slots[i].Shows(r) {
      var r :| r in rs && r.free && r.size >= SlotLength(b, 2) && Names(b, i, r);
      SlotShows(b, slots, i, r);
    }
    forall r <- rs | r.free && r.size > slots[2].length ensures exists i :: 0 <= i < 3 && slots[i].Shows(r) {
      var i: nat :| i < 3 && Names(b, i, r);
      SlotShows(b, slots, i, r);
    }
  }

  lemma BytesFromTable(b: seq<Byte>, slots: seq<Slot>, rs: seq<Region>)
    requires SlotsRead(b, slots) && TableRight(slots, rs)
    ensures BestFree(b, rs)
  {
    hide SlotOffset, SlotLength, Names, Slot.Shows;
    forall i: nat | i < 3 && SlotLength(b, i) > 0
      ensures exists r <- rs :: r.free && r.size >= SlotLength(b, 2) && Names(b, i, r) {
      var r :| r in rs && r.free && r.size >= slots[2].length && slots[i].Shows(r);
      SlotShows(b, slots, i, r);
    }
    forall r <- rs | r.free && r.size > SlotLength(b, 2) ensures exists i: nat :: i < 3 && Names(b, i, r) {
      var i: nat :| i < 3 && slots[i].Shows(r);
      SlotShows(b, slots, i, r);
    }
  }

  lemma {:induction false} PlacesAre(items: seq<Item>, at: nat, i: nat)
    requires i < |items|
    ensures Places(items, at)[i].free == items[i].Gap?
    decreases i
  {
    if i > 0 { PlacesAre(items[1..], at + items[0].Size(), i - 1); }
  }

  lemma JoinedIs(items: seq<Item>, at: nat)
    ensures NoneAdjacent(Places(items, at)) <==> Joined(items)
  {
    var rs := Places(items, at);
    hide Places;
    forall i: nat | i < |items| ensures rs[i].free == items[i].Gap? {
      PlacesAre(items, at, i);
    }
    if Joined(items) {
      forall i | 0 <= i < |rs| - 1 ensures !BothFree(rs, i) {
        assert i + 1 < |items|;
      }
    }
    if NoneAdjacent(rs) {
      forall i | 0 < i < |items| ensures !(items[i - 1].Gap? && items[i].Gap?) {
        assert !BothFree(rs, i - 1);
      }
    }
  }

  lemma {:induction false} AsManyKeys(items: seq<Item>, at: nat, start: nat)
    ensures |EntriesOf(Places(items, at))| == |Keys(items, start)|
    decreases |items|
  {
    hide NameHash.HashName;
    if items != [] {
      AsManyKeys(items[1..], at + items[0].Size(), start + items[0].Size());
      EntriesFirst(Place(items[0], at), Places(items[1..], at + items[0].Size()));
    }
  }

  /** What makes a block consistent, in terms of what was written. */
  lemma ConsistentAsWritten(x: Block)
    requires x.Valid()
    ensures |x.Bytes()| >= 24
    ensures Consistent(x.Bytes()) <==>
            && Named(x.items) && Joined(x.items) && TableRight(x.slots, Places(x.items, 16))
            && (x.tail.Some? ==>
                  var live := H.Live(x.tail.value.leaves);
                  |Keys(x.items, 16)| == |live| && |live| + x.tail.value.stale == |x.tail.value.leaves|)
  {
    hide BestFree, TableRight, Places, Tiling, LiveFrom, Keys, Block.Bytes, Named, NoneAdjacent, Consistent, IsBlock;
    hide TailCount, TailStale, AllTagged, AllNamed, SlotsRead, EntriesOf, H.Live, Joined;
    BlockTiles(x);
    var b, rs := x.Bytes(), Places(x.items, 16);
    JoinedIs(x.items, 16);
    AsManyKeys(x.items, 16, 16);
    OnlyTiling(b, rs);
    if BestFree(b, rs) { TableFromBytes(b, x.slots, rs); }
    if TableRight(x.slots, rs) { BytesFromTable(b, x.slots, rs); }
    assert |x.slots| == 3 by { ValidParts(x); }
  }

  lemma BlockTiles(x: Block)
    requires x.Valid()
    ensures var b, rs := x.Bytes(), Places(x.items, 16);
            && |b| >= 24 && (IsBlock(b) || IsData(b)) && (IsBlock(b) <==> x.tail.Some?)
            && (IsBlock(b) ==>
                  && TailFits(b) && TailCount(b) == |x.tail.value.leaves| && TailStale(b) == x.tail.value.stale
                  && LiveFrom(b, 0) == H.Live(x.tail.value.leaves))
            && Tiling(b, rs, HEADER, DataEnd(b)) && AllTagged(b, rs) && (AllNamed(b, rs) <==> Named(x.items))
            && SlotsRead(b, x.slots)
  {
    hide Length, Places, Block.Bytes, Tiling, IsBlock, IsData, TailCount, TailStale, AllNamed, AllTagged, LiveFrom;
    hide WellTiled, Listing, KeysAt, Keys, Dirents, SlotOffset, SlotLength, Named, Block.Valid, TailFits, LeafStart;
    hide H.Live;
    ValidParts(x);
    HeaderIsRead(x);
    if x.tail.Some? { TailIsRead(x); }
    ItemsAreRead(x, 0);
  }

  lemma ItemsAreRead(x: Block, base: nat)
    requires x.Valid()
    ensures ReadsAs(x.Bytes(), x.items, 16, base)
  {
    hide Length, Holds, Laid, Block.Bytes, ReadsAs;
    PartsAre(x);
    LaidIsRead(x.Bytes(), x.items, 16, base);
  }

  lemma ValidParts(x: Block)
    requires x.Valid()
    ensures |x.slots| == 3 && AllValid(x.items) && 16 + Length(x.items) <= x.Size() <= 65536
  {}

  lemma OnlyTiling(b: seq<Byte>, rs: seq<Region>)
    requires |b| >= 24 && (IsBlock(b) || IsData(b)) && (IsBlock(b) ==> TailFits(b)) && Tiling(b, rs, HEADER, DataEnd(b))
    requires AllTagged(b, rs)
    ensures Consistent(b) <==>
            AllNamed(b, rs) && NoneAdjacent(rs) && BestFree(b, rs) && (IsBlock(b) ==> TailAgrees(b, rs))
  {
    hide Be32, Be16, Tiling, BestFree, TailAgrees, NoneAdjacent;
    forall other | Tiling(b, other, HEADER, DataEnd(b)) ensures other == rs {
      ParseIsTheTiling(b, other, HEADER, DataEnd(b));
      ParseIsTheTiling(b, rs, HEADER, DataEnd(b));
    }
  }

  /**
   * The checker finds no fault with a directory block (DirData.Walk.ProcessBlockDir) if and only if its entries have
   * names, its free space is joined and rightly listed, and its live leaf entries are, in some order, the hashes and
   * positions of the names that were written.
   */
  lemma SoundAsWritten(x: Block)
    requires x.Valid() && x.tail.Some?
    ensures |x.Bytes()| >= 24
    ensures var b, t := x.Bytes(), x.tail.value;
            Consistent(b) && multiset(LiveKeys(b)) == multiset(BlockKeys(b, 0)) <==>
            && Named(x.items) && Joined(x.items) && TableRight(x.slots, Places(x.items, 16))
            && multiset(H.Live(t.leaves)) == multiset(Keys(x.items, 16)) && |Keys(x.items, 16)| + t.stale == |t.leaves|
  {
    hide Block.Valid, Block.Bytes, Consistent, LiveKeys, BlockKeys, Named, Joined, TableRight, H.Live, Keys;
    ConsistentAsWritten(x);
    ListedAsWritten(x, 0);
    var live, keys := H.Live(x.tail.value.leaves), Keys(x.items, 16);
    if multiset(live) == multiset(keys) {
      assert |live| == |multiset(live)| == |multiset(keys)| == |keys|;
    }
  }

  /** With the hashes and positions of its names as its leaf entries, in any order, no leaf entry is stale. */
  lemma SoundWithoutStale(x: Block)
    requires x.Valid() && x.tail.Some? && multiset(x.tail.value.leaves) == multiset(Keys(x.items, 16))
    ensures |x.Bytes()| >= 24
    ensures var b, t := x.Bytes(), x.tail.value;
            Consistent(b) && multiset(LiveKeys(b)) == multiset(BlockKeys(b, 0)) <==>
            && Named(x.items) && Joined(x.items) && TableRight(x.slots, Places(x.items, 16)) && t.stale == 0
  {
    hide Block.Valid, Block.Bytes, Consistent, LiveKeys, BlockKeys, Named, Joined, TableRight, H.Live, Keys;
    SoundAsWritten(x);
    ValidParts(x);
    KeysInPlace(x.items, 16);
    var leaves, keys := x.tail.value.leaves, Keys(x.items, 16);
    forall k <- leaves ensures k.address != 0 {
      assert k in multiset(leaves);
      assert k in keys;
    }
    H.NoneStale(leaves);
    assert |leaves| == |multiset(leaves)| == |multiset(keys)| == |keys|;
  }

  lemma {:induction false} KeysInPlace(items: seq<Item>, start: nat)
    requires AllValid(items) && 16 <= start && start + Length(items) <= 65536
    ensures forall k <- Keys(items, start) :: k.address != 0
    decreases |items|
  {
    hide NameHash.HashName;
    if items != [] {
      SizeIs(items[0]);
      KeysInPlace(items[1..], start + items[0].Size());
    }
  }

  // --- directories in their inode ----------------------------------------------------------------

  /** These entries are those among items that start at a position, each at its own. */
  predicate SameEntries(items: seq<Item>, at: nat, entries: seq<SfEntry>)
    decreases |items|
  {
    if items == [] then entries == []
    else if items[0].Gap? then SameEntries(items[1..], at + items[0].Size(), entries)
    else
      && entries != [] && entries[0] == SfEntry(at, items[0].name, items[0].ino)
      && SameEntries(items[1..], at + items[0].Size(), entries[1..])
  }

  /**
   * A directory in its inode lists as the block does whose entries, behind "." and "..", lie where the directory's
   * entries say.
   */
  lemma ListedAsBlock(dir: SfDir, rest: seq<Item>)
    requires SameEntries(rest, 48, dir.entries)
    ensures SfAll(dir) == Dirents([Entry(dir.ino, [0x2e]), Entry(dir.parent, [0x2e, 0x2e])] + rest, 16)
  {
    var dot, dotdot := Entry(dir.ino, [0x2e]), Entry(dir.parent, [0x2e, 0x2e]);
    var items := [dot, dotdot] + rest;
    assert items[0] == dot && items[1..] == [dotdot] + rest && items[1..][0] == dotdot && items[1..][1..] == rest;
    assert dot.Size() == 16 && dotdot.Size() == 16;
    TailAsBlock(dir, 0, rest, 48);
    assert Dirents(items[1..], 32) == [Dirent([0x2e, 0x2e], dir.parent, 4)] + SfTail(dir, 0);
    assert Dirents(items, 16) == [Dirent([0x2e], dir.ino, 2)] + Dirents(items[1..], 32);
  }

  lemma {:induction false} TailAsBlock(dir: SfDir, i: nat, items: seq<Item>, at: nat)
    requires i <= |dir.entries| && SameEntries(items, at, dir.entries[i..])
    ensures SfTail(dir, i) == Dirents(items, at)
    decreases |items|
  {
    if items == [] {
    } else if items[0].Gap? {
      TailAsBlock(dir, i, items[1..], at + items[0].Size());
    } else {
      assert dir.entries[i..][1..] == dir.entries[i + 1..];
      TailAsBlock(dir, i + 1, items[1..], at + items[0].Size());
      assert SfTail(dir, i) == [SfDirent(dir.entries[i])] + SfTail(dir, i + 1);
    }
  }

  // --- whole directories --------------------------------------------------------------------------

  /** The blocks of a directory hold what was written into each. */
  ghost predicate Written(dir: M.Dir, written: map<nat, Block>) {
    && written.Keys == dir.blocks.Keys
    && forall d <- written :: written[d].Valid() && written[d].tail.None? && dir.blocks[d] == written[d].Bytes()
  }

  /** Behind the header of a directory block. */
  function FirstItem(d: nat, size: nat): nat { d * size + 16 }

  /** A directory of many blocks lists the entries of all of them, and nothing else, in the order of their cookies. */
  lemma DirectoryAsWritten(dir: M.Dir, written: map<nat, Block>, e: Dirent)
    requires LeafDir.ValidDir(dir) && Written(dir, written)
    ensures Ascending(LeafDir.All(dir))
    ensures e in LeafDir.All(dir) <==>
            exists d <- written :: e in Dirents(written[d].items, FirstItem(d, written[d].Size()))
  {
    hide LeafDir.All, LeafDir.ValidDir, Dirents, Block.Bytes, Block.Valid, Block.Size, LeafDir.BlockList;
    LeafDir.AllAscends(dir);
    LeafDir.ListedIff(dir, e);
    forall d <- written
      ensures d < dir.leafDb
      ensures LeafDir.BlockList(dir, d, HEADER) == Dirents(written[d].items, FirstItem(d, written[d].Size())) {
      BlockAsWritten(dir, written, d);
    }
  }

  lemma BlockAsWritten(dir: M.Dir, written: map<nat, Block>, d: nat)
    requires LeafDir.ValidDir(dir) && Written(dir, written) && d in written
    ensures d < dir.leafDb
    ensures LeafDir.BlockList(dir, d, HEADER) == Dirents(written[d].items, FirstItem(d, written[d].Size()))
  {
    hide Dirents, Block.Bytes, Block.Valid, Block.Size, M.Dir.Valid, WellTiled, Listing;
    var x, b := written[d], dir.blocks[d];
    assert LeafDir.ValidBlock(dir, d);
    Row(dir.leafDb, d, dir.Size());
    ListedAsWritten(x, d * dir.Size());
    DataBlockEnds(x);
  }

  lemma DataBlockEnds(x: Block)
    requires x.Valid() && x.tail.None?
    ensures |x.Bytes()| == x.Size() >= 24 && DataEnd(x.Bytes()) == x.Size()
  {
    hide Length, Block.Bytes, Be32;
    HeaderIsRead(x);
  }
}
