/** The block map lookup of xfs_db: a flat extent list, or a B+tree of extents, answers the same question. */
module Bmap {

  import opened Basics

  datatype Extent = Extent(startoff: nat, startblock: nat, blockcount: nat, flag: bool) {
    function End(): nat { startoff + blockcount }
  }

  const U64 := 0x1_0000_0000_0000_0000

  /** The record format has 54 bits for the file offset and 21 for the count; no record is empty. */
  ghost predicate ValidExtent(e: Extent) {
    e.startoff < 0x40_0000_0000_0000 && 0 < e.blockcount < 0x20_0000
  }

  /** Valid, in file order, not overlapping. */
  ghost predicate Ordered(recs: seq<Extent>) {
    && (forall i :: 0 <= i < |recs| ==> ValidExtent(recs[i]))
    && (forall i, j :: 0 <= i < j < |recs| ==> recs[i].End() <= recs[j].startoff)
  }

  // --- what a lookup means -----------------------------------------------------------------

  predicate Meets(e: Extent, off: nat, eoff: nat) { off < e.End() && e.startoff <= eoff }

  /** The part of e inside [off, eoff]. */
  function Clip(e: Extent, off: nat, eoff: nat): Extent
    requires Meets(e, off, eoff) && off <= eoff
  {
    var o := if e.startoff < off then off else e.startoff;
    var end := if e.End() > eoff + 1 then eoff + 1 else e.End();
    Extent(o, e.startblock + (o - e.startoff), end - o, e.flag)
  }

  /** All extents that meet [off, eoff], clipped to it, in file order. */
  function Clipped(recs: seq<Extent>, off: nat, eoff: nat): seq<Extent>
    requires off <= eoff
  {
    if recs == [] then []
    else (if Meets(recs[0], off, eoff) then [Clip(recs[0], off, eoff)] else []) + Clipped(recs[1..], off, eoff)
  }

  function Take<T>(s: seq<T>, n: nat): seq<T> { if n < |s| then s[..n] else s }

  /** Which block holds file offset x, if any extent does. */
  ghost predicate MapsTo(recs: seq<Extent>, x: nat, block: nat, flag: bool) {
    exists i :: 0 <= i < |recs| && recs[i].startoff <= x < recs[i].End()
                && block == recs[i].startblock + (x - recs[i].startoff) && flag == recs[i].flag
  }

  /** Clipping changes the mapping of no offset inside the range, and drops every offset outside it. */
  lemma {:induction false} ClippedMaps(recs: seq<Extent>, off: nat, eoff: nat, x: nat, block: nat, flag: bool)
    requires off <= eoff
    ensures MapsTo(Clipped(recs, off, eoff), x, block, flag) <==> off <= x <= eoff && MapsTo(recs, x, block, flag)
  {
    hide MapsTo;
    if recs == [] {
      MapsToNone(x, block, flag);
    } else {
      ClippedMaps(recs[1..], off, eoff, x, block, flag);
      var head := if Meets(recs[0], off, eoff) then [Clip(recs[0], off, eoff)] else [];
      MapsToAppend(head, Clipped(recs[1..], off, eoff), x, block, flag);
      MapsToAppend([recs[0]], recs[1..], x, block, flag);
      assert [recs[0]] + recs[1..] == recs;
      MapsToOne(recs[0], x, block, flag);
      if head != [] {
        MapsToOne(head[0], x, block, flag);
      } else {
        MapsToNone(x, block, flag);
      }
    }
  }

  lemma MapsToNone(x: nat, block: nat, flag: bool)
    ensures !MapsTo([], x, block, flag)
  {}

  lemma MapsToOne(e: Extent, x: nat, block: nat, flag: bool)
    ensures MapsTo([e], x, block, flag)
       <==> e.startoff <= x < e.End() && block == e.startblock + (x - e.startoff) && flag == e.flag
  {
    assert [e][0] == e;
  }

  lemma MapsToAppend(a: seq<Extent>, b: seq<Extent>, x: nat, block: nat, flag: bool)
    ensures MapsTo(a + b, x, block, flag) <==> MapsTo(a, x, block, flag) || MapsTo(b, x, block, flag)
  {
    assert forall i :: 0 <= i < |b| ==> (a + b)[|a| + i] == b[i];
    assert forall i :: 0 <= i < |a| ==> (a + b)[i] == a[i];
  }

  // --- one record at a time ----------------------------------------------------------------

  datatype Seen = Skip | Stop | Emit(ext: Extent)

  /** bmap_one_extent, in the order it makes its tests. */
  function Look(e: Extent, cur: nat, eoff: nat): Seen
    requires eoff + 1 >= cur
  {
    if e.End() <= cur then Skip
    else if e.startoff > eoff then Stop
    else
      var o := if e.startoff < cur then cur else e.startoff;
      var c := e.End() - o;
      Emit(Extent(o, e.startblock + (o - e.startoff), if o + c - 1 > eoff then c - (o + c - 1 - eoff) else c, e.flag))
  }

  /** The record loop of bmap: where it stops, and what it has written by then. */
  function Scan(recs: seq<Extent>, cur: nat, eoff: nat, nex: nat): seq<Extent>
    requires eoff + 1 >= cur
    decreases |recs|
  {
    if recs == [] || nex == 0 then []
    else match Look(recs[0], cur, eoff)
      case Skip => Scan(recs[1..], cur, eoff, nex)
      case Stop => []
      case Emit(x) => [x] + Scan(recs[1..], x.End(), eoff, nex - 1)
  }

  lemma LookClips(e: Extent, off: nat, cur: nat, eoff: nat)
    requires off <= cur <= eoff + 1 && off <= eoff && Meets(e, off, eoff) && ValidExtent(e)
    requires cur > off ==> e.startoff >= cur
    ensures Look(e, cur, eoff) == Emit(Clip(e, off, eoff))
    ensures off < Clip(e, off, eoff).End() <= eoff + 1 && Clip(e, off, eoff).End() <= e.End()
    ensures Clip(e, off, eoff).End() == eoff + 1 || Clip(e, off, eoff).End() == e.End()
  {}

  lemma TakeCons<T>(x: T, s: seq<T>, n: nat)
    requires n > 0
    ensures Take([x] + s, n) == [x] + Take(s, n - 1)
  {}

  lemma ClippedNothing(recs: seq<Extent>, off: nat, eoff: nat)
    requires off <= eoff && Ordered(recs) && (recs == [] || recs[0].startoff > eoff)
    ensures Clipped(recs, off, eoff) == []
    decreases |recs|
  {
    if recs != [] {
      assert |recs| > 1 ==> recs[0].End() <= recs[1].startoff;
      ClippedNothing(recs[1..], off, eoff);
    }
  }

  lemma OrderedTail(recs: seq<Extent>)
    requires Ordered(recs) && recs != []
    ensures Ordered(recs[1..]) && ValidExtent(recs[0])
    ensures |recs| > 1 ==> recs[0].End() <= recs[1].startoff
  {}

  /** The loop keeps the first nex of the extents that meet the range, whatever it has already passed. */
  lemma {:induction false} ScanFrom(recs: seq<Extent>, off: nat, cur: nat, eoff: nat, nex: nat)
    requires off <= cur <= eoff + 1 && off <= eoff && Ordered(recs)
    requires cur > off ==> recs == [] || recs[0].startoff >= cur
    ensures Scan(recs, cur, eoff, nex) == Take(Clipped(recs, off, eoff), nex)
    decreases |recs|
  {
    hide Ordered;
    if recs == [] {
      return;
    }
    OrderedTail(recs);
    if Meets(recs[0], off, eoff) {
      var x := Clip(recs[0], off, eoff);
      LookClips(recs[0], off, cur, eoff);
      hide Look, Clip;
      if nex > 0 {
        ScanFrom(recs[1..], off, x.End(), eoff, nex - 1);
        TakeCons(x, Clipped(recs[1..], off, eoff), nex);
      }
    } else if recs[0].startoff > eoff {
      ClippedNothing(recs, off, eoff);
    } else {
      ScanFrom(recs[1..], off, cur, eoff, nex);
    }
  }

  // --- the tree ----------------------------------------------------------------------------

  datatype Link = Null | At(bno: nat)

  /** A decoded block: key i of a node is the least file offset that can be found below pointer i. */
  datatype Block = Leaf(recs: seq<Extent>, rightsib: Link) | Node(keys: seq<nat>, ptrs: seq<nat>)

  type Disk = map<nat, Block>

  datatype Fork = Extents(recs: seq<Extent>) | Btree(keys: seq<nat>, ptrs: seq<nat>) | Other

  /** The leaves below bno from left to right. */
  ghost function Leaves(disk: Disk, bno: nat, height: nat): seq<nat>
    decreases height, 0
  {
    if height == 0 then [bno]
    else if bno in disk && disk[bno].Node? then LeavesOf(disk, disk[bno].ptrs, height - 1)
    else []
  }

  ghost function LeavesOf(disk: Disk, ptrs: seq<nat>, height: nat): seq<nat>
    decreases height, |ptrs| + 1
  {
    if ptrs == [] then [] else Leaves(disk, ptrs[0], height) + LeavesOf(disk, ptrs[1..], height)
  }

  ghost function RecordsAt(disk: Disk, bno: nat): seq<Extent> {
    if bno in disk && disk[bno].Leaf? then disk[bno].recs else []
  }

  ghost function Records(disk: Disk, leaves: seq<nat>): seq<Extent> {
    if leaves == [] then [] else RecordsAt(disk, leaves[0]) + Records(disk, leaves[1..])
  }

  ghost predicate AllEndBy(recs: seq<Extent>, off: nat) {
    forall i :: 0 <= i < |recs| ==> recs[i].End() <= off
  }

  /** Children of one height, and no extent left of child i reaches past key i. */
  ghost predicate Children(disk: Disk, keys: seq<nat>, ptrs: seq<nat>, height: nat)
    decreases height, 1
  {
    && |keys| == |ptrs| > 0
    && (forall i :: 0 <= i < |ptrs| ==> Tree(disk, ptrs[i], height))
    && (forall i :: 0 < i < |ptrs| ==> AllEndBy(Records(disk, LeavesOf(disk, ptrs[..i], height)), keys[i]))
  }

  ghost predicate Tree(disk: Disk, bno: nat, height: nat)
    decreases height, 0
  {
    && bno in disk
    && if height == 0 then disk[bno].Leaf?
       else disk[bno].Node? && Children(disk, disk[bno].keys, disk[bno].ptrs, height - 1)
  }

  /** Each leaf points to the next one. */
  ghost predicate Chained(disk: Disk, leaves: seq<nat>) {
    forall i :: 0 <= i < |leaves| ==>
      && leaves[i] in disk && disk[leaves[i]].Leaf?
      && disk[leaves[i]].rightsib == if i + 1 < |leaves| then At(leaves[i + 1]) else Null
  }

  /** The extents of a fork in file order; below a root, height is that of the root's children. */
  ghost function AllRecords(disk: Disk, fork: Fork, height: nat): seq<Extent> {
    match fork
    case Extents(recs) => recs
    case Btree(_, ptrs) => Records(disk, LeavesOf(disk, ptrs, height))
    case Other => []
  }

  ghost predicate WellFormed(disk: Disk, fork: Fork, height: nat) {
    && Ordered(AllRecords(disk, fork, height))
    && (fork.Btree? ==> Children(disk, fork.keys, fork.ptrs, height))
    && (fork.Btree? ==> Chained(disk, LeavesOf(disk, fork.ptrs, height)))
  }

  lemma {:induction false} LeavesOfAppend(disk: Disk, a: seq<nat>, b: seq<nat>, height: nat)
    ensures LeavesOf(disk, a + b, height) == LeavesOf(disk, a, height) + LeavesOf(disk, b, height)
    decreases |a|
  {
    if a == [] {
      assert a + b == b;
    } else {
      LeavesOfAppend(disk, a[1..], b, height);
      assert (a + b)[1..] == a[1..] + b;
      Associate(Leaves(disk, a[0], height), LeavesOf(disk, a[1..], height), LeavesOf(disk, b, height));
    }
  }

  lemma {:induction false} RecordsAppend(disk: Disk, a: seq<nat>, b: seq<nat>)
    ensures Records(disk, a + b) == Records(disk, a) + Records(disk, b)
    decreases |a|
  {
    if a == [] {
      assert a + b == b;
    } else {
      RecordsAppend(disk, a[1..], b);
      assert (a + b)[1..] == a[1..] + b;
      hide RecordsAt;
      Associate(RecordsAt(disk, a[0]), Records(disk, a[1..]), Records(disk, b));
    }
  }

  lemma LeavesSplit(disk: Disk, ptrs: seq<nat>, c: nat, height: nat)
    requires c < |ptrs|
    ensures LeavesOf(disk, ptrs, height)
         == LeavesOf(disk, ptrs[..c], height) + Leaves(disk, ptrs[c], height) + LeavesOf(disk, ptrs[c + 1..], height)
  {
    assert ptrs == ptrs[..c] + ptrs[c..];
    LeavesOfAppend(disk, ptrs[..c], ptrs[c..], height);
    assert ptrs[c..][1..] == ptrs[c + 1..];
  }

  /** Child c is the one of the last key at or before off, or the first child. */
  predicate Chosen(off: nat, keys: seq<nat>, ptrs: seq<nat>, c: nat, bno: nat) {
    && c < |keys| == |ptrs| && bno == ptrs[c]
    && (c == 0 || keys[c] <= off)
    && (c + 1 < |ptrs| && keys[c] < off ==> keys[c + 1] > off)
  }

  /** select_child */
  method SelectChild(off: nat, keys: seq<nat>, ptrs: seq<nat>) returns (bno: nat)
    requires |keys| == |ptrs| > 0
    ensures exists c: nat :: Chosen(off, keys, ptrs, c, bno)
  {
    for i := 0 to |ptrs|
      invariant forall j :: 0 <= j < i ==> keys[j] < off
    {
      if keys[i] == off {
        assert Chosen(off, keys, ptrs, i, ptrs[i]);
        return ptrs[i];
      }
      if keys[i] > off {
        if i == 0 {
          assert Chosen(off, keys, ptrs, i, ptrs[i]);
          return ptrs[i];
        } else {
          assert Chosen(off, keys, ptrs, i - 1, ptrs[i - 1]);
          return ptrs[i - 1];
        }
      }
    }
    assert Chosen(off, keys, ptrs, |ptrs| - 1, ptrs[|ptrs| - 1]);
    return ptrs[|ptrs| - 1];
  }

  /** One choice of child: what is left of the subtree ends by off. */
  lemma DescendOnce(disk: Disk, keys: seq<nat>, ptrs: seq<nat>, height: nat, c: nat, off: nat,
                    all: seq<nat>, before: seq<nat>, after: seq<nat>)
    requires Children(disk, keys, ptrs, height) && c < |ptrs| && (c == 0 || keys[c] <= off)
    requires all == before + LeavesOf(disk, ptrs, height) + after && AllEndBy(Records(disk, before), off)
    ensures var before' := before + LeavesOf(disk, ptrs[..c], height);
            && AllEndBy(Records(disk, before'), off)
            && all == before' + Leaves(disk, ptrs[c], height) + (LeavesOf(disk, ptrs[c + 1..], height) + after)
  {
    var left := LeavesOf(disk, ptrs[..c], height);
    assert AllEndBy(Records(disk, left), off);
    hide *;
    LeavesSplit(disk, ptrs, c, height);
    RecordsAppend(disk, before, left);
    EndByAppend(Records(disk, before), Records(disk, left), off);
    Regroup(before, left, Leaves(disk, ptrs[c], height), LeavesOf(disk, ptrs[c + 1..], height), after);
  }

  lemma Regroup<T>(a: seq<T>, b: seq<T>, c: seq<T>, d: seq<T>, e: seq<T>)
    ensures a + (b + c + d) + e == (a + b) + c + (d + e)
  {}

  lemma EndByAppend(a: seq<Extent>, b: seq<Extent>, off: nat)
    requires AllEndBy(a, off) && AllEndBy(b, off)
    ensures AllEndBy(a + b, off)
  {}

  lemma NodeChildren(disk: Disk, bno: nat, height: nat)
    requires Tree(disk, bno, height) && disk[bno].Node?
    ensures height > 0 && Children(disk, disk[bno].keys, disk[bno].ptrs, height - 1)
  {}

  lemma ChildrenShape(disk: Disk, keys: seq<nat>, ptrs: seq<nat>, height: nat)
    requires Children(disk, keys, ptrs, height)
    ensures |keys| == |ptrs| > 0 && forall c :: 0 <= c < |ptrs| ==> ptrs[c] in disk && Tree(disk, ptrs[c], height)
  {}

  /** all is what lies left of a subtree, the leaves of the subtree, and the rest. */
  ghost predicate Placed(disk: Disk, all: seq<nat>, before: seq<nat>, bno: nat, height: nat, after: seq<nat>,
                         off: nat) {
    && Tree(disk, bno, height)
    && all == before + Leaves(disk, bno, height) + after
    && AllEndBy(Records(disk, before), off)
  }

  lemma FirstChild(disk: Disk, keys: seq<nat>, ptrs: seq<nat>, height: nat)
    requires Children(disk, keys, ptrs, height)
    ensures |keys| == |ptrs| > 0 && forall c :: 0 <= c < |ptrs| ==> ptrs[c] in disk
  {}

  lemma PlacedFirst(disk: Disk, keys: seq<nat>, ptrs: seq<nat>, height: nat, c: nat, off: nat)
    requires Children(disk, keys, ptrs, height) && c < |ptrs| && (c == 0 || keys[c] <= off)
    ensures Placed(disk, LeavesOf(disk, ptrs, height), LeavesOf(disk, ptrs[..c], height), ptrs[c], height,
                   LeavesOf(disk, ptrs[c + 1..], height), off)
  {
    var all := LeavesOf(disk, ptrs, height);
    assert all == [] + all + [];
    DescendOnce(disk, keys, ptrs, height, c, off, all, [], []);
    hide LeavesOf;
    assert [] + LeavesOf(disk, ptrs[..c], height) == LeavesOf(disk, ptrs[..c], height);
    assert LeavesOf(disk, ptrs[c + 1..], height) + [] == LeavesOf(disk, ptrs[c + 1..], height);
  }

  lemma PlacedChild(disk: Disk, all: seq<nat>, before: seq<nat>, bno: nat, height: nat, after: seq<nat>, off: nat,
                    c: nat)
    requires Placed(disk, all, before, bno, height, after, off) && disk[bno].Node?
    requires c < |disk[bno].ptrs| && |disk[bno].keys| == |disk[bno].ptrs| && (c == 0 || disk[bno].keys[c] <= off)
    ensures height > 0
    ensures var ptrs := disk[bno].ptrs;
            Placed(disk, all, before + LeavesOf(disk, ptrs[..c], height - 1), ptrs[c], height - 1,
                   LeavesOf(disk, ptrs[c + 1..], height - 1) + after, off)
  {
    NodeChildren(disk, bno, height);
    ChildrenShape(disk, disk[bno].keys, disk[bno].ptrs, height - 1);
    DescendOnce(disk, disk[bno].keys, disk[bno].ptrs, height - 1, c, off, all, before, after);
  }

  lemma PlacedShape(disk: Disk, all: seq<nat>, before: seq<nat>, bno: nat, height: nat, after: seq<nat>, off: nat)
    requires Placed(disk, all, before, bno, height, after, off)
    ensures disk[bno].Node? ==> |disk[bno].keys| == |disk[bno].ptrs| > 0
    ensures disk[bno].Node? ==> forall c :: 0 <= c < |disk[bno].ptrs| ==> disk[bno].ptrs[c] in disk
    ensures disk[bno].Leaf? ==> |before| < |all| && all[|before|] == bno
    ensures disk[bno].Leaf? ==> AllEndBy(Records(disk, all[..|before|]), off)
  {
    if disk[bno].Leaf? {
      assert height == 0;
      assert all[|before|] == bno && all[..|before|] == before;
    } else {
      NodeChildren(disk, bno, height);
      ChildrenShape(disk, disk[bno].keys, disk[bno].ptrs, height - 1);
    }
  }

  /** The k-th leaf, with nothing of interest to its left. */
  ghost predicate Reached(disk: Disk, all: seq<nat>, off: nat, k: nat, bno: nat) {
    k < |all| && bno == all[k] && AllEndBy(Records(disk, all[..k]), off)
  }

  /** The descent ends in a leaf with nothing of interest to its left. */
  method FindLeaf(disk: Disk, fork: Fork, off: nat, ghost height: nat) returns (bno: nat)
    requires fork.Btree? && Children(disk, fork.keys, fork.ptrs, height)
    ensures exists k: nat :: Reached(disk, LeavesOf(disk, fork.ptrs, height), off, k, bno)
  {
    hide Placed, LeavesOf, Records, AllEndBy, Leaves, Children;
    ghost var all := LeavesOf(disk, fork.ptrs, height);
    FirstChild(disk, fork.keys, fork.ptrs, height);
    bno := SelectChild(off, fork.keys, fork.ptrs);
    ghost var c: nat :| Chosen(off, fork.keys, fork.ptrs, c, bno);
    PlacedFirst(disk, fork.keys, fork.ptrs, height, c, off);
    ghost var h := height;
    ghost var before, after := LeavesOf(disk, fork.ptrs[..c], height), LeavesOf(disk, fork.ptrs[c + 1..], height);
    while disk[bno].Node?
      invariant bno in disk && Placed(disk, all, before, bno, h, after, off)
      decreases h
    {
      var block := disk[bno];
      PlacedShape(disk, all, before, bno, h, after, off);
      ghost var node := bno;
      bno := SelectChild(off, block.keys, block.ptrs);
      c :| Chosen(off, block.keys, block.ptrs, c, bno);
      PlacedChild(disk, all, before, node, h, after, off, c);
      h := h - 1;
      before := before + LeavesOf(disk, block.ptrs[..c], h);
      after := LeavesOf(disk, block.ptrs[c + 1..], h) + after;
    }
    PlacedShape(disk, all, before, bno, h, after, off);
    assert Reached(disk, all, off, |before|, bno);
  }

  // --- bmap --------------------------------------------------------------------------------

  /** offset + len - 1 in 64 bits: zero blocks from offset zero mean the whole file. */
  function EndOf(offset: nat, len: nat): (r: nat)
    ensures offset + len <= U64 ==> r == if offset + len == 0 then U64 - 1 else offset + len - 1
  {
    (offset + len - 1) % 0x1_0000_0000_0000_0000
  }

  /** eo - co + 1 in 64 bits. */
  function LengthTo(co: nat, eo: nat): (r: nat)
    ensures co <= eo + 1 && eo < U64 ==> r == if eo - co + 1 == U64 then 0 else eo - co + 1
  {
    (eo - co + 1) % 0x1_0000_0000_0000_0000
  }

  /** The loop over one record list, writing behind the n extents found so far; rest is what follows it. */
  method ScanInto(recs: seq<Extent>, cur: nat, eoff: nat, bep: array<Extent>, n: nat, nex: nat, ghost rest: seq<Extent>)
    returns (cur': nat, n': nat, stopped: bool)
    requires n <= nex <= bep.Length && eoff + 1 >= cur
    modifies bep
    ensures n <= n' <= nex && eoff + 1 >= cur'
    ensures bep[..n'] + (if stopped then [] else Scan(rest, cur', eoff, nex - n'))
         == old(bep[..n]) + Scan(recs + rest, cur, eoff, nex - n)
    ensures forall j :: nex <= j < bep.Length ==> bep[j] == old(bep[j])
  {
    hide *;
    ghost var goal := bep[..n] + Scan(recs + rest, cur, eoff, nex - n);
    var i := 0;
    cur', n', stopped := cur, n, false;
    assert recs[0..] == recs;
    while i < |recs| && n' < nex
      invariant 0 <= i <= |recs| && n <= n' <= nex && eoff + 1 >= cur'
      invariant bep[..n'] + Scan(recs[i..] + rest, cur', eoff, nex - n') == goal
      invariant forall j :: nex <= j < bep.Length ==> bep[j] == old(bep[j])
      decreases |recs| - i
    {
      ghost var got := bep[..n'];
      OneMore(got, recs[i..], rest, cur', eoff, nex - n', goal);
      match Look(recs[i], cur', eoff) {
        case Skip =>
        case Stop =>
          stopped := true;
          assert got + [] == got;
          return;
        case Emit(x) =>
          bep[n'] := x;
          n', cur' := n' + 1, x.End();
          assert bep[..n'] == got + [x];
      }
      i := i + 1;
    }
    if i == |recs| {
      assert recs[i..] + rest == rest;
    } else {
      ScanNone(recs[i..] + rest, cur', eoff);
      ScanNone(rest, cur', eoff);
    }
  }

  /** One record is looked at: what has been found and what is still to be found remain the answer. */
  lemma OneMore(got: seq<Extent>, recs: seq<Extent>, rest: seq<Extent>, cur: nat, eoff: nat, nex: nat,
                goal: seq<Extent>)
    requires recs != [] && nex > 0 && eoff + 1 >= cur && got + Scan(recs + rest, cur, eoff, nex) == goal
    ensures match Look(recs[0], cur, eoff)
            case Skip => got + Scan(recs[1..] + rest, cur, eoff, nex) == goal
            case Stop => got == goal
            case Emit(x) => x.End() <= eoff + 1 && got + [x] + Scan(recs[1..] + rest, x.End(), eoff, nex - 1) == goal
  {
    hide *;
    ScanStep(recs[0], recs[1..] + rest, cur, eoff, nex);
    assert recs + rest == [recs[0]] + (recs[1..] + rest);
    match Look(recs[0], cur, eoff) {
      case Skip =>
      case Stop => assert got + [] == got;
      case Emit(x) => Associate(got, [x], Scan(recs[1..] + rest, x.End(), eoff, nex - 1));
    }
  }

  lemma ScanStep(e: Extent, more: seq<Extent>, cur: nat, eoff: nat, nex: nat)
    requires eoff + 1 >= cur && nex > 0
    ensures match Look(e, cur, eoff)
            case Skip => Scan([e] + more, cur, eoff, nex) == Scan(more, cur, eoff, nex)
            case Stop => Scan([e] + more, cur, eoff, nex) == []
            case Emit(x) =>
              eoff + 1 >= x.End() && Scan([e] + more, cur, eoff, nex) == [x] + Scan(more, x.End(), eoff, nex - 1)
  {
    assert ([e] + more)[1..] == more;
  }

  lemma ScanEmpty(cur: nat, eoff: nat, nex: nat)
    requires eoff + 1 >= cur
    ensures Scan([], cur, eoff, nex) == []
  {}

  lemma ScanNone(recs: seq<Extent>, cur: nat, eoff: nat)
    requires eoff + 1 >= cur
    ensures Scan(recs, cur, eoff, 0) == []
  {}

  /** Records that end by cur make no difference. */
  lemma {:induction false} ScanSkips(a: seq<Extent>, b: seq<Extent>, cur: nat, eoff: nat, nex: nat)
    requires eoff + 1 >= cur && AllEndBy(a, cur)
    ensures Scan(a + b, cur, eoff, nex) == Scan(b, cur, eoff, nex)
    decreases |a|
  {
    if a == [] {
      assert a + b == b;
    } else if nex > 0 {
      ScanSkips(a[1..], b, cur, eoff, nex);
      assert (a + b)[1..] == a[1..] + b;
    }
  }

  /** The walk along the right siblings, from leaf k of all. */
  method Walk(disk: Disk, ghost all: seq<nat>, first: nat, ghost k0: nat, offset: nat, eoff: nat, bep: array<Extent>,
              nex: nat)
    returns (n: nat)
    requires Chained(disk, all) && k0 < |all| && first == all[k0]
    requires nex <= bep.Length && eoff + 1 >= offset
    modifies bep
    ensures n <= nex && bep[..n] == Scan(Records(disk, all[k0..]), offset, eoff, nex)
    ensures forall j :: nex <= j < bep.Length ==> bep[j] == old(bep[j])
  {
    hide *;
    ghost var got: seq<Extent>, left := [], Records(disk, all[k0..]);
    ghost var goal := Scan(left, offset, eoff, nex);
    ghost var k := k0;
    var bno, cur, more := first, offset, true;
    n := 0;
    assert got + goal == goal;
    while more
      invariant n <= nex && eoff + 1 >= cur && forall j :: nex <= j < bep.Length ==> bep[j] == old(bep[j])
      invariant bep[..n] == got
      invariant more ==> k < |all| && bno == all[k] && left == Records(disk, all[k..])
      invariant more ==> got + Scan(left, cur, eoff, nex - n) == goal
      invariant !more ==> got == goal
      decreases |all| - k, more
    {
      RecordsStep(disk, all, k);
      var block := disk[bno];
      left := Records(disk, all[k + 1..]);
      var stopped;
      cur, n, stopped := ScanInto(block.recs, cur, eoff, bep, n, nex, left);
      got := bep[..n];
      if stopped {
        assert got + [] == got;
        more := false;
      } else if block.rightsib == Null {
        RecordsEnd(disk, all, cur, eoff, nex - n);
        assert got + [] == got;
        more := false;
      } else {
        bno, k := block.rightsib.bno, k + 1;
      }
    }
  }

  lemma RecordsStep(disk: Disk, all: seq<nat>, k: nat)
    requires Chained(disk, all) && k < |all|
    ensures all[k] in disk && disk[all[k]].Leaf?
    ensures disk[all[k]].rightsib == if k + 1 < |all| then At(all[k + 1]) else Null
    ensures Records(disk, all[k..]) == disk[all[k]].recs + Records(disk, all[k + 1..])
  {
    assert all[k..][1..] == all[k + 1..];
  }

  lemma RecordsEnd(disk: Disk, all: seq<nat>, cur: nat, eoff: nat, nex: nat)
    requires eoff + 1 >= cur
    ensures Scan(Records(disk, all[|all|..]), cur, eoff, nex) == []
  {}

  /**
   * bmap: fills bep with up to nex extents. A tree gives the answer that the flat list of all its
   * extents gives; with at least one block asked for, BmapAnswer says what that answer is.
   */
  method Bmap(disk: Disk, fork: Fork, offset: nat, len: nat, nex: nat, bep: array<Extent>, ghost height: nat)
    returns (n: nat)
    requires WellFormed(disk, fork, height) && 0 < nex <= bep.Length && offset + len <= U64
    modifies bep
    ensures n <= nex
    ensures bep[..n] == Scan(AllRecords(disk, fork, height), offset, EndOf(offset, len), nex)
    ensures forall j :: nex <= j < bep.Length ==> bep[j] == old(bep[j])
  {
    var eoff := EndOf(offset, len);
    n := 0;
    hide EndOf, Scan, Children, Chained, Ordered, Records, LeavesOf, AllEndBy;
    match fork
    case Extents(recs) =>
      var cur, stopped;
      cur, n, stopped := ScanInto(recs, offset, eoff, bep, 0, nex, []);
      assert recs + [] == recs;
      ScanEmpty(cur, eoff, nex - n);
      assert bep[..n] + [] == bep[..n];
      assert AllRecords(disk, fork, height) == recs;
    case Btree(keys, ptrs) =>
      ghost var all := LeavesOf(disk, ptrs, height);
      var bno := FindLeaf(disk, fork, offset, height);
      ghost var k: nat :| Reached(disk, all, offset, k, bno);
      n := Walk(disk, all, bno, k, offset, eoff, bep, nex);
      assert all[..k] + all[k..] == all;
      RecordsAppend(disk, all[..k], all[k..]);
      ScanSkips(Records(disk, all[..k]), Records(disk, all[k..]), offset, eoff, nex);
    case Other =>
      ScanEmpty(offset, eoff, nex);
  }

  /** What bmap answers when some block is asked for: the first nex extents that meet the range, clipped. */
  lemma BmapAnswer(disk: Disk, fork: Fork, offset: nat, len: nat, nex: nat, height: nat)
    requires WellFormed(disk, fork, height) && 0 < len && offset + len <= U64
    ensures Scan(AllRecords(disk, fork, height), offset, EndOf(offset, len), nex)
         == Take(Clipped(AllRecords(disk, fork, height), offset, offset + len - 1), nex)
  {
    hide EndOf, AllRecords, Ordered;
    ScanFrom(AllRecords(disk, fork, height), offset, offset, offset + len - 1, nex);
  }

  // --- the bmap command --------------------------------------------------------------------

  /** Some extent goes on past eo. */
  ghost predicate Crosses(recs: seq<Extent>, eo: nat) {
    exists i :: 0 <= i < |recs| && recs[i].startoff <= eo && recs[i].End() > eo + 1
  }

  /** The command's next position: it asks for one extent of what is left, and goes on behind it. */
  function NextCo(recs: seq<Extent>, co: nat, eo: nat): (r: Link)
    requires co <= eo + 1
    ensures r.At? ==> r.bno <= eo + 1
  {
    var got := Scan(recs, co, eo, 1);
    if got == [] then Null else ScanInRange(recs, co, eo, 1); At(got[0].End())
  }

  lemma {:induction false} ScanInRange(recs: seq<Extent>, cur: nat, eoff: nat, nex: nat)
    requires eoff + 1 >= cur
    ensures var s := Scan(recs, cur, eoff, nex); s != [] ==> cur <= s[0].startoff && s[0].End() <= eoff + 1
    ensures var s := Scan(recs, cur, eoff, nex); s != [] && cur <= eoff ==> cur < s[0].End()
    decreases |recs|
  {
    if recs != [] && nex > 0 && Look(recs[0], cur, eoff).Skip? {
      ScanInRange(recs[1..], cur, eoff, nex);
    }
  }

  /** Asked from eo + 1 on, bmap reports an empty extent exactly if an extent crosses eo. */
  lemma {:induction false} ScanPastEnd(recs: seq<Extent>, co: nat, eo: nat)
    requires Ordered(recs) && co <= eo + 1
    ensures Crosses(recs, eo) ==> Scan(recs, co, eo, 1) != []
    ensures co == eo + 1 && !Crosses(recs, eo) ==> Scan(recs, co, eo, 1) == []
    decreases |recs|
  {
    if recs != [] {
      OrderedTail(recs);
      ScanPastEnd(recs[1..], co, eo);
      if Crosses(recs, eo) {
        var i :| 0 <= i < |recs| && recs[i].startoff <= eo && recs[i].End() > eo + 1;
        if i > 0 {
          assert recs[1..][i - 1] == recs[i];
          assert recs[0].End() <= recs[i].startoff;
        }
      } else {
        assert recs[0] == recs[0] && !(recs[0].startoff <= eo && recs[0].End() > eo + 1);
        assert forall i :: 0 <= i < |recs[1..]| ==> recs[1..][i] == recs[i + 1];
      }
    }
  }

  /** Where the command is after k turns, unless it has stopped. */
  function After(recs: seq<Extent>, co: nat, eo: nat, k: nat): Link
    requires co <= eo + 1
    decreases k
  {
    if k == 0 then At(co)
    else match NextCo(recs, co, eo)
      case Null => Null
      case At(next) => After(recs, next, eo, k - 1)
  }

  lemma {:induction false} CrossingNeverStops(recs: seq<Extent>, co: nat, eo: nat, k: nat)
    requires Ordered(recs) && co <= eo + 1 && Crosses(recs, eo)
    ensures After(recs, co, eo, k).At?
    decreases k
  {
    if k > 0 {
      ScanPastEnd(recs, co, eo);
      CrossingNeverStops(recs, NextCo(recs, co, eo).bno, eo, k - 1);
    }
  }

  lemma {:induction false} NoCrossingStops(recs: seq<Extent>, co: nat, eo: nat) returns (k: nat)
    requires Ordered(recs) && co <= eo + 1 && !Crosses(recs, eo)
    ensures After(recs, co, eo, k) == Null
    decreases eo + 1 - co
  {
    match NextCo(recs, co, eo)
    case Null =>
      k := 1;
    case At(next) =>
      ScanPastEnd(recs, co, eo);
      ScanInRange(recs, co, eo, 1);
      k := NoCrossingStops(recs, next, eo);
      k := k + 1;
  }

  /** The command stops if and only if no extent goes on past the last block it was asked about. */
  lemma CommandStopsIff(recs: seq<Extent>, co: nat, eo: nat)
    requires Ordered(recs) && co <= eo + 1
    ensures (exists k :: After(recs, co, eo, k) == Null) <==> !Crosses(recs, eo)
  {
    if Crosses(recs, eo) {
      forall k: nat
        ensures After(recs, co, eo, k) != Null
      {
        CrossingNeverStops(recs, co, eo, k);
      }
    } else {
      var k := NoCrossingStops(recs, co, eo);
      assert After(recs, co, eo, k) == Null;
    }
  }

  /** One block in the middle of an extent is enough to keep the command from stopping. */
  lemma CommandLoopsOnOneBlock()
    ensures forall k :: After([Extent(0, 8, 100, false)], 5, 5, k) != Null
  {
    var recs := [Extent(0, 8, 100, false)];
    assert recs[0].startoff <= 5 && recs[0].End() > 6;
    CommandStopsIff(recs, 5, 5);
  }

  /** What is still to be reported. */
  ghost function Remaining(recs: seq<Extent>, at: nat, eo: nat): seq<Extent> {
    if at <= eo then Clipped(recs, at, eo) else []
  }

  /** Behind the first extent reported lie exactly the others. */
  lemma {:induction false} ClippedAdvance(recs: seq<Extent>, off: nat, eoff: nat)
    requires off <= eoff && Ordered(recs) && Clipped(recs, off, eoff) != []
    ensures var s := Clipped(recs, off, eoff);
            && off < s[0].End() <= eoff + 1
            && s[1..] == Remaining(recs, s[0].End(), eoff)
    decreases |recs|
  {
    OrderedTail(recs);
    if Meets(recs[0], off, eoff) {
      var x := Clip(recs[0], off, eoff);
      assert Clipped(recs, off, eoff)[1..] == Clipped(recs[1..], off, eoff);
      if x.End() <= eoff {
        assert !Meets(recs[0], x.End(), eoff);
        ClippedFrom(recs[1..], off, x.End(), eoff);
      } else {
        ClippedNothing(recs[1..], off, eoff);
      }
    } else {
      ClippedAdvance(recs[1..], off, eoff);
      if recs[0].startoff > eoff {
        ClippedNothing(recs, off, eoff);
      }
    }
  }

  lemma {:induction false} ClippedFrom(recs: seq<Extent>, off: nat, off': nat, eoff: nat)
    requires off <= off' <= eoff && Ordered(recs) && (recs == [] || off' <= recs[0].startoff)
    ensures Clipped(recs, off, eoff) == Clipped(recs, off', eoff)
    decreases |recs|
  {
    if recs != [] {
      OrderedTail(recs);
      ClipFrom(recs[0], off, off', eoff);
      hide Ordered, Meets, Clip;
      ClippedFrom(recs[1..], off, off', eoff);
    }
  }

  lemma ClipFrom(e: Extent, off: nat, off': nat, eoff: nat)
    requires off <= off' <= eoff && off' <= e.startoff && ValidExtent(e)
    ensures Meets(e, off, eoff) <==> Meets(e, off', eoff)
    ensures Meets(e, off, eoff) ==> Clip(e, off, eoff) == Clip(e, off', eoff)
  {}

  /** The command's loop: every extent of the range once, in file order. */
  method BmapCommand(disk: Disk, fork: Fork, co: nat, eo: nat, ghost height: nat) returns (out: seq<Extent>)
    requires WellFormed(disk, fork, height) && co <= eo < U64
    requires !Crosses(AllRecords(disk, fork, height), eo)
    ensures out == Clipped(AllRecords(disk, fork, height), co, eo)
  {
    hide Meets, Clip, Look, Remaining, EndOf, LengthTo, Scan, Clipped, Ordered, WellFormed, AllRecords, Crosses;
    hide ValidExtent, Children, LeavesOf, Records;
    OrderedRecords(disk, fork, height);
    ghost var recs := AllRecords(disk, fork, height);
    var at := co;
    out := [];
    var bep := new Extent[1](_ => Extent(0, 0, 0, false));
    ghost var goal := Clipped(recs, co, eo);
    RemainingStart(recs, co, eo);
    while true
      invariant co <= at <= eo + 1 && at <= U64
      invariant out + Remaining(recs, at, eo) == goal
      decreases eo + 1 - at
    {
      var len := LengthTo(at, eo);
      var n := Bmap(disk, fork, at, len, 1, bep, height);
      CommandTurn(recs, at, eo, len);
      ghost var got := bep[..n];
      if n == 0 {
        assert out + [] == out;
        return;
      }
      assert got == [bep[0]];
      Associate(out, [bep[0]], Remaining(recs, bep[0].End(), eo));
      out := out + [bep[0]];
      at := bep[0].startoff + bep[0].blockcount;
    }
  }

  lemma OrderedRecords(disk: Disk, fork: Fork, height: nat)
    requires WellFormed(disk, fork, height)
    ensures Ordered(AllRecords(disk, fork, height))
  {}

  lemma RemainingStart(recs: seq<Extent>, co: nat, eo: nat)
    requires co <= eo
    ensures [] + Remaining(recs, co, eo) == Clipped(recs, co, eo)
  {}

  lemma CommandTurn(recs: seq<Extent>, at: nat, eo: nat, len: nat)
    requires Ordered(recs) && !Crosses(recs, eo) && at <= eo + 1 && eo < U64 && len == LengthTo(at, eo)
    ensures var got := Scan(recs, at, EndOf(at, len), 1);
            var left := Remaining(recs, at, eo);
            if got == [] then left == []
            else at < got[0].End() <= eo + 1 && |got| == 1 && left == got + Remaining(recs, got[0].End(), eo)
  {
    hide EndOf, LengthTo, Ordered, Crosses;
    assert EndOf(at, len) == eo;
    if at <= eo {
      ScanFrom(recs, at, at, eo, 1);
      var left := Clipped(recs, at, eo);
      if left != [] {
        ClippedAdvance(recs, at, eo);
        assert left == [left[0]] + left[1..];
      }
    } else {
      ScanPastEnd(recs, at, eo);
    }
  }
}
