/** The scan of blockget over free space, with its block map and its counters. */
module BlockGet {

  import opened Basics
  import opened ClaimLog

  datatype Kind = Bno | Cnt

  datatype Magic = Abtb | Abtc | OtherMagic

  datatype AllocRec = AllocRec(startblock: nat, blockcount: nat)

  /** A free-space tree block: recs and ptrs are as long as the block has room for. */
  datatype AllocBlock = AllocBlock(magic: Magic, level: nat, numrecs: nat, recs: seq<AllocRec>, ptrs: seq<nat>)

  datatype Limits = Limits(mxr0: nat, mnr0: nat, mxr1: nat, mnr1: nat)

  /** The readable tree blocks, by AG and block number. */
  type Disk = map<(nat, nat), AllocBlock>

  ghost predicate Fits(disk: Disk, lim: Limits) {
    forall k :: k in disk ==> BlockFits(disk[k], lim)
  }

  /** Block numbers and record ends have 32 bits. */
  ghost predicate BlockFits(b: AllocBlock, lim: Limits) {
    && |b.recs| == lim.mxr0 && |b.ptrs| == lim.mxr1
    && (forall i :: 0 <= i < |b.recs| ==> b.recs[i].startblock + b.recs[i].blockcount <= U32)
    && (forall i :: 0 <= i < |b.ptrs| ==> b.ptrs[i] < U32)
  }

  // --- the claims an error-free scan makes -------------------------------------------------

  function TreeTag(kind: Kind): Tag { if kind == Bno then BtBno else BtCnt }

  function TreeMagic(kind: Kind): Magic { if kind == Bno then Abtb else Abtc }

  /** A record of the bno tree finds its blocks unknown, one of the cnt tree finds them in the bno tree. */
  function RecOp(kind: Kind, seqno: nat, r: AllocRec): Op {
    if kind == Bno then Op(seqno, r.startblock, r.blockcount, Unknown, Free1)
    else Op(seqno, r.startblock, r.blockcount, Free1, Free2)
  }

  function LeafOps(kind: Kind, seqno: nat, recs: seq<AllocRec>): seq<Op> {
    if recs == [] then [] else LeafOps(kind, seqno, recs[..|recs| - 1]) + [RecOp(kind, seqno, recs[|recs| - 1])]
  }

  /** One claim for each tree block, and one for each record, depth first. */
  ghost function TreeOps(disk: Disk, kind: Kind, seqno: nat, root: nat, nlevels: nat): seq<Op>
    decreases nlevels, 0
  {
    if nlevels == 0 || (seqno, root) !in disk then []
    else
      var b := disk[(seqno, root)];
      [Op(seqno, root, 1, Unknown, TreeTag(kind))]
      + if nlevels == 1 then LeafOps(kind, seqno, if b.numrecs <= |b.recs| then b.recs[..b.numrecs] else [])
        else ChildOps(disk, kind, seqno, if b.numrecs <= |b.ptrs| then b.ptrs[..b.numrecs] else [], nlevels - 1)
  }

  ghost function ChildOps(disk: Disk, kind: Kind, seqno: nat, ptrs: seq<nat>, nlevels: nat): seq<Op>
    decreases nlevels, |ptrs| + 1
  {
    if ptrs == [] then []
    else
      ChildOps(disk, kind, seqno, ptrs[..|ptrs| - 1], nlevels) +
      TreeOps(disk, kind, seqno, ptrs[|ptrs| - 1], nlevels)
  }

  /** How many slots of a circular list of n slots there are from first to last. */
  function SlotCount(first: nat, last: nat, n: nat): nat
    requires first < n && last < n
  {
    if first <= last then last - first + 1 else last + n - first + 1
  }

  /** The slot k places behind first. */
  function Slot(first: nat, k: nat, n: nat): nat { if first + k < n then first + k else first + k - n }

  /** The blocks in the slots from i to last, going round the end. */
  function SlotsFrom(agfl: seq<nat>, i: nat, last: nat): (r: seq<nat>)
    requires i < |agfl| && last < |agfl|
    ensures |r| > 0
    decreases if i <= last then last - i else last + |agfl| - i
  {
    [agfl[i]] + if i == last then [] else SlotsFrom(agfl, if i + 1 == |agfl| then 0 else i + 1, last)
  }

  /** The walk sees SlotCount slots, one after the other. */
  lemma {:induction false} SlotsFromAre(agfl: seq<nat>, i: nat, last: nat)
    requires i < |agfl| && last < |agfl|
    ensures |SlotsFrom(agfl, i, last)| == SlotCount(i, last, |agfl|)
    ensures forall k :: 0 <= k < SlotCount(i, last, |agfl|) ==>
              Slot(i, k, |agfl|) < |agfl| && SlotsFrom(agfl, i, last)[k] == agfl[Slot(i, k, |agfl|)]
    decreases if i <= last then last - i else last + |agfl| - i
  {
    if i != last {
      SlotsFromAre(agfl, if i + 1 == |agfl| then 0 else i + 1, last);
    }
  }

  /** The slot after slot i, as the program moves on: only the slot that reaches n goes back to the start. */
  function NextSlot(i: nat, n: nat): nat { if i + 1 == n then 0 else i + 1 }

  /** The slot the walk is at after k turns, if it has not stopped. */
  function SlotAfter(first: nat, k: nat, n: nat): nat {
    if k == 0 then first else NextSlot(SlotAfter(first, k - 1, n), n)
  }

  lemma {:induction false} SlotAfterInside(first: nat, k: nat, n: nat)
    requires first < n
    ensures SlotAfter(first, k, n) < n
    ensures k < n ==> SlotAfter(first, k, n) == Slot(first, k, n)
  {
    if k > 0 { SlotAfterInside(first, k - 1, n); }
  }

  lemma {:induction false} SlotAfterOutside(first: nat, k: nat, n: nat)
    requires first >= n
    ensures SlotAfter(first, k, n) == first + k
  {
    if k > 0 { SlotAfterOutside(first, k - 1, n); }
  }

  /**
   * The walk comes to its last slot if and only if first and last are both slots of the list; or, with a
   * first slot behind the list, if the last is not before it.
   */
  lemma WalkStopsIff(first: nat, last: nat, n: nat)
    ensures (exists k: nat :: SlotAfter(first, k, n) == last) <==> if first < n then last < n else last >= first
  {
    if first < n {
      if last < n {
        var k := SlotCount(first, last, n) - 1;
        SlotAfterInside(first, k, n);
        assert SlotAfter(first, k, n) == last;
      }
      if k: nat :| SlotAfter(first, k, n) == last { SlotAfterInside(first, k, n); }
    } else {
      if last >= first { SlotAfterOutside(first, last - first, n); }
      if k: nat :| SlotAfter(first, k, n) == last { SlotAfterOutside(first, k, n); }
    }
  }

  /** The walk reads behind the list if and only if it starts there, and then at once. */
  lemma WalkStaysInsideIff(first: nat, n: nat)
    ensures (forall k: nat :: SlotAfter(first, k, n) < n) <==> first < n
  {
    if first < n {
      forall k: nat ensures SlotAfter(first, k, n) < n {
        SlotAfterInside(first, k, n);
      }
    } else {
      assert SlotAfter(first, 0, n) == first;
    }
  }

  function FreeListOps(seqno: nat, blocks: seq<nat>): seq<Op> {
    if blocks == [] then [] else [Op(seqno, blocks[0], 1, Unknown, FreeList)] + FreeListOps(seqno, blocks[1..])
  }

  lemma FreeListStep(seqno: nat, agfl: seq<nat>, i: nat, last: nat)
    requires i < |agfl| && last < |agfl|
    ensures FreeListOps(seqno, SlotsFrom(agfl, i, last))
         == [Op(seqno, agfl[i], 1, Unknown, FreeList)]
            + if i == last then [] else FreeListOps(seqno, SlotsFrom(agfl, if i + 1 == |agfl| then 0 else i + 1, last))
    ensures |SlotsFrom(agfl, i, last)|
         == 1 + if i == last then 0 else |SlotsFrom(agfl, if i + 1 == |agfl| then 0 else i + 1, last)|
  {
    assert SlotsFrom(agfl, i, last)[1..]
        == if i == last then [] else SlotsFrom(agfl, if i + 1 == |agfl| then 0 else i + 1, last);
  }

  // --- the counters ------------------------------------------------------------------------

  /** fdblocks counts the whole scan, the others one AG; agfbtreeblks starts at -2 for the two roots. */
  datatype Counters = Counters(fdblocks: int, agffreeblks: nat, agflongest: nat, agfbtreeblks: int)

  predicate IsTree(t: Tag) { t == BtBno || t == BtCnt }

  function Bump(c: Counters, op: Op): Counters {
    Counters(c.fdblocks + (if Counted(op.to) then op.len else 0),
             c.agffreeblks + (if op.to == Free2 then op.len else 0),
             if op.to == Free2 then Max(c.agflongest, op.len) else c.agflongest,
             c.agfbtreeblks + (if IsTree(op.to) then 1 else 0))
  }

  lemma BumpFree(c: Counters, op: Op)
    ensures Bump(c, op).fdblocks == c.fdblocks + if Counted(op.to) then op.len else 0
  {}

  /** What the claims of earlier AGs and of this one should have done to the counters. */
  function Tally(before: seq<Op>, ops: seq<Op>): Counters {
    if ops == [] then Counters(FdSum(before), 0, 0, -2)
    else Bump(Tally(before, ops[..|ops| - 1]), ops[|ops| - 1])
  }

  lemma {:induction false} TallyStart(before: seq<Op>, ops: seq<Op>)
    ensures Tally(before, ops).fdblocks == FdSum(before + ops) == Tally(before + ops, []).fdblocks
    decreases |ops|
  {
    hide Bump;
    if ops == [] {
      assert before + ops == before;
    } else {
      var n := |ops| - 1;
      TallyStart(before, ops[..n]);
      BumpFree(Tally(before, ops[..n]), ops[n]);
      var all := before + ops;
      assert all[..|all| - 1] == before + ops[..n] && all[|all| - 1] == ops[n];
    }
  }

  lemma TallyOfNone(before: seq<Op>)
    ensures Tally(before, []) == Counters(FdSum(before), 0, 0, -2)
  {}

  lemma TallySnoc(before: seq<Op>, ops: seq<Op>, op: Op)
    ensures Tally(before, ops + [op]) == Bump(Tally(before, ops), op)
  {
    assert (ops + [op])[..|ops|] == ops;
  }

  lemma LeafOpsSnoc(kind: Kind, seqno: nat, recs: seq<AllocRec>, i: nat)
    requires i < |recs|
    ensures LeafOps(kind, seqno, recs[..i + 1]) == LeafOps(kind, seqno, recs[..i]) + [RecOp(kind, seqno, recs[i])]
  {
    assert recs[..i + 1][..i] == recs[..i];
  }

  lemma ChildOpsSnoc(disk: Disk, kind: Kind, seqno: nat, ptrs: seq<nat>, nlevels: nat, i: nat)
    requires i < |ptrs|
    ensures ChildOps(disk, kind, seqno, ptrs[..i + 1], nlevels)
         == ChildOps(disk, kind, seqno, ptrs[..i], nlevels) + TreeOps(disk, kind, seqno, ptrs[i], nlevels)
  {
    assert ptrs[..i + 1][..i] == ptrs[..i];
  }

  // --- the scan ----------------------------------------------------------------------------

  /** The blocks that hold the four AG headers, and the number of slots of the AG free list. */
  datatype Layout = Layout(sbBlock: nat, agfBlock: nat, agiBlock: nat, agflBlock: nat, agflSize: nat)

  datatype Super = Super(badMagic: bool, badVersion: bool, inprogress: bool, agblocks: nat,
      log: Option<(nat, nat, nat)>)

  datatype AgfHeader = AgfHeader(
    badMagic: bool, badVersion: bool, seqno: nat, length: nat,
    bnoRoot: nat, bnoLevels: nat, cntRoot: nat, cntLevels: nat,
    flfirst: nat, fllast: nat, flcount: nat, freeblks: nat, longest: nat)

  /** The inode side of an AG: header and tree mistakes, and the claims made while it was scanned. */
  datatype InodeSide = InodeSide(badMagic: bool, badVersion: bool, claims: seq<Op>, errors: nat, serious: nat)

  /** What could be read of an AG. */
  datatype AgHeaders = AgHeaders(sb: Option<Super>, agf: Option<AgfHeader>, agi: Option<InodeSide>,
      agfl: Option<seq<nat>>)

  /** The claims of the inode scan are of types that belong to inodes. */
  ghost predicate InodeClaims(ops: seq<Op>) {
    forall i :: 0 <= i < |ops| ==>
      Proper(ops[i]) && ops[i].from == Unknown && ops[i].to != Free1 && !Counted(ops[i].to)
  }

  /** The walk of the free list stays inside it, and ends. */
  predicate WalkFits(agf: AgfHeader, n: nat) { agf.flfirst < n && agf.fllast < n }

  ghost predicate HeadersFit(h: AgHeaders, lay: Layout, disk: Disk, lim: Limits) {
    && Fits(disk, lim)
    && lay.sbBlock < U32 && lay.agfBlock < U32 && lay.agiBlock < U32 && lay.agflBlock < U32
    && (h.sb.Some? ==> h.sb.value.agblocks <= U32)
    && (h.sb.Some? && h.sb.value.log.Some? ==> h.sb.value.log.value.1 + h.sb.value.log.value.2 <= U32)
    && (h.agf.Some? ==> var f := h.agf.value;
        && f.bnoRoot < U32 && f.cntRoot < U32 && f.bnoLevels > 0 && f.cntLevels > 0
        && (f.flcount != 0 && h.agfl.Some? ==> WalkFits(f, lay.agflSize)) && f.freeblks < U32)
    && (h.agfl.Some? ==> |h.agfl.value| == lay.agflSize
                         && forall i :: 0 <= i < |h.agfl.value| ==> h.agfl.value[i] < U32)
    && (h.agi.Some? ==> InodeClaims(h.agi.value.claims))
  }

  function When(c: bool, op: Op): seq<Op> { if c then [op] else [] }

  /** The claims of scan_ag for the superblock, the AGF and the AGI. */
  function SuperOps(agno: nat, sb: Super, lay: Layout): seq<Op> {
    [Op(agno, lay.sbBlock, 1, Unknown, Sb)]
    + match sb.log
      case None => []
      case Some(l) => When(l.0 == agno, Op(agno, l.1, l.2, Unknown, Log))
  }

  function AgfOps(agno: nat, sb: Super, agf: AgfHeader, lay: Layout): seq<Op> {
    When(lay.sbBlock != lay.agfBlock, Op(agno, lay.agfBlock, 1, Unknown, Agf))
    + When(sb.agblocks > agf.length, Op(agno, agf.length, Less(sb.agblocks, agf.length), Unknown, Missing))
  }

  function Less(a: nat, b: nat): nat { if a > b then a - b else 0 }

  function AgiOps(agno: nat, lay: Layout): seq<Op> {
    When(lay.sbBlock != lay.agiBlock && lay.agfBlock != lay.agiBlock, Op(agno, lay.agiBlock, 1, Unknown, Agi))
  }

  function FreeSideOps(agf: AgfHeader, agfl: Option<seq<nat>>, lay: Layout): seq<Op>
    requires agf.flcount != 0 && agfl.Some? ==> WalkFits(agf, |agfl.value|)
  {
    When(lay.sbBlock != lay.agflBlock && lay.agfBlock != lay.agflBlock && lay.agiBlock != lay.agflBlock,
         Op(agf.seqno, lay.agflBlock, 1, Unknown, Agfl))
    + if agf.flcount == 0 || agfl.None? then []
      else FreeListOps(agf.seqno, SlotsFrom(agfl.value, agf.flfirst, agf.fllast))
  }

  predicate Readable(h: AgHeaders, lay: Layout) {
    && h.sb.Some? && h.agf.Some? && h.agi.Some?
    && (h.agfl.Some? ==> |h.agfl.value| == lay.agflSize)
    && (h.agf.value.flcount != 0 && h.agfl.Some? ==> WalkFits(h.agf.value, lay.agflSize))
  }

  /** Every claim of an AG that is scanned without an error. */
  ghost function AgOps(agno: nat, h: AgHeaders, lay: Layout, disk: Disk): seq<Op> {
    if !Readable(h, lay) then []
    else
      var agf := h.agf.value;
      SuperOps(agno, h.sb.value, lay) + AgfOps(agno, h.sb.value, agf, lay) + AgiOps(agno, lay) +
        FreeSideOps(agf, h.agfl, lay)
      + TreeOps(disk, Bno, agf.seqno, agf.bnoRoot, agf.bnoLevels)
      + TreeOps(disk, Cnt, agf.seqno, agf.cntRoot, agf.cntLevels)
      + h.agi.value.claims
  }

  /** The number of free list blocks in the AGF is that of the slots from first to last. */
  predicate ListAgrees(agf: AgfHeader, agfl: Option<seq<nat>>) {
    agf.flcount != 0 ==>
      agfl.Some? && WalkFits(agf, |agfl.value|) && agf.flcount == SlotCount(agf.flfirst, agf.fllast, |agfl.value|)
  }

  /**
   * What the AGF says of free space agrees with the claims of its AG: the free blocks and the longest free
   * extent with the cnt records claimed, the number of free list blocks with the free list.
   */
  ghost predicate Agrees(agno: nat, h: AgHeaders, lay: Layout, disk: Disk) {
    && Readable(h, lay) && ListAgrees(h.agf.value, h.agfl)
    && var c := Tally([], AgOps(agno, h, lay, disk));
       h.agf.value.freeblks == c.agffreeblks % U32 && h.agf.value.longest == c.agflongest
  }

  /** The counters of an AG do not depend on the AGs before it. */
  lemma {:induction false} TallyOfAg(before: seq<Op>, ops: seq<Op>)
    ensures Tally(before, ops).agffreeblks == Tally([], ops).agffreeblks
    ensures Tally(before, ops).agflongest == Tally([], ops).agflongest
    decreases |ops|
  {
    if ops != [] { TallyOfAg(before, ops[..|ops| - 1]); }
  }

  /** Every claim of a run without an error. */
  ghost function RunOps(hs: seq<AgHeaders>, lay: Layout, disk: Disk): seq<Op> {
    if hs == [] then []
    else RunOps(hs[..|hs| - 1], lay, disk) + AgOps(|hs| - 1, hs[|hs| - 1], lay, disk)
  }

  /** Records that start one after another, none of them in block zero. */
  ghost predicate InOrder(recs: seq<AllocRec>) {
    && (forall i :: 0 <= i < |recs| ==> recs[i].startblock > 0)
    && (forall i, j :: 0 <= i < j < |recs| ==> recs[i].startblock < recs[j].startblock)
  }

  /** Every block of the tree can be read and is what it should be at its place in the tree. */
  ghost predicate TreeSound(disk: Disk, lim: Limits, kind: Kind, seqno: nat, root: nat, nlevels: nat, isroot: bool)
    decreases nlevels
  {
    && nlevels > 0 && (seqno, root) in disk
    && var b := disk[(seqno, root)];
       && b.magic == (if kind == Bno then Abtb else Abtc) && b.level == nlevels - 1
       && if nlevels == 1 then
            && b.numrecs <= lim.mxr0 && (isroot || b.numrecs >= lim.mnr0)
            && (kind == Bno && b.numrecs <= |b.recs| ==> InOrder(b.recs[..b.numrecs]))
          else
            && b.numrecs <= lim.mxr1 && (isroot || b.numrecs >= lim.mnr1)
            && forall i: nat | i < b.numrecs && i < |b.ptrs| ::
                 TreeSound(disk, lim, kind, seqno, b.ptrs[i], nlevels - 1, false)
  }

  /** Some block of the tree is not a block of it, has an impossible number of records, or bno records out of order. */
  ghost predicate TreeGrave(disk: Disk, lim: Limits, kind: Kind, seqno: nat, root: nat, nlevels: nat, isroot: bool)
    decreases nlevels
  {
    && nlevels > 0 && (seqno, root) in disk
    && var b := disk[(seqno, root)];
       || b.magic != (if kind == Bno then Abtb else Abtc)
       || if nlevels == 1 then
            || b.numrecs > lim.mxr0 || (!isroot && b.numrecs < lim.mnr0)
            || (kind == Bno && b.numrecs <= |b.recs| && !InOrder(b.recs[..b.numrecs]))
          else
            || b.numrecs > lim.mxr1 || (!isroot && b.numrecs < lim.mnr1)
            || exists i: nat | i < b.numrecs && i < |b.ptrs| ::
                 TreeGrave(disk, lim, kind, seqno, b.ptrs[i], nlevels - 1, false)
  }

  predicate SuperSound(agno: nat, sb: Super) { !sb.badMagic && !sb.badVersion && !(agno == 0 && sb.inprogress) }

  predicate AgfSound(agf: AgfHeader) { !agf.badMagic && !agf.badVersion }

  predicate AgiSound(agi: InodeSide) { !agi.badMagic && !agi.badVersion }

  /** The headers of an AG and its trees are there and in order, and nothing is wrong on the inode side. */
  ghost predicate AgSound(agno: nat, h: AgHeaders, disk: Disk, lim: Limits) {
    && h.sb.Some? && SuperSound(agno, h.sb.value)
    && h.agf.Some? && AgfSound(h.agf.value)
    && h.agi.Some? && AgiSound(h.agi.value) && h.agi.value.errors == 0 && h.agi.value.serious == 0
    && TreeSound(disk, lim, Bno, h.agf.value.seqno, h.agf.value.bnoRoot, h.agf.value.bnoLevels, true)
    && TreeSound(disk, lim, Cnt, h.agf.value.seqno, h.agf.value.cntRoot, h.agf.value.cntLevels, true)
  }

  /** A header or the free list cannot be read, or one of the trees has a serious fault. */
  ghost predicate AgGrave(h: AgHeaders, disk: Disk, lim: Limits) {
    h.sb.None? || h.agf.None? || h.agi.None? || TreesGrave(h.agf.value, h.agfl, h.agi.value, disk, lim)
  }

  ghost predicate TreesGrave(agf: AgfHeader, agfl: Option<seq<nat>>, agi: InodeSide, disk: Disk, lim: Limits) {
    || (agf.flcount != 0 && agfl.None?)
    || TreeGrave(disk, lim, Bno, agf.seqno, agf.bnoRoot, agf.bnoLevels, true)
    || TreeGrave(disk, lim, Cnt, agf.seqno, agf.cntRoot, agf.cntLevels, true)
    || agi.serious > 0
  }

  /**
   * Every AG is in order and its AGF agrees with the free space claimed; all claims are in order; unless free space
   * is not looked at, the map they leave is consistent; and the superblock counts the free blocks.
   */
  ghost predicate Healthy(g: Geometry, lim: Limits, hs: seq<AgHeaders>, lay: Layout, disk: Disk, tflag: bool,
                          sbFdblocks: nat, otherErrors: nat)
  {
    var ops := RunOps(hs, lay, disk);
    && AllSound(hs, |hs|, lay, disk, lim) && AllOk(g, ops)
    && (!tflag ==> Consistent(g, ops))
    && sbFdblocks == (|CountedCells(g, ops)| - 2 * |hs|) % 0x1_0000_0000_0000_0000
    && otherErrors == 0
  }

  ghost predicate AllSound(hs: seq<AgHeaders>, n: nat, lay: Layout, disk: Disk, lim: Limits)
    requires n <= |hs|
  {
    forall i: nat :: i < n ==> AgSound(i, hs[i], disk, lim) && Agrees(i, hs[i], lay, disk)
  }

  ghost predicate NoneGrave(hs: seq<AgHeaders>, n: nat, disk: Disk, lim: Limits)
    requires n <= |hs|
  {
    forall i: nat :: i < n ==> !AgGrave(hs[i], disk, lim)
  }

  /** Unsigned 64-bit arithmetic. */
  function Mod64(x: int): nat { x % 0x1_0000_0000_0000_0000 }

  class Checker {
    const g: Geometry
    const lim: Limits
    const dbmap: array2<Tag>
    var error: nat
    var seriousError: nat
    var fdblocks: int
    var agffreeblks: nat
    var agflongest: nat
    var agfbtreeblks: int
    /** The claims of the AGs before this one, those of this one, and what was taken off fdblocks. */
    ghost var before: seq<Op>
    ghost var agLog: seq<Op>
    ghost var debit: nat

    /** All claims so far, oldest first. */
    ghost function History(): seq<Op>
      reads `before, `agLog
    {
      before + agLog
    }

    /** The map shows what the claims say, and without an error they were all in order. */
    ghost predicate MapValid()
      reads `error, `before, `agLog, dbmap
    {
      && dbmap.Length0 == g.agcount && dbmap.Length1 == g.agblocks
      && AllProper(History())
      && (forall a, b :: 0 <= a < g.agcount && 0 <= b < g.agblocks ==> dbmap[a, b] == TagAt(g, History(), a, b))
      && (error == 0 ==> AllOk(g, History()))
    }

    ghost predicate CountersValid()
      reads `fdblocks, `agffreeblks, `agflongest, `agfbtreeblks, `before, `agLog, `debit
    {
      CountersOwing(0)
    }

    /** The counters, with so many free list blocks still to be added. */
    ghost predicate CountersOwing(owed: nat)
      reads `fdblocks, `agffreeblks, `agflongest, `agfbtreeblks, `before, `agLog, `debit
    {
      Counters(fdblocks + debit + owed, agffreeblks, agflongest, agfbtreeblks) == Tally(before, agLog)
    }

    ghost predicate Valid()
      reads this, dbmap
    {
      MapValid() && CountersValid()
    }

    constructor (g: Geometry, lim: Limits)
      ensures Valid() && this.g == g && this.lim == lim && fresh(dbmap)
      ensures error == 0 && seriousError == 0 && before == [] && agLog == [] && debit == 0
    {
      this.g, this.lim := g, lim;
      dbmap := new Tag[g.agcount, g.agblocks]((_, _) => Unknown);
      error, seriousError, fdblocks, agffreeblks, agflongest, agfbtreeblks := 0, 0, 0, 0, 0, -2;
      before, agLog, debit := [], [], 0;
    }

    method CheckRange(agno: nat, agbno: nat, len: nat) returns (ok: bool)
      modifies this`error
      ensures ok <==> InRange(g, Op(agno, agbno, len, Unknown, Unknown))
      ensures error == old(error) + if ok then 0 else 1
    {
      ok := agno < g.agcount && (agbno + len - 1) % U32 < g.agblocks;
      if !ok {
        error := error + 1;
      }
    }

    /** Counts the blocks that are not of the expected type. */
    method CheckDbmap(agno: nat, agbno: nat, len: nat, tag: Tag)
      requires agno < dbmap.Length0 && agbno + len <= dbmap.Length1
      modifies this`error
      ensures error >= old(error)
      ensures error == old(error) <==> forall b :: agbno <= b < agbno + len ==> dbmap[agno, b] == tag
    {
      for i := 0 to len
        invariant error >= old(error)
        invariant error == old(error) <==> forall b :: agbno <= b < agbno + i ==> dbmap[agno, b] == tag
      {
        if dbmap[agno, agbno + i] != tag {
          error := error + 1;
        }
      }
    }

    method SetRange(agno: nat, agbno: nat, len: nat, tag: Tag)
      requires agno < dbmap.Length0 && agbno + len <= dbmap.Length1
      modifies dbmap
      ensures forall a, b :: 0 <= a < dbmap.Length0 && 0 <= b < dbmap.Length1 ==>
                dbmap[a, b] == if a == agno && agbno <= b < agbno + len then tag else old(dbmap[a, b])
    {
      for i := 0 to len
        invariant forall a, b :: 0 <= a < dbmap.Length0 && 0 <= b < dbmap.Length1 ==>
                    dbmap[a, b] == if a == agno && agbno <= b < agbno + i then tag else old(dbmap[a, b])
      {
        dbmap[agno, agbno + i] := tag;
      }
    }

    /** check_set_dbmap: the range, the old types and the new ones; it counts no error just if the claim is in order. */
    method CheckSetDbmap(agno: nat, agbno: nat, len: nat, type1: Tag, type2: Tag)
      requires MapValid() && Proper(Op(agno, agbno, len, type1, type2))
      modifies `error, `agLog, dbmap
      ensures MapValid() && agLog == old(agLog) + [Op(agno, agbno, len, type1, type2)]
      ensures error >= old(error)
      ensures error == old(error) <==> OpOk(g, old(History()), Op(agno, agbno, len, type1, type2))
    {
      ghost var op := Op(agno, agbno, len, type1, type2);
      ghost var was := History();
      AllOkSnoc(g, was, op);
      forall a, b | 0 <= a < g.agcount && 0 <= b < g.agblocks
        ensures TagAt(g, was + [op], a, b) == if InRange(g, op) && Touches(op, a, b) then op.to else TagAt(g, was, a, b)
      {
        TagAtSnoc(g, was, op, a, b);
      }
      hide TagAt, AllOk;
      var ok := CheckRange(agno, agbno, len);
      if ok && len > 0 {
        CheckDbmap(agno, agbno, len, type1);
        SetRange(agno, agbno, len, type2);
      }
      agLog := agLog + [op];
      assert History() == was + [op];
    }

    ghost predicate Clean()
      reads `error, `seriousError
    {
      error == 0 && seriousError == 0
    }

    /**
     * How the scan stands in this AG: no error was counted if and only if all was fine so far and the claims up to
     * now are in order; and then these are the claims.
     */
    ghost predicate Stands(log: seq<Op>, fine: bool)
      reads `error, `seriousError, `before, `agLog
    {
      && (Clean() <==> fine && AllOk(g, before + log))
      && (Clean() ==> agLog == log)
    }

    /** set_dbmap, for a type that no counter knows. */
    method SetDbmap(agno: nat, agbno: nat, len: nat, tag: Tag, ghost log: seq<Op>, ghost fine: bool)
      requires Valid() && Proper(Op(agno, agbno, len, Unknown, tag)) && !Counted(tag) && Stands(log, fine)
      modifies `error, `agLog, dbmap
      ensures Valid() && Stands(log + [Op(agno, agbno, len, Unknown, tag)], fine) && error >= old(error)
    {
      hide MapValid, Tally, OpOk, AllOk;
      ghost var op := Op(agno, agbno, len, Unknown, tag);
      TallySnoc(before, agLog, op);
      OneMoreClaim(g, before, log, op);
      CheckSetDbmap(agno, agbno, len, Unknown, tag);
    }

    /** The start of scanfunc_bno and scanfunc_cnt: the tree block itself is a free block. */
    method ClaimTreeBlock(kind: Kind, seqno: nat, bno: nat, ghost log: seq<Op>, ghost fine: bool)
      requires Valid() && bno < U32 && Stands(log, fine)
      modifies `error, `agLog, `fdblocks, `agfbtreeblks, dbmap
      ensures Valid() && Stands(log + [Op(seqno, bno, 1, Unknown, TreeTag(kind))], fine) && error >= old(error)
    {
      hide MapValid, Tally, OpOk, AllOk;
      ghost var op := Op(seqno, bno, 1, Unknown, TreeTag(kind));
      TallySnoc(before, agLog, op);
      OneMoreClaim(g, before, log, op);
      fdblocks := fdblocks + 1;
      agfbtreeblks := agfbtreeblks + 1;
      CheckSetDbmap(seqno, bno, 1, Unknown, if kind == Bno then BtBno else BtCnt);
    }

    /** One record of the cnt tree. */
    method ClaimCntRec(seqno: nat, rec: AllocRec, ghost log: seq<Op>, ghost fine: bool)
      requires Valid() && rec.startblock + rec.blockcount <= U32 && Stands(log, fine)
      modifies `error, `agLog, `fdblocks, `agffreeblks, `agflongest, dbmap
      ensures Valid() && Stands(log + [RecOp(Cnt, seqno, rec)], fine) && error >= old(error)
    {
      hide MapValid, Tally, OpOk, AllOk;
      TallySnoc(before, agLog, RecOp(Cnt, seqno, rec));
      OneMoreClaim(g, before, log, RecOp(Cnt, seqno, rec));
      CheckSetDbmap(seqno, rec.startblock, rec.blockcount, Free1, Free2);
      fdblocks := fdblocks + rec.blockcount;
      agffreeblks := agffreeblks + rec.blockcount;
      if rec.blockcount > agflongest {
        agflongest := rec.blockcount;
      }
    }

    /** One block of the free list; it is added to fdblocks with the others, at the end of the walk. */
    method ClaimFreelistBlock(seqno: nat, bno: nat, ghost owed: nat, ghost log: seq<Op>, ghost fine: bool)
      requires MapValid() && CountersOwing(owed) && bno < U32 && Stands(log, fine)
      modifies `error, `agLog, dbmap
      ensures MapValid() && CountersOwing(owed + 1) && Stands(log + [Op(seqno, bno, 1, Unknown, FreeList)], fine)
      ensures error >= old(error)
    {
      hide MapValid, Tally, OpOk, AllOk;
      TallySnoc(before, agLog, Op(seqno, bno, 1, Unknown, FreeList));
      OneMoreClaim(g, before, log, Op(seqno, bno, 1, Unknown, FreeList));
      CheckSetDbmap(seqno, bno, 1, Unknown, FreeList);
    }

    /** The record loop of scanfunc_bno: a serious error is counted exactly if the records are not in order. */
    method ScanBnoLeaf(seqno: nat, recs: seq<AllocRec>, ghost log: seq<Op>, ghost fine: bool)
      requires Valid() && forall i :: 0 <= i < |recs| ==> recs[i].startblock + recs[i].blockcount <= U32
      requires Stands(log, fine)
      modifies `error, `seriousError, `agLog, dbmap
      ensures Valid() && Stands(log + LeafOps(Bno, seqno, recs), fine && InOrder(recs))
      ensures error >= old(error) && seriousError >= old(seriousError)
      ensures seriousError == old(seriousError) <==> InOrder(recs)
    {
      hide MapValid, CountersValid, CountersOwing, LeafOps, InOrder, Stands;
      var lastblock := 0;
      LeafStart(Bno, seqno, recs);
      assert log + [] == log;
      for i := 0 to |recs|
        invariant MapValid() && CountersValid()
        invariant Stands(log + LeafOps(Bno, seqno, recs[..i]), fine && InOrder(recs[..i]))
        invariant error >= old(error) && seriousError >= old(seriousError)
        invariant seriousError == old(seriousError) <==> InOrder(recs[..i])
        invariant InOrder(recs[..i]) ==> lastblock == LastStart(recs, i)
      {
        InOrderStep(recs, i);
        LeafOpsSnoc(Bno, seqno, recs, i);
        Associate(log, LeafOps(Bno, seqno, recs[..i]), [RecOp(Bno, seqno, recs[i])]);
        SetDbmap(seqno, recs[i].startblock, recs[i].blockcount, Free1,
                 log + LeafOps(Bno, seqno, recs[..i]), fine && InOrder(recs[..i]));
        if recs[i].startblock <= lastblock {
          CountSerious(1, log + LeafOps(Bno, seqno, recs[..i + 1]), fine && InOrder(recs[..i]));
        } else {
          lastblock := recs[i].startblock;
        }
      }
      assert recs[..|recs|] == recs;
    }

    /** The record loop of scanfunc_cnt: an order mistake is reported, but not counted. */
    method ScanCntLeaf(seqno: nat, recs: seq<AllocRec>, ghost log: seq<Op>, ghost fine: bool)
      requires Valid() && forall i :: 0 <= i < |recs| ==> recs[i].startblock + recs[i].blockcount <= U32
      requires Stands(log, fine)
      modifies `error, `agLog, `fdblocks, `agffreeblks, `agflongest, dbmap
      ensures Valid() && Stands(log + LeafOps(Cnt, seqno, recs), fine) && error >= old(error)
    {
      hide MapValid, CountersValid, CountersOwing, LeafOps, Stands;
      LeafStart(Cnt, seqno, recs);
      assert log + [] == log;
      for i := 0 to |recs|
        invariant MapValid() && CountersValid()
        invariant error >= old(error) && Stands(log + LeafOps(Cnt, seqno, recs[..i]), fine)
      {
        LeafOpsSnoc(Cnt, seqno, recs, i);
        Associate(log, LeafOps(Cnt, seqno, recs[..i]), [RecOp(Cnt, seqno, recs[i])]);
        ClaimCntRec(seqno, recs[i], log + LeafOps(Cnt, seqno, recs[..i]), fine);
      }
      assert recs[..|recs|] == recs;
    }

    /** A number of records or pointers that the block has no room for, or too few of them. */
    predicate BadNumrecs(n: nat, isroot: bool, leaf: bool) {
      n > (if leaf then lim.mxr0 else lim.mxr1) || (!isroot && n < if leaf then lim.mnr0 else lim.mnr1)
    }

    /**
     * scan_sbtree with scanfunc_bno or scanfunc_cnt. A serious error is counted exactly if the tree has a serious
     * fault, and none at all exactly if it is sound and its claims are in order.
     */
    method ScanSbtree(disk: Disk, kind: Kind, seqno: nat, root: nat, nlevels: nat, isroot: bool, ghost log: seq<Op>,
                      ghost fine: bool)
      requires Valid() && Fits(disk, lim) && nlevels > 0 && root < U32 && Stands(log, fine)
      modifies `error, `seriousError, `agLog, `fdblocks, `agffreeblks, `agflongest, `agfbtreeblks, dbmap
      ensures Valid()
      ensures Stands(log + TreeOps(disk, kind, seqno, root, nlevels),
                     fine && TreeSound(disk, lim, kind, seqno, root, nlevels, isroot))
      ensures error >= old(error) && seriousError >= old(seriousError)
      ensures seriousError == old(seriousError) <==> !TreeGrave(disk, lim, kind, seqno, root, nlevels, isroot)
      decreases nlevels, 0
    {
      hide MapValid, CountersValid, TreeOps, ChildOps, LeafOps, InOrder, Stands, TreeSound, TreeGrave;
      if (seqno, root) !in disk {
        Unreadable(disk, lim, kind, seqno, root, nlevels, isroot);
        CountIf(true, log, fine);
        NotFine(log, log + TreeOps(disk, kind, seqno, root, nlevels));
        return;
      }
      TreeOpsIs(disk, kind, seqno, root, nlevels);
      TreeIs(disk, lim, kind, seqno, root, nlevels, isroot);
      var block := disk[(seqno, root)];
      var level := nlevels - 1;
      assert BlockFits(block, lim);
      if block.magic != TreeMagic(kind) {
        CountSerious(1, log, fine);
        NotFine(log, log + TreeOps(disk, kind, seqno, root, nlevels));
        return;
      }
      ghost var self := [Op(seqno, root, 1, Unknown, TreeTag(kind))];
      ClaimTreeBlock(kind, seqno, root, log, fine);
      CountIf(block.level != level, log + self, fine);
      ghost var fine' := fine && block.level == level;
      if BadNumrecs(block.numrecs, isroot, level == 0) {
        CountSerious(1, log + self, fine');
        NotFine(log + self, log + TreeOps(disk, kind, seqno, root, nlevels));
        return;
      }
      if level == 0 {
        var recs := block.recs[..block.numrecs];
        Associate(log, self, LeafOps(kind, seqno, recs));
        if kind == Bno {
          ScanBnoLeaf(seqno, recs, log + self, fine');
        } else {
          ScanCntLeaf(seqno, recs, log + self, fine');
        }
      } else {
        ScanChildren(disk, kind, seqno, block.ptrs, block.numrecs, level, log + self, fine');
        Associate(log, self, ChildOps(disk, kind, seqno, block.ptrs[..block.numrecs], level));
      }
    }

    method ScanChildren(disk: Disk, kind: Kind, seqno: nat, ptrs: seq<nat>, numrecs: nat, level: nat,
                        ghost log: seq<Op>, ghost fine: bool)
      requires Valid() && Fits(disk, lim) && level > 0 && numrecs <= |ptrs| && Stands(log, fine)
      requires forall i :: 0 <= i < |ptrs| ==> ptrs[i] < U32
      modifies `error, `seriousError, `agLog, `fdblocks, `agffreeblks, `agflongest, `agfbtreeblks, dbmap
      ensures Valid()
      ensures Stands(log + ChildOps(disk, kind, seqno, ptrs[..numrecs], level),
                     fine && ChildrenSound(disk, lim, kind, seqno, ptrs, numrecs, level))
      ensures error >= old(error) && seriousError >= old(seriousError)
      ensures seriousError == old(seriousError) <==> !SomeGrave(disk, lim, kind, seqno, ptrs, numrecs, level)
      decreases level, 1
    {
      hide MapValid, CountersValid, CountersOwing, TreeOps, ChildOps, TreeSound, TreeGrave, Stands;
      ChildStart(disk, kind, seqno, ptrs, level);
      assert log + [] == log;
      for i := 0 to numrecs
        invariant MapValid() && CountersValid()
        invariant error >= old(error) && seriousError >= old(seriousError)
        invariant Stands(log + ChildOps(disk, kind, seqno, ptrs[..i], level),
                         fine && ChildrenSound(disk, lim, kind, seqno, ptrs, i, level))
        invariant seriousError == old(seriousError) <==> !SomeGrave(disk, lim, kind, seqno, ptrs, i, level)
      {
        ChildOpsSnoc(disk, kind, seqno, ptrs, level, i);
        Associate(log, ChildOps(disk, kind, seqno, ptrs[..i], level), TreeOps(disk, kind, seqno, ptrs[i], level));
        OneMoreChild(disk, lim, kind, seqno, ptrs, i, level);
        ScanSbtree(disk, kind, seqno, ptrs[i], level, false, log + ChildOps(disk, kind, seqno, ptrs[..i], level),
                   fine && ChildrenSound(disk, lim, kind, seqno, ptrs, i, level));
      }
    }

    /** The free list counts for fdblocks once it has been walked. */
    method AddFreelist(count: nat)
      requires MapValid() && CountersOwing(count)
      modifies `fdblocks
      ensures MapValid() && CountersOwing(0)
    {
      fdblocks := fdblocks + count;
    }

    /** The loop of scan_freelist: it stops, having seen SlotCount slots. */
    method WalkFreelist(seqno: nat, agfl: seq<nat>, first: nat, last: nat, ghost log: seq<Op>, ghost fine: bool)
      returns (count: nat)
      requires MapValid() && CountersValid() && Stands(log, fine)
      requires first < |agfl| && last < |agfl| && forall i :: 0 <= i < |agfl| ==> agfl[i] < U32
      modifies `error, `agLog, `fdblocks, dbmap
      ensures MapValid() && CountersValid() && count == SlotCount(first, last, |agfl|)
      ensures error >= old(error) && Stands(log + FreeListOps(seqno, SlotsFrom(agfl, first, last)), fine)
    {
      hide MapValid, CountersOwing, FreeListOps, SlotsFrom, SlotCount, Slot, Stands;
      SlotsFromAre(agfl, first, last);
      ghost var goal, done := FreeListOps(seqno, SlotsFrom(agfl, first, last)), [];
      var i: nat := first;
      count := 0;
      var more := true;
      assert log + [] == log && done + goal == goal;
      while more
        invariant i < |agfl|
        invariant more ==> done + FreeListOps(seqno, SlotsFrom(agfl, i, last)) == goal
        invariant more ==> count + |SlotsFrom(agfl, i, last)| == SlotCount(first, last, |agfl|)
        invariant !more ==> done == goal && count == SlotCount(first, last, |agfl|)
        invariant MapValid() && CountersOwing(count) && error >= old(error) && Stands(log + done, fine)
        decreases SlotCount(first, last, |agfl|) - count
      {
        FreeListStep(seqno, agfl, i, last);
        ghost var op := Op(seqno, agfl[i], 1, Unknown, FreeList);
        Associate(log, done, [op]);
        Associate(done, [op],
                  if i == last then []
                  else FreeListOps(seqno, SlotsFrom(agfl, if i + 1 == |agfl| then 0 else i + 1, last)));
        ClaimFreelistBlock(seqno, agfl[i], count, log + done, fine);
        done := done + [op];
        count := count + 1;
        if i == last {
          more := false;
          assert done + [] == done;
        } else {
          i := if i + 1 == |agfl| then 0 else i + 1;
        }
      }
      AddFreelist(count);
    }

    /** scan_freelist: round the circular list from flfirst to fllast. */
    method ScanFreelist(agf: AgfHeader, agfl: Option<seq<nat>>, lay: Layout, ghost log: seq<Op>, ghost fine: bool)
      requires MapValid() && CountersValid() && lay.agflBlock < U32 && Stands(log, fine)
      requires agf.flcount != 0 && agfl.Some? ==> WalkFits(agf, |agfl.value|)
      requires agfl.Some? ==> forall i :: 0 <= i < |agfl.value| ==> agfl.value[i] < U32
      modifies `error, `seriousError, `agLog, `fdblocks, dbmap
      ensures MapValid() && CountersValid()
      ensures Stands(log + FreeSideOps(agf, agfl, lay), fine && ListAgrees(agf, agfl))
      ensures error >= old(error) && seriousError >= old(seriousError)
      ensures seriousError == old(seriousError) <==> !(agf.flcount != 0 && agfl.None?)
    {
      hide MapValid, CountersValid, FreeListOps, SlotsFrom, SlotCount, When, Stands;
      var apart := lay.sbBlock != lay.agflBlock && lay.agfBlock != lay.agflBlock && lay.agiBlock != lay.agflBlock;
      ghost var first := When(apart, Op(agf.seqno, lay.agflBlock, 1, Unknown, Agfl));
      SetIf(apart, agf.seqno, lay.agflBlock, 1, Agfl, log, fine);
      assert first + [] == first;
      if agf.flcount == 0 {
        return;
      }
      if agfl.None? {
        CountSerious(1, log + first, fine);
        return;
      }
      var count := WalkFreelist(agf.seqno, agfl.value, agf.flfirst, agf.fllast, log + first, fine);
      ghost var walked := FreeListOps(agf.seqno, SlotsFrom(agfl.value, agf.flfirst, agf.fllast));
      Associate(log, first, walked);
      CountIf(count != agf.flcount, log + (first + walked), fine);
    }

    method ScanSuper(agno: nat, sb: Super, lay: Layout, ghost log: seq<Op>, ghost fine: bool)
      requires Valid() && lay.sbBlock < U32 && (sb.log.Some? ==> sb.log.value.1 + sb.log.value.2 <= U32)
      requires Stands(log, fine)
      modifies `error, `agLog, dbmap
      ensures Valid() && Stands(log + SuperOps(agno, sb, lay), fine && SuperSound(agno, sb)) && error >= old(error)
    {
      hide MapValid, CountersValid, When, Stands;
      CountIf(sb.badMagic, log, fine);
      CountIf(sb.badVersion, log, fine && !sb.badMagic);
      CountIf(agno == 0 && sb.inprogress, log, fine && !sb.badMagic && !sb.badVersion);
      ghost var first, fine' := [Op(agno, lay.sbBlock, 1, Unknown, Sb)], fine && SuperSound(agno, sb);
      SetDbmap(agno, lay.sbBlock, 1, Sb, log, fine');
      match sb.log
      case None =>
        assert first + [] == first;
      case Some(l) =>
        Associate(log, first, When(l.0 == agno, Op(agno, l.1, l.2, Unknown, Log)));
        SetIf(l.0 == agno, agno, l.1, l.2, Log, log + first, fine');
    }

    method ScanAgf(agno: nat, sb: Super, agf: AgfHeader, lay: Layout, ghost log: seq<Op>, ghost fine: bool)
      requires Valid() && lay.agfBlock < U32 && sb.agblocks <= U32 && Stands(log, fine)
      modifies `error, `agLog, dbmap
      ensures Valid() && Stands(log + AgfOps(agno, sb, agf, lay), fine && AgfSound(agf)) && error >= old(error)
    {
      hide MapValid, CountersValid, When, Stands;
      CountIf(agf.badMagic, log, fine);
      CountIf(agf.badVersion, log, fine && !agf.badMagic);
      var missing := if sb.agblocks > agf.length then sb.agblocks - agf.length else 0;
      ghost var fine' := fine && AgfSound(agf);
      ghost var first := When(lay.sbBlock != lay.agfBlock, Op(agno, lay.agfBlock, 1, Unknown, Agf));
      Associate(log, first, When(sb.agblocks > agf.length, Op(agno, agf.length, missing, Unknown, Missing)));
      SetIf(lay.sbBlock != lay.agfBlock, agno, lay.agfBlock, 1, Agf, log, fine');
      SetIf(sb.agblocks > agf.length, agno, agf.length, missing, Missing, log + first, fine');
    }

    method ScanAgi(agno: nat, agi: InodeSide, lay: Layout, ghost log: seq<Op>, ghost fine: bool)
      requires Valid() && lay.agiBlock < U32 && Stands(log, fine)
      modifies `error, `agLog, dbmap
      ensures Valid() && Stands(log + AgiOps(agno, lay), fine && AgiSound(agi)) && error >= old(error)
    {
      hide MapValid, CountersValid, When, Stands;
      CountIf(agi.badMagic, log, fine);
      CountIf(agi.badVersion, log, fine && !agi.badMagic);
      SetIf(lay.sbBlock != lay.agiBlock && lay.agfBlock != lay.agiBlock, agno, lay.agiBlock, 1, Agi,
            log, fine && AgiSound(agi));
    }

    /** Whatever the inode tree holds: mistakes, and claims of inode types only. */
    method ScanInodes(agi: InodeSide, ghost log: seq<Op>, ghost fine: bool)
      requires Valid() && InodeClaims(agi.claims) && Stands(log, fine)
      modifies `error, `seriousError, `agLog, dbmap
      ensures Valid() && Stands(log + agi.claims, fine && agi.errors == 0 && agi.serious == 0)
      ensures error >= old(error) && seriousError == old(seriousError) + agi.serious
    {
      hide MapValid, CountersValid, Stands;
      assert log + [] == log;
      for i := 0 to |agi.claims|
        invariant MapValid() && CountersValid()
        invariant error >= old(error) && seriousError == old(seriousError) && Stands(log + agi.claims[..i], fine)
      {
        var op := agi.claims[i];
        Associate(log, agi.claims[..i], [op]);
        assert agi.claims[..i + 1] == agi.claims[..i] + [op];
        SetDbmap(op.agno, op.agbno, op.len, op.to, log + agi.claims[..i], fine);
      }
      assert agi.claims[..|agi.claims|] == agi.claims;
      CountSerious(agi.serious, log + agi.claims, fine);
      CountErrors(agi.errors, log + agi.claims, fine && agi.serious == 0);
    }

    method CountErrors(n: nat, ghost log: seq<Op>, ghost fine: bool)
      requires MapValid() && CountersValid() && Stands(log, fine)
      modifies `error
      ensures MapValid() && CountersValid() && Stands(log, fine && n == 0) && error == old(error) + n
    {
      error := error + n;
    }

    method CountSerious(n: nat, ghost log: seq<Op>, ghost fine: bool)
      requires MapValid() && CountersValid() && Stands(log, fine)
      modifies `seriousError
      ensures MapValid() && CountersValid() && Stands(log, fine && n == 0) && seriousError == old(seriousError) + n
    {
      seriousError := seriousError + n;
    }

    method CountIf(bad: bool, ghost log: seq<Op>, ghost fine: bool)
      requires MapValid() && CountersValid() && Stands(log, fine)
      modifies `error
      ensures MapValid() && CountersValid() && Stands(log, fine && !bad) && error == old(error) + if bad then 1 else 0
    {
      if bad {
        error := error + 1;
      }
    }

    /** Once something was wrong, it does not matter which claims are missing. */
    lemma NotFine(log: seq<Op>, other: seq<Op>)
      requires Stands(log, false)
      ensures Stands(other, false)
    {}

    lemma Restated(log: seq<Op>, fine: bool, other: bool)
      requires Stands(log, fine) && (AllOk(g, before + log) ==> (fine <==> other))
      ensures Stands(log, other)
    {
      hide AllOk;
    }

    /** One of the optional claims of the headers. */
    method SetIf(c: bool, agno: nat, agbno: nat, len: nat, tag: Tag, ghost log: seq<Op>, ghost fine: bool)
      requires MapValid() && CountersValid() && Stands(log, fine)
      requires c ==> Proper(Op(agno, agbno, len, Unknown, tag)) && !Counted(tag)
      modifies `error, `agLog, dbmap
      ensures MapValid() && CountersValid() && Stands(log + When(c, Op(agno, agbno, len, Unknown, tag)), fine)
      ensures error >= old(error)
    {
      hide MapValid, CountersValid, Stands;
      if c {
        SetDbmap(agno, agbno, len, tag, log, fine);
      } else {
        assert log + [] == log;
      }
    }

    /**
     * scan_ag. An AG adds no error if and only if its headers and trees are sound, the AGF agrees with the free space
     * claimed, and its claims are in order; then these are those of AgOps, and two more blocks are off fdblocks. It
     * adds a serious error if and only if it has a serious fault.
     */
    method ScanAg(agno: nat, h: AgHeaders, lay: Layout, disk: Disk)
      requires Valid() && HeadersFit(h, lay, disk, lim)
      modifies `error, `seriousError, `before, `agLog, `fdblocks, `agffreeblks, `agflongest, `agfbtreeblks, `debit,
               dbmap
      ensures Valid() && before == old(History())
      ensures error >= old(error) && seriousError >= old(seriousError)
      ensures seriousError == old(seriousError) <==> !AgGrave(h, disk, lim)
      ensures Stands(AgOps(agno, h, lay, disk),
                     old(Clean()) && AgSound(agno, h, disk, lim) && Agrees(agno, h, lay, disk))
      ensures Clean() ==> debit == old(debit) + 2
    {
      hide AllOk, AllProper, TagAt, Tally, TreeSound, TreeGrave, Agrees, TreeOps, FreeSideOps, SuperOps, AgfOps, AgiOps;
      StartAg();
      ghost var log: seq<Op>, fine := [], Clean();
      hide MapValid, CountersValid, Fits, InodeClaims, AgOps, TreesGrave, Stands;
      if h.sb.None? {
        CountSerious(1, log, fine);
        NotFine(log, AgOps(agno, h, lay, disk));
        return;
      }
      var sb := h.sb.value;
      ScanSuper(agno, sb, lay, log, fine);
      log, fine := log + SuperOps(agno, sb, lay), fine && SuperSound(agno, sb);
      assert log == SuperOps(agno, sb, lay);
      if h.agf.None? {
        CountSerious(1, log, fine);
        NotFine(log, AgOps(agno, h, lay, disk));
        return;
      }
      var agf := h.agf.value;
      ScanAgf(agno, sb, agf, lay, log, fine);
      log, fine := log + AgfOps(agno, sb, agf, lay), fine && AgfSound(agf);
      if h.agi.None? {
        CountSerious(1, log, fine);
        NotFine(log, AgOps(agno, h, lay, disk));
        return;
      }
      ScanAgi(agno, h.agi.value, lay, log, fine);
      log, fine := log + AgiOps(agno, lay), fine && AgiSound(h.agi.value);
      ScanTrees(agno, h, lay, disk, log, fine);
    }

    /** The counters at the end of an AG are those of its claims. */
    lemma AgIsRight(agno: nat, h: AgHeaders, lay: Layout, disk: Disk)
      requires CountersValid() && agLog == AgOps(agno, h, lay, disk) && Readable(h, lay)
      ensures Agrees(agno, h, lay, disk) <==>
              && h.agf.value.freeblks == agffreeblks % U32 && h.agf.value.longest == agflongest
              && ListAgrees(h.agf.value, h.agfl)
    {
      hide Tally, AgOps, ListAgrees, Readable;
      TallyOfAg(before, agLog);
    }

    /** The free list, the free-space trees and the inode side. */
    method ScanTrees(agno: nat, h: AgHeaders, lay: Layout, disk: Disk, ghost log: seq<Op>, ghost fine: bool)
      requires MapValid() && CountersValid() && HeadersFit(h, lay, disk, lim) && Stands(log, fine)
      requires h.sb.Some? && h.agf.Some? && h.agi.Some?
      requires log == SuperOps(agno, h.sb.value, lay) + AgfOps(agno, h.sb.value, h.agf.value, lay) + AgiOps(agno, lay)
      modifies `error, `seriousError, `agLog, `fdblocks, `agffreeblks, `agflongest, `agfbtreeblks, `debit, dbmap
      ensures MapValid() && CountersValid()
      ensures error >= old(error) && seriousError >= old(seriousError)
      ensures seriousError == old(seriousError) <==> !TreesGrave(h.agf.value, h.agfl, h.agi.value, disk, lim)
      ensures Stands(AgOps(agno, h, lay, disk), fine && RestSound(h, disk, lim) && Agrees(agno, h, lay, disk))
      ensures debit == old(debit) + 2
    {
      hide MapValid, CountersValid, TreeOps, FreeSideOps, SuperOps, AgfOps, AgiOps, InodeClaims, Agrees, TreeSound;
      hide TreeGrave, Stands, ListAgrees, Tally;
      var agf := h.agf.value;
      ghost var log', fine' := log, fine;
      assert Fits(disk, lim) && InodeClaims(h.agi.value.claims);
      ScanFreelist(agf, h.agfl, lay, log', fine');
      log', fine' := log' + FreeSideOps(agf, h.agfl, lay), fine' && ListAgrees(agf, h.agfl);
      DebitOne(log', fine');
      ScanSbtree(disk, Bno, agf.seqno, agf.bnoRoot, agf.bnoLevels, true, log', fine');
      log' := log' + TreeOps(disk, Bno, agf.seqno, agf.bnoRoot, agf.bnoLevels);
      fine' := fine' && TreeSound(disk, lim, Bno, agf.seqno, agf.bnoRoot, agf.bnoLevels, true);
      DebitOne(log', fine');
      ScanSbtree(disk, Cnt, agf.seqno, agf.cntRoot, agf.cntLevels, true, log', fine');
      log' := log' + TreeOps(disk, Cnt, agf.seqno, agf.cntRoot, agf.cntLevels);
      fine' := fine' && TreeSound(disk, lim, Cnt, agf.seqno, agf.cntRoot, agf.cntLevels, true);
      ScanInodes(h.agi.value, log', fine');
      log' := log' + h.agi.value.claims;
      fine' := fine' && h.agi.value.errors == 0 && h.agi.value.serious == 0;
      CheckFigures(agno, h, lay, disk, log', fine');
      Restated(AgOps(agno, h, lay, disk), fine' && Agrees(agno, h, lay, disk),
               fine && RestSound(h, disk, lim) && Agrees(agno, h, lay, disk));
    }

    /** The AGF's figures against the counters. */
    method CheckFigures(agno: nat, h: AgHeaders, lay: Layout, disk: Disk, ghost log: seq<Op>, ghost fine: bool)
      requires MapValid() && CountersValid() && Readable(h, lay) && Stands(log, fine)
      requires log == AgOps(agno, h, lay, disk) && (fine ==> ListAgrees(h.agf.value, h.agfl))
      modifies `error
      ensures MapValid() && CountersValid() && error >= old(error)
      ensures Stands(log, fine && Agrees(agno, h, lay, disk))
      ensures Agrees(agno, h, lay, disk) ==> ListAgrees(h.agf.value, h.agfl)
    {
      hide MapValid, CountersValid, Agrees, Stands, ListAgrees, Tally, AgOps;
      var agf := h.agf.value;
      ghost var right := agf.freeblks == agffreeblks % U32 && agf.longest == agflongest;
      Judged(agno, h, lay, disk, log, fine, right);
      CountIf(agf.freeblks != agffreeblks % U32, log, fine);
      CountIf(agf.longest != agflongest, log, fine && agf.freeblks == agffreeblks % U32);
      Restated(log, fine && right, fine && Agrees(agno, h, lay, disk));
    }

    /** With no error so far, the AGF's figures are right just if they agree with the claims. */
    lemma Judged(agno: nat, h: AgHeaders, lay: Layout, disk: Disk, log: seq<Op>, fine: bool, right: bool)
      requires CountersValid() && Readable(h, lay) && log == AgOps(agno, h, lay, disk) && Stands(log, fine)
      requires fine ==> ListAgrees(h.agf.value, h.agfl)
      requires right <==> h.agf.value.freeblks == agffreeblks % U32 && h.agf.value.longest == agflongest
      ensures fine && AllOk(g, before + log) ==> (right <==> Agrees(agno, h, lay, disk))
      ensures Agrees(agno, h, lay, disk) ==> ListAgrees(h.agf.value, h.agfl)
    {
      hide CountersValid, AgOps, Readable, AllOk, ListAgrees, Tally;
      if fine && AllOk(g, before + log) { AgIsRight(agno, h, lay, disk); }
    }

    /** A new AG: its counters start again. */
    method StartAg()
      requires Valid()
      modifies `before, `agLog, `agffreeblks, `agflongest, `agfbtreeblks
      ensures Valid() && before == old(History()) && agLog == [] && Stands([], old(Clean()))
    {
      TallyStart(before, agLog);
      assert before + agLog + [] == before + agLog;
      hide TagAt, AllOk, AllProper, Tally;
      before := History();
      agLog := [];
      assert History() == old(History());
      agffreeblks, agflongest, agfbtreeblks := 0, 0, -2;
    }

    /** A root block of a free-space tree is not free space. */
    method DebitOne(ghost log: seq<Op>, ghost fine: bool)
      requires MapValid() && CountersValid() && Stands(log, fine)
      modifies `fdblocks, `debit
      ensures MapValid() && CountersValid() && debit == old(debit) + 1 && Stands(log, fine)
    {
      hide Tally;
      fdblocks := fdblocks - 1;
      debit := debit + 1;
    }

    /** checknot_dbmap for a whole AG: counts no error just if it has blocks and every block has a settled type. */
    method ChecknotDbmap(agno: nat)
      requires Valid() && agno < g.agcount
      modifies `error
      ensures Valid() && error >= old(error)
      ensures error == old(error) <==> g.agblocks > 0 && forall b: nat | b < g.agblocks :: !Unsettled(dbmap[agno, b])
    {
      hide TagAt, AllOk, AllProper, CountersValid;
      var ok := CheckRange(agno, 0, g.agblocks);
      if !ok {
        return;
      }
      for b := 0 to g.agblocks
        invariant MapValid() && error >= old(error)
        invariant error == old(error) <==> forall k: nat | k < b :: !Unsettled(dbmap[agno, k])
      {
        if dbmap[agno, b] == Unknown || dbmap[agno, b] == Free1 {
          error := error + 1;
        }
      }
    }

    /** The loop of scan_ag calls. */
    method ScanAgs(hs: seq<AgHeaders>, lay: Layout, disk: Disk)
      requires Valid() && error == 0 && seriousError == 0 && History() == [] && debit == 0
      requires forall i :: 0 <= i < |hs| ==> HeadersFit(hs[i], lay, disk, lim)
      modifies `error, `seriousError, `before, `agLog, `fdblocks, `agffreeblks, `agflongest, `agfbtreeblks, `debit,
               dbmap
      ensures Valid()
      ensures seriousError == 0 <==> NoneGrave(hs, |hs|, disk, lim)
      ensures Clean() <==> AllSound(hs, |hs|, lay, disk, lim) && AllOk(g, RunOps(hs, lay, disk))
      ensures Clean() ==> History() == RunOps(hs, lay, disk) && debit == 2 * |hs|
    {
      hide MapValid, CountersValid, AgOps, HeadersFit, Agrees, AgSound, AgGrave, AllOk, Tally;
      NoClaims(g);
      for i := 0 to |hs|
        invariant MapValid() && CountersValid()
        invariant seriousError == 0 <==> NoneGrave(hs, i, disk, lim)
        invariant Clean() <==> AllSound(hs, i, lay, disk, lim) && AllOk(g, RunOps(hs[..i], lay, disk))
        invariant Clean() ==> History() == RunOps(hs[..i], lay, disk) && debit == 2 * i
      {
        assert hs[..i + 1][..i] == hs[..i];
        AllOkPrefix(g, RunOps(hs[..i], lay, disk), AgOps(i, hs[i], lay, disk));
        ScanAg(i, hs[i], lay, disk);
      }
      assert hs[..|hs|] == hs;
    }

    /** The checknot_dbmap calls for all AGs. */
    method ChecknotAll()
      requires Valid()
      modifies `error
      ensures Valid() && error >= old(error)
      ensures error == old(error) <==> Settled(g, History()) && (g.agcount > 0 ==> g.agblocks > 0)
    {
      hide TagAt, AllOk, AllProper, CountersValid;
      for a := 0 to g.agcount
        invariant MapValid() && CountersValid() && error >= old(error)
        invariant error == old(error) <==>
                  && (a > 0 ==> g.agblocks > 0)
                  && forall i: nat, b: nat | i < a && b < g.agblocks :: !Unsettled(dbmap[i, b])
      {
        ChecknotDbmap(a);
      }
    }

    /**
     * blockget_f, with all checks that claim no block reduced to a number of mistakes. The exit code is zero if and
     * only if the file system is healthy, and two if and only if some AG has a serious fault.
     */
    method Blockget(hs: seq<AgHeaders>, lay: Layout, disk: Disk, tflag: bool, sbFdblocks: nat, otherErrors: nat)
      returns (exitcode: nat)
      requires Valid() && error == 0 && seriousError == 0 && History() == [] && debit == 0
      requires |hs| == g.agcount && forall i :: 0 <= i < |hs| ==> HeadersFit(hs[i], lay, disk, lim)
      modifies `error, `seriousError, `before, `agLog, `fdblocks, `agffreeblks, `agflongest, `agfbtreeblks, `debit,
               dbmap
      ensures Valid()
      ensures exitcode == 0 || exitcode == 2 || exitcode == 3
      ensures exitcode == if seriousError > 0 then 2 else if error > 0 then 3 else 0
      ensures exitcode == 2 <==> exists h <- hs :: AgGrave(h, disk, lim)
      ensures exitcode == 0 <==> Healthy(g, lim, hs, lay, disk, tflag, sbFdblocks, otherErrors)
      ensures exitcode == 0 ==> History() == RunOps(hs, lay, disk)
      ensures exitcode == 0 ==> forall i: nat :: i < |hs| ==> Agrees(i, hs[i], lay, disk)
      ensures exitcode == 0 ==> sbFdblocks == Mod64(|CountedCells(g, History())| - 2 * g.agcount)
      ensures exitcode == 0 && !tflag ==> Consistent(g, History())
    {
      hide MapValid, CountersValid, RunOps, Agrees, AgSound, AgGrave, AllOk, Consistent, CountedCells, HeadersFit;
      hide Settled, History, Tally;
      ScanAgs(hs, lay, disk);
      if seriousError > 0 {
        return 2;
      }
      if error == 0 {
        CleanRun();
        HasBlocks(g, lim, hs, lay, disk);
      }
      if !tflag {
        ChecknotAll();
      }
      CountMistakes(otherErrors);
      if sbFdblocks != Mod64(fdblocks) {
        CountMistakes(1);
      }
      if error > 0 {
        return 3;
      }
      return 0;
    }

    /** Mistakes that have nothing to do with claims. */
    method CountMistakes(n: nat)
      requires Valid()
      modifies `error
      ensures Valid() && error == old(error) + n
    {
      error := error + n;
    }

    /** What an error-free map and its counter say. */
    lemma CleanRun()
      requires MapValid() && CountersValid() && error == 0
      ensures fdblocks + debit == |CountedCells(g, History())|
      ensures Settled(g, History()) <==> Consistent(g, History())
    {
      hide TagAt, AllOk, AllProper, Tally, Consistent, CountedCells, Settled;
      TallyStart(before, agLog);
      TallyOfNone(History());
      CounterIsCells(g, History());
      ConsistentIffSettled(g, History());
    }
  }

  /** Claims can be in order only if an AG has blocks. */
  lemma HasBlocks(g: Geometry, lim: Limits, hs: seq<AgHeaders>, lay: Layout, disk: Disk)
    requires AllSound(hs, |hs|, lay, disk, lim) && AllOk(g, RunOps(hs, lay, disk))
    ensures hs != [] ==> g.agblocks > 0
  {
    hide AgSound, TreeOps, AgfOps, AgiOps, FreeSideOps, TagAt, RunOps;
    if hs != [] {
      var n, ops := |hs| - 1, RunOps(hs, lay, disk);
      assert Agrees(n, hs[n], lay, disk);
      var ag := AgOps(n, hs[n], lay, disk);
      assert |ag| > 0;
      LastAg(hs, lay, disk);
      assert |ops| > 0 && OpOk(g, ops[..0], ops[0]);
    }
  }

  lemma LastAg(hs: seq<AgHeaders>, lay: Layout, disk: Disk)
    requires hs != []
    ensures |RunOps(hs, lay, disk)| >= |AgOps(|hs| - 1, hs[|hs| - 1], lay, disk)|
  {
    hide AgOps;
  }

  lemma NoClaims(g: Geometry)
    ensures AllOk(g, [])
  {}

  lemma OneMoreClaim(g: Geometry, before: seq<Op>, log: seq<Op>, op: Op)
    ensures AllOk(g, before + (log + [op])) <==> AllOk(g, before + log) && OpOk(g, before + log, op)
  {
    AllOkSnoc(g, before + log, op);
    Associate(before, log, [op]);
  }

  lemma AllOkPrefix(g: Geometry, a: seq<Op>, b: seq<Op>)
    ensures AllOk(g, a + b) ==> AllOk(g, a)
  {
    if AllOk(g, a + b) {
      forall i | 0 <= i < |a| ensures OpOk(g, a[..i], a[i]) {
        assert (a + b)[..i] == a[..i] && (a + b)[i] == a[i];
      }
    }
  }

  /** Where the last of the first n records starts. */
  function LastStart(recs: seq<AllocRec>, n: nat): nat
    requires n <= |recs|
  {
    if n == 0 then 0 else recs[n - 1].startblock
  }

  lemma InOrderStep(recs: seq<AllocRec>, n: nat)
    requires n < |recs|
    ensures InOrder(recs[..n + 1]) <==> InOrder(recs[..n]) && recs[n].startblock > LastStart(recs, n)
  {
    var some, more := recs[..n], recs[..n + 1];
    assert more == some + [recs[n]];
    if InOrder(more) && n > 0 { assert more[n - 1].startblock < more[n].startblock; }
  }

  lemma LeafStart(kind: Kind, seqno: nat, recs: seq<AllocRec>)
    ensures LeafOps(kind, seqno, recs[..0]) == [] && InOrder(recs[..0])
  {}

  ghost predicate ChildrenSound(disk: Disk, lim: Limits, kind: Kind, seqno: nat, ptrs: seq<nat>, n: nat, level: nat) {
    forall i: nat | i < n && i < |ptrs| :: TreeSound(disk, lim, kind, seqno, ptrs[i], level, false)
  }

  ghost predicate SomeGrave(disk: Disk, lim: Limits, kind: Kind, seqno: nat, ptrs: seq<nat>, n: nat, level: nat) {
    exists i: nat | i < n && i < |ptrs| :: TreeGrave(disk, lim, kind, seqno, ptrs[i], level, false)
  }

  lemma OneMoreChild(disk: Disk, lim: Limits, kind: Kind, seqno: nat, ptrs: seq<nat>, n: nat, level: nat)
    requires n < |ptrs|
    ensures ChildrenSound(disk, lim, kind, seqno, ptrs, n + 1, level) <==>
            && ChildrenSound(disk, lim, kind, seqno, ptrs, n, level)
            && TreeSound(disk, lim, kind, seqno, ptrs[n], level, false)
    ensures SomeGrave(disk, lim, kind, seqno, ptrs, n + 1, level) <==>
            || SomeGrave(disk, lim, kind, seqno, ptrs, n, level)
            || TreeGrave(disk, lim, kind, seqno, ptrs[n], level, false)
  {
    hide TreeSound, TreeGrave;
  }

  lemma Unreadable(disk: Disk, lim: Limits, kind: Kind, seqno: nat, root: nat, nlevels: nat, isroot: bool)
    requires (seqno, root) !in disk
    ensures !TreeSound(disk, lim, kind, seqno, root, nlevels, isroot)
    ensures !TreeGrave(disk, lim, kind, seqno, root, nlevels, isroot)
  {}

  lemma TreeIs(disk: Disk, lim: Limits, kind: Kind, seqno: nat, root: nat, nlevels: nat, isroot: bool)
    requires nlevels > 0 && (seqno, root) in disk && BlockFits(disk[(seqno, root)], lim)
    ensures var b := disk[(seqno, root)];
            var few := if nlevels == 1 then b.numrecs <= lim.mxr0 && (isroot || b.numrecs >= lim.mnr0)
                       else b.numrecs <= lim.mxr1 && (isroot || b.numrecs >= lim.mnr1);
            && (TreeSound(disk, lim, kind, seqno, root, nlevels, isroot) <==>
                  && b.magic == TreeMagic(kind) && b.level == nlevels - 1 && few
                  && if nlevels == 1 then kind == Bno ==> InOrder(b.recs[..b.numrecs])
                     else ChildrenSound(disk, lim, kind, seqno, b.ptrs, b.numrecs, nlevels - 1))
            && (TreeGrave(disk, lim, kind, seqno, root, nlevels, isroot) <==>
                  || b.magic != TreeMagic(kind) || !few
                  || if nlevels == 1 then kind == Bno && !InOrder(b.recs[..b.numrecs])
                     else SomeGrave(disk, lim, kind, seqno, b.ptrs, b.numrecs, nlevels - 1))
  {
    hide InOrder;
  }

  /** What is left of an AG after its headers. */
  ghost predicate RestSound(h: AgHeaders, disk: Disk, lim: Limits)
    requires h.agf.Some? && h.agi.Some?
  {
    && TreeSound(disk, lim, Bno, h.agf.value.seqno, h.agf.value.bnoRoot, h.agf.value.bnoLevels, true)
    && TreeSound(disk, lim, Cnt, h.agf.value.seqno, h.agf.value.cntRoot, h.agf.value.cntLevels, true)
    && h.agi.value.errors == 0 && h.agi.value.serious == 0
  }

  lemma ChildStart(disk: Disk, kind: Kind, seqno: nat, ptrs: seq<nat>, nlevels: nat)
    ensures ChildOps(disk, kind, seqno, ptrs[..0], nlevels) == []
  {}

  lemma TreeOpsIs(disk: Disk, kind: Kind, seqno: nat, root: nat, nlevels: nat)
    requires nlevels > 0 && (seqno, root) in disk
    ensures var b := disk[(seqno, root)];
            TreeOps(disk, kind, seqno, root, nlevels)
            == [Op(seqno, root, 1, Unknown, TreeTag(kind))]
               + if nlevels == 1 then LeafOps(kind, seqno, if b.numrecs <= |b.recs| then b.recs[..b.numrecs] else [])
                 else ChildOps(disk, kind, seqno, if b.numrecs <= |b.ptrs| then b.ptrs[..b.numrecs] else [],
                               nlevels - 1)
  {}
}
