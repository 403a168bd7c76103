/** What the per-AG free space counters of an error-free scan count: the records of the cnt tree. */
module FreeTotals {

  import opened Basics
  import opened ClaimLog
  import opened BlockGet

  /** The records of a free-space tree, from left to right. */
  ghost function TreeRecs(disk: Disk, seqno: nat, root: nat, nlevels: nat): seq<AllocRec>
    decreases nlevels, 0
  {
    if nlevels == 0 || (seqno, root) !in disk then []
    else
      var b := disk[(seqno, root)];
      if nlevels == 1 then if b.numrecs <= |b.recs| then b.recs[..b.numrecs] else []
      else ChildRecs(disk, seqno, if b.numrecs <= |b.ptrs| then b.ptrs[..b.numrecs] else [], nlevels - 1)
  }

  ghost function ChildRecs(disk: Disk, seqno: nat, ptrs: seq<nat>, nlevels: nat): seq<AllocRec>
    decreases nlevels, |ptrs| + 1
  {
    if ptrs == [] then []
    else ChildRecs(disk, seqno, ptrs[..|ptrs| - 1], nlevels) + TreeRecs(disk, seqno, ptrs[|ptrs| - 1], nlevels)
  }

  function RecSum(recs: seq<AllocRec>): nat {
    if recs == [] then 0 else RecSum(recs[..|recs| - 1]) + recs[|recs| - 1].blockcount
  }

  function RecMax(recs: seq<AllocRec>): nat {
    if recs == [] then 0 else Max(RecMax(recs[..|recs| - 1]), recs[|recs| - 1].blockcount)
  }

  lemma {:induction false} RecsAppend(a: seq<AllocRec>, b: seq<AllocRec>)
    ensures RecSum(a + b) == RecSum(a) + RecSum(b)
    ensures RecMax(a + b) == Max(RecMax(a), RecMax(b))
    decreases |b|
  {
    if b == [] {
      assert a + b == a;
    } else {
      RecsAppend(a, b[..|b| - 1]);
      assert (a + b)[..|a + b| - 1] == a + b[..|b| - 1];
    }
  }

  /** Sum and maximum of the records claimed from the cnt tree. */
  function Sum2(ops: seq<Op>): nat {
    if ops == [] then 0 else Sum2(ops[..|ops| - 1]) + if ops[|ops| - 1].to == Free2 then ops[|ops| - 1].len else 0
  }

  function Max2(ops: seq<Op>): nat {
    if ops == [] then 0 else Max(Max2(ops[..|ops| - 1]), if ops[|ops| - 1].to == Free2 then ops[|ops| - 1].len else 0)
  }

  lemma {:induction false} TallyIsTotals(before: seq<Op>, ops: seq<Op>)
    ensures Tally(before, ops).agffreeblks == Sum2(ops) && Tally(before, ops).agflongest == Max2(ops)
    decreases |ops|
  {
    if ops != [] {
      TallyIsTotals(before, ops[..|ops| - 1]);
    }
  }

  lemma {:induction false} TotalsAppend(a: seq<Op>, b: seq<Op>)
    ensures Sum2(a + b) == Sum2(a) + Sum2(b) && Max2(a + b) == Max(Max2(a), Max2(b))
    decreases |b|
  {
    if b == [] {
      assert a + b == a;
    } else {
      TotalsAppend(a, b[..|b| - 1]);
      assert (a + b)[..|a + b| - 1] == a + b[..|b| - 1];
    }
  }

  lemma {:induction false} OthersAddNothing(ops: seq<Op>)
    requires forall i :: 0 <= i < |ops| ==> ops[i].to != Free2
    ensures Sum2(ops) == 0 && Max2(ops) == 0
    decreases |ops|
  {
    if ops != [] {
      OthersAddNothing(ops[..|ops| - 1]);
    }
  }

  lemma {:induction false} LeafTotals(kind: Kind, seqno: nat, recs: seq<AllocRec>)
    ensures Sum2(LeafOps(kind, seqno, recs)) == if kind == Cnt then RecSum(recs) else 0
    ensures Max2(LeafOps(kind, seqno, recs)) == if kind == Cnt then RecMax(recs) else 0
    decreases |recs|
  {
    if recs != [] {
      var front := recs[..|recs| - 1];
      LeafTotals(kind, seqno, front);
      var ops := LeafOps(kind, seqno, recs);
      assert ops[..|ops| - 1] == LeafOps(kind, seqno, front);
    }
  }

  lemma {:induction false} TreeTotals(disk: Disk, kind: Kind, seqno: nat, root: nat, nlevels: nat)
    ensures Sum2(TreeOps(disk, kind, seqno, root, nlevels)) ==
            if kind == Cnt then RecSum(TreeRecs(disk, seqno, root, nlevels)) else 0
    ensures Max2(TreeOps(disk, kind, seqno, root, nlevels)) ==
            if kind == Cnt then RecMax(TreeRecs(disk, seqno, root, nlevels)) else 0
    decreases nlevels, 0
  {
    if nlevels > 0 && (seqno, root) in disk {
      TreeOpsIs(disk, kind, seqno, root, nlevels);
      var b := disk[(seqno, root)];
      var self := [Op(seqno, root, 1, Unknown, TreeTag(kind))];
      OthersAddNothing(self);
      if nlevels == 1 {
        var recs := if b.numrecs <= |b.recs| then b.recs[..b.numrecs] else [];
        LeafTotals(kind, seqno, recs);
        TotalsAppend(self, LeafOps(kind, seqno, recs));
      } else {
        var ptrs := if b.numrecs <= |b.ptrs| then b.ptrs[..b.numrecs] else [];
        ChildTotals(disk, kind, seqno, ptrs, nlevels - 1);
        TotalsAppend(self, ChildOps(disk, kind, seqno, ptrs, nlevels - 1));
      }
    }
  }

  lemma {:induction false} ChildTotals(disk: Disk, kind: Kind, seqno: nat, ptrs: seq<nat>, nlevels: nat)
    ensures Sum2(ChildOps(disk, kind, seqno, ptrs, nlevels)) ==
            if kind == Cnt then RecSum(ChildRecs(disk, seqno, ptrs, nlevels)) else 0
    ensures Max2(ChildOps(disk, kind, seqno, ptrs, nlevels)) ==
            if kind == Cnt then RecMax(ChildRecs(disk, seqno, ptrs, nlevels)) else 0
    decreases nlevels, |ptrs| + 1
  {
    if ptrs != [] {
      var n := |ptrs| - 1;
      ChildTotals(disk, kind, seqno, ptrs[..n], nlevels);
      TreeTotals(disk, kind, seqno, ptrs[n], nlevels);
      TotalsAppend(ChildOps(disk, kind, seqno, ptrs[..n], nlevels), TreeOps(disk, kind, seqno, ptrs[n], nlevels));
      RecsAppend(ChildRecs(disk, seqno, ptrs[..n], nlevels), TreeRecs(disk, seqno, ptrs[n], nlevels));
    }
  }

  lemma {:induction false} FreeListTotals(seqno: nat, blocks: seq<nat>)
    ensures forall i :: 0 <= i < |FreeListOps(seqno, blocks)| ==> FreeListOps(seqno, blocks)[i].to == FreeList
    decreases |blocks|
  {
    if blocks != [] {
      FreeListTotals(seqno, blocks[1..]);
    }
  }

  /** In an AG scanned without an error, agffreeblks and agflongest are the sum and maximum of the cnt records. */
  lemma AgTotals(before: seq<Op>, agno: nat, h: AgHeaders, lay: Layout, disk: Disk, lim: Limits)
    requires Readable(h, lay) && HeadersFit(h, lay, disk, lim)
    ensures var agf := h.agf.value;
            var recs := TreeRecs(disk, agf.seqno, agf.cntRoot, agf.cntLevels);
            var c := Tally(before, AgOps(agno, h, lay, disk));
            c.agffreeblks == RecSum(recs) && c.agflongest == RecMax(recs)
  {
    hide TreeOps, TreeRecs, FreeListOps, SlotsFrom, RecSum, RecMax, Sum2, Max2, Tally;
    var agf := h.agf.value;
    TallyIsTotals(before, AgOps(agno, h, lay, disk));
    var fixed := SuperOps(agno, h.sb.value, lay) + AgfOps(agno, h.sb.value, agf, lay) + AgiOps(agno, lay) +
      FreeSideOps(agf, h.agfl, lay);
    var bno := TreeOps(disk, Bno, agf.seqno, agf.bnoRoot, agf.bnoLevels);
    var cnt := TreeOps(disk, Cnt, agf.seqno, agf.cntRoot, agf.cntLevels);
    if h.agfl.Some? && agf.flcount != 0 {
      FreeListTotals(agf.seqno, SlotsFrom(h.agfl.value, agf.flfirst, agf.fllast));
    }
    OthersAddNothing(fixed);
    OthersAddNothing(h.agi.value.claims);
    TreeTotals(disk, Bno, agf.seqno, agf.bnoRoot, agf.bnoLevels);
    TreeTotals(disk, Cnt, agf.seqno, agf.cntRoot, agf.cntLevels);
    TotalsAppend(fixed, bno);
    TotalsAppend(fixed + bno, cnt);
    TotalsAppend(fixed + bno + cnt, h.agi.value.claims);
  }

  /** The AGF's free space figures are those of the records of the cnt tree. */
  ghost predicate TotalsRight(h: AgHeaders, disk: Disk) {
    h.agf.Some? &&
    var agf := h.agf.value;
    var recs := TreeRecs(disk, agf.seqno, agf.cntRoot, agf.cntLevels);
    && agf.freeblks == RecSum(recs) % U32 && agf.longest == RecMax(recs)
    && ListAgrees(agf, h.agfl)
  }

  lemma AgreesMeansTotals(agno: nat, h: AgHeaders, lay: Layout, disk: Disk, lim: Limits)
    requires HeadersFit(h, lay, disk, lim) && Agrees(agno, h, lay, disk)
    ensures TotalsRight(h, disk)
  {
    AgTotals([], agno, h, lay, disk, lim);
  }

  /**
   * A run of blockget that ends without an error has found, in every AG, the AGF's free block count and
   * longest free extent to be the sum and the maximum of the cnt records, and its free list count right.
   */
  method RunTotals(c: Checker, hs: seq<AgHeaders>, lay: Layout, disk: Disk, tflag: bool, sbFdblocks: nat,
                   otherErrors: nat)
    returns (exitcode: nat)
    requires c.Valid() && c.error == 0 && c.seriousError == 0 && c.History() == [] && c.debit == 0
    requires |hs| == c.g.agcount && forall i :: 0 <= i < |hs| ==> HeadersFit(hs[i], lay, disk, c.lim)
    modifies c, c.dbmap
    ensures exitcode == 0 ==> forall h <- hs :: TotalsRight(h, disk)
  {
    hide HeadersFit, TotalsRight, Agrees, Checker.Valid, Checker.History, Consistent, RunOps, CountedCells;
    exitcode := c.Blockget(hs, lay, disk, tflag, sbFdblocks, otherErrors);
    if exitcode == 0 {
      forall h <- hs ensures TotalsRight(h, disk) {
        var i: nat :| i < |hs| && hs[i] == h;
        AgreesMeansTotals(i, h, lay, disk, c.lim);
      }
    }
  }
}
