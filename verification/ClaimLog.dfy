/**
 * The block map of blockget as a history: every call that claims blocks, in order, and what a
 * history without an error says about the file system.
 */
module ClaimLog {

  /** The block types of the checker. */
  datatype Tag =
    | Unknown | Agf | Agfl | Agi | Attr | BtBmapA | BtBmapD | BtBno | BtCnt | BtIno | Data | Dir
    | Free1 | Free2 | FreeList | Inode | Log | Missing | Quota | RtBitmap | RtData | RtFree | RtSum
    | Sb | Symlink

  datatype Geometry = Geometry(agcount: nat, agblocks: nat)

  /** One call of check_set_dbmap: len blocks go from one type to another. */
  datatype Op = Op(agno: nat, agbno: nat, len: nat, from: Tag, to: Tag)

  const U32 := 0x1_0000_0000

  /** check_range, with its 32-bit arithmetic: an empty range at block zero is out of range. */
  predicate InRange(g: Geometry, op: Op) {
    op.agno < g.agcount && (op.agbno + op.len - 1) % 0x1_0000_0000 < g.agblocks
  }

  predicate Touches(op: Op, a: nat, b: nat) { op.agno == a && op.agbno <= b < op.agbno + op.len }

  /** The caller's ranges do not wrap around 32 bits, and there are only three kinds of claim. */
  ghost predicate Proper(op: Op) {
    && op.agbno + op.len <= U32
    && ((op.from == Unknown && op.to != Unknown && op.to != Free2) || (op.from == Free1 && op.to == Free2))
  }

  ghost predicate AllProper(ops: seq<Op>) {
    forall i :: 0 <= i < |ops| ==> Proper(ops[i])
  }

  /** The type of block b of AG a after the calls. */
  ghost function TagAt(g: Geometry, ops: seq<Op>, a: nat, b: nat): Tag {
    if ops == [] then Unknown
    else
      var op := ops[|ops| - 1];
      if InRange(g, op) && Touches(op, a, b) then op.to else TagAt(g, ops[..|ops| - 1], a, b)
  }

  /** A call that counts no error. */
  ghost predicate OpOk(g: Geometry, before: seq<Op>, op: Op) {
    InRange(g, op) && forall b :: op.agbno <= b < op.agbno + op.len ==> TagAt(g, before, op.agno, b) == op.from
  }

  ghost predicate AllOk(g: Geometry, ops: seq<Op>) {
    forall i :: 0 <= i < |ops| ==> OpOk(g, ops[..i], ops[i])
  }

  lemma TagAtSnoc(g: Geometry, ops: seq<Op>, op: Op, a: nat, b: nat)
    ensures TagAt(g, ops + [op], a, b) == if InRange(g, op) && Touches(op, a, b) then op.to else TagAt(g, ops, a, b)
  {
    assert (ops + [op])[..|ops|] == ops;
  }

  lemma AllOkSnoc(g: Geometry, ops: seq<Op>, op: Op)
    ensures AllOk(g, ops + [op]) <==> AllOk(g, ops) && OpOk(g, ops, op)
  {
    var all := ops + [op];
    assert all[..|ops|] == ops && all[|ops|] == op;
    assert forall i :: 0 <= i < |ops| ==> all[..i] == ops[..i] && all[i] == ops[i];
  }

  // --- what an error-free history means ----------------------------------------------------

  /** Once claimed, a block stays as it is, except that a block free in one tree may be met in the other. */
  lemma {:induction false} Sticky(g: Geometry, ops: seq<Op>, i: nat, a: nat, b: nat, n: nat)
    requires AllProper(ops) && AllOk(g, ops) && i < n <= |ops| && Touches(ops[i], a, b)
    ensures ops[i].to != Free1 ==> TagAt(g, ops[..n], a, b) == ops[i].to
    ensures ops[i].to == Free1 ==> TagAt(g, ops[..n], a, b) in {Free1, Free2}
    decreases n
  {
    assert OpOk(g, ops[..i], ops[i]);
    assert ops[..n] == ops[..n - 1] + [ops[n - 1]];
    TagAtSnoc(g, ops[..n - 1], ops[n - 1], a, b);
    if i < n - 1 {
      Sticky(g, ops, i, a, b, n - 1);
      assert OpOk(g, ops[..n - 1], ops[n - 1]);
      assert Proper(ops[n - 1]);
    }
  }

  /** Two claims on one block are a bno-tree record followed by a cnt-tree record. */
  lemma TwoClaims(g: Geometry, ops: seq<Op>, i: nat, j: nat, a: nat, b: nat)
    requires AllProper(ops) && AllOk(g, ops) && i < j < |ops| && Touches(ops[i], a, b) && Touches(ops[j], a, b)
    ensures ops[i].to == Free1 && ops[j].to == Free2
  {
    Sticky(g, ops, i, a, b, j);
    assert OpOk(g, ops[..j], ops[j]);
    assert Proper(ops[j]) && Proper(ops[i]);
  }

  ghost predicate ClaimedBy(ops: seq<Op>, i: nat, a: nat, b: nat) {
    i < |ops| && ops[i].from == Unknown && Touches(ops[i], a, b)
  }

  /** Some call that made blocks into this type covers the block. */
  ghost predicate CoveredAs(ops: seq<Op>, to: Tag, a: nat, b: nat) {
    exists i :: 0 <= i < |ops| && ops[i].to == to && Touches(ops[i], a, b)
  }

  ghost predicate OneClaim(ops: seq<Op>, a: nat, b: nat) {
    exists i :: ClaimedBy(ops, i, a, b) && forall j :: ClaimedBy(ops, j, a, b) ==> j == i
  }

  ghost predicate DisjointAs(ops: seq<Op>, to: Tag) {
    forall i, j, a: nat, b: nat | 0 <= i < j < |ops| && ops[i].to == to && ops[j].to == to ::
      !(Touches(ops[i], a, b) && Touches(ops[j], a, b))
  }

  /** Every block has exactly one owner; both free-space trees hold each free block exactly once. */
  ghost predicate Consistent(g: Geometry, ops: seq<Op>) {
    && (forall a: nat, b: nat :: a < g.agcount && b < g.agblocks ==> OneClaim(ops, a, b))
    && (forall i: nat, a: nat, b: nat :: ClaimedBy(ops, i, a, b) ==> a < g.agcount && b < g.agblocks)
    && DisjointAs(ops, Free1)
    && DisjointAs(ops, Free2)
    && (forall a: nat, b: nat :: CoveredAs(ops, Free1, a, b) <==> CoveredAs(ops, Free2, a, b))
  }

  lemma {:induction false} TagHasClaim(g: Geometry, ops: seq<Op>, a: nat, b: nat) returns (i: nat)
    requires AllProper(ops) && AllOk(g, ops) && TagAt(g, ops, a, b) != Unknown
    ensures ClaimedBy(ops, i, a, b)
    ensures TagAt(g, ops, a, b) == Free2 ==> ops[i].to == Free1 && CoveredAs(ops, Free2, a, b)
    ensures TagAt(g, ops, a, b) != Free2 ==> TagAt(g, ops, a, b) == ops[i].to
    decreases |ops|
  {
    var n := |ops| - 1;
    var op := ops[n];
    assert ops == ops[..n] + [op];
    TagAtSnoc(g, ops[..n], op, a, b);
    AllOkSnoc(g, ops[..n], op);
    assert Proper(op);
    if Touches(op, a, b) {
      if op.from == Unknown {
        i := n;
      } else {
        i := TagHasClaim(g, ops[..n], a, b);
      }
    } else {
      i := TagHasClaim(g, ops[..n], a, b);
      if TagAt(g, ops, a, b) == Free2 {
        var k :| 0 <= k < n && ops[..n][k].to == Free2 && Touches(ops[..n][k], a, b);
        assert ops[k].to == Free2 && Touches(ops[k], a, b);
      }
    }
  }

  lemma ClaimInRange(g: Geometry, ops: seq<Op>, i: nat, a: nat, b: nat)
    requires AllProper(ops) && AllOk(g, ops) && i < |ops| && Touches(ops[i], a, b)
    ensures a < g.agcount && b < g.agblocks
  {
    assert OpOk(g, ops[..i], ops[i]) && Proper(ops[i]);
  }

  /** No block is left unclaimed, or free in the bno tree alone. */
  ghost predicate Settled(g: Geometry, ops: seq<Op>) {
    forall a: nat, b: nat | a < g.agcount && b < g.agblocks :: !Unsettled(TagAt(g, ops, a, b))
  }

  predicate Unsettled(t: Tag) { t == Unknown || t == Free1 }

  /** No error in the claims, and no block left unknown or free in one tree only. */
  lemma CleanMapIsConsistent(g: Geometry, ops: seq<Op>)
    requires AllProper(ops) && AllOk(g, ops)
    requires Settled(g, ops)
    ensures Consistent(g, ops)
  {
    forall a: nat, b: nat | a < g.agcount && b < g.agblocks
      ensures OneClaim(ops, a, b)
    {
      var i := TagHasClaim(g, ops, a, b);
      forall j | ClaimedBy(ops, j, a, b)
        ensures j == i
      {
        if i < j {
          TwoClaims(g, ops, i, j, a, b);
        } else if j < i {
          TwoClaims(g, ops, j, i, a, b);
        }
        assert Proper(ops[j]) && Proper(ops[i]);
      }
      assert ClaimedBy(ops, i, a, b);
    }
    forall i: nat, a: nat, b: nat | ClaimedBy(ops, i, a, b)
      ensures a < g.agcount && b < g.agblocks
    {
      ClaimInRange(g, ops, i, a, b);
    }
    forall i, j, a: nat, b: nat | 0 <= i < j < |ops| && ops[i].to == ops[j].to
      ensures !(Touches(ops[i], a, b) && Touches(ops[j], a, b))
    {
      if Touches(ops[i], a, b) && Touches(ops[j], a, b) {
        TwoClaims(g, ops, i, j, a, b);
      }
    }
    forall a: nat, b: nat
      ensures CoveredAs(ops, Free1, a, b) <==> CoveredAs(ops, Free2, a, b)
    {
      SameCover(g, ops, a, b);
    }
  }

  /** And the other way round: a consistent map is settled. */
  lemma ConsistentIffSettled(g: Geometry, ops: seq<Op>)
    requires AllProper(ops) && AllOk(g, ops)
    ensures Settled(g, ops) <==> Consistent(g, ops)
  {
    if Settled(g, ops) { CleanMapIsConsistent(g, ops); }
    if Consistent(g, ops) {
      forall a: nat, b: nat | a < g.agcount && b < g.agblocks ensures !Unsettled(TagAt(g, ops, a, b)) {
        ConsistentIsSettled(g, ops, a, b);
      }
    }
  }

  lemma ConsistentIsSettled(g: Geometry, ops: seq<Op>, a: nat, b: nat)
    requires AllProper(ops) && AllOk(g, ops) && OneClaim(ops, a, b)
    requires CoveredAs(ops, Free1, a, b) <==> CoveredAs(ops, Free2, a, b)
    ensures !Unsettled(TagAt(g, ops, a, b))
  {
    assert ops[..|ops|] == ops;
    var i: nat :| ClaimedBy(ops, i, a, b);
    Sticky(g, ops, i, a, b, |ops|);
    assert Proper(ops[i]);
    if ops[i].to == Free1 {
      var k: nat :| k < |ops| && ops[k].to == Free2 && Touches(ops[k], a, b);
      Sticky(g, ops, k, a, b, |ops|);
    }
  }

  lemma SameCover(g: Geometry, ops: seq<Op>, a: nat, b: nat)
    requires AllProper(ops) && AllOk(g, ops)
    requires Settled(g, ops)
    ensures CoveredAs(ops, Free1, a, b) <==> CoveredAs(ops, Free2, a, b)
  {
    assert ops[..|ops|] == ops;
    if CoveredAs(ops, Free1, a, b) {
      var i :| 0 <= i < |ops| && ops[i].to == Free1 && Touches(ops[i], a, b);
      Sticky(g, ops, i, a, b, |ops|);
      ClaimInRange(g, ops, i, a, b);
      var _ := TagHasClaim(g, ops, a, b);
    }
    if CoveredAs(ops, Free2, a, b) {
      var i :| 0 <= i < |ops| && ops[i].to == Free2 && Touches(ops[i], a, b);
      Sticky(g, ops, i, a, b, |ops|);
      var k := TagHasClaim(g, ops, a, b);
      assert ops[k].to == Free1 && Touches(ops[k], a, b);
    }
  }

  // --- the counters ------------------------------------------------------------------------

  /** The types that sb_fdblocks counts. */
  predicate Counted(t: Tag) { t == Free2 || t == FreeList || t == BtBno || t == BtCnt }

  /** What the scan adds to its free block counter along with these calls. */
  function FdSum(ops: seq<Op>): nat {
    if ops == [] then 0
    else FdSum(ops[..|ops| - 1]) + (if Counted(ops[|ops| - 1].to) then ops[|ops| - 1].len else 0)
  }

  ghost function Cells(g: Geometry): set<(nat, nat)> {
    set a: nat, b: nat | a < g.agcount && b < g.agblocks :: (a, b)
  }

  ghost function CountedCells(g: Geometry, ops: seq<Op>): set<(nat, nat)> {
    set c | c in Cells(g) && Counted(TagAt(g, ops, c.0, c.1))
  }

  ghost function CellsOf(agno: nat, agbno: nat, len: nat): (s: set<(nat, nat)>)
    ensures |s| == len
    ensures forall c :: c in s <==> c.0 == agno && agbno <= c.1 < agbno + len
  {
    if len == 0 then {}
    else
      var s := CellsOf(agno, agbno, len - 1);
      assert (agno, agbno + len - 1) !in s;
      s + {(agno, agbno + len - 1)}
  }

  /** With no error counted, the counter is the number of blocks the map shows as free or tree space. */
  lemma {:induction false} CounterIsCells(g: Geometry, ops: seq<Op>)
    requires AllProper(ops) && AllOk(g, ops)
    ensures FdSum(ops) == |CountedCells(g, ops)|
    decreases |ops|
  {
    if ops == [] {
      assert CountedCells(g, ops) == {};
    } else {
      var n := |ops| - 1;
      var op := ops[n];
      assert ops == ops[..n] + [op];
      AllOkSnoc(g, ops[..n], op);
      CounterIsCells(g, ops[..n]);
      CountedSnoc(g, ops[..n], op);
    }
  }

  lemma CountedSnoc(g: Geometry, ops: seq<Op>, op: Op)
    requires Proper(op) && OpOk(g, ops, op)
    ensures |CountedCells(g, ops + [op])| == |CountedCells(g, ops)| + if Counted(op.to) then op.len else 0
  {
    var was, now := CountedCells(g, ops), CountedCells(g, ops + [op]);
    hide TagAt, OpOk, Proper, CountedCells;
    var added := if Counted(op.to) then CellsOf(op.agno, op.agbno, op.len) else {};
    forall c: (nat, nat)
      ensures c in now <==> c in was || c in added
      ensures !(c in was && c in added)
    {
      CountedCell(g, ops, op, c);
    }
    assert now == was + added && was !! added;
  }

  lemma CountedCell(g: Geometry, ops: seq<Op>, op: Op, c: (nat, nat))
    requires Proper(op) && OpOk(g, ops, op)
    ensures var isNew := Counted(op.to) && Touches(op, c.0, c.1);
            && (c in CountedCells(g, ops + [op]) <==> c in CountedCells(g, ops) || isNew)
            && !(c in CountedCells(g, ops) && isNew)
  {
    TagAtSnoc(g, ops, op, c.0, c.1);
    if Touches(op, c.0, c.1) {
      assert c == (op.agno, c.1) && c in Cells(g);
    }
  }
}
