/** The checker's summary of free runs in the realtime bitmap. */
module RtBitmap {

  import opened Basics

  /** A block of the bitmap file: not mapped, or mapped but missing or unreadable, or its bits. */
  datatype Block = Hole | Unreadable | Bits(bits: seq<bool>)

  /** Arithmetic on int, of 32 bits, wraps around. */
  function Int32(x: int): int { (x + 0x8000_0000) % 0x1_0000_0000 - 0x8000_0000 }

  /** xfs_highbit64 of an int, whose sign is extended: -1 for zero, and the sign bit for a negative number. */
  function HighBit(len: int): int { if len < 0 then 63 else if len == 0 then -1 else Log2(len) }

  /** The highest bit set. */
  function Log2(n: nat): nat
    requires n > 0
  {
    if n == 1 then 0 else 1 + Log2(n / 2)
  }

  lemma {:induction false} Log2Is(n: nat)
    requires n > 0
    ensures Pow2(Log2(n)) <= n < 2 * Pow2(Log2(n))
  {
    if n > 1 { Log2Is(n / 2); }
  }

  lemma {:induction false} Log2Grows(m: nat, n: nat)
    requires 0 < m <= n
    ensures Log2(m) <= Log2(n)
    decreases m
  {
    if m > 1 { Log2Grows(m / 2, n / 2); }
  }

  /** A free run starts at s: the bit is set, and the one before is not. */
  predicate RunStart(bits: seq<bool>, s: nat) {
    s < |bits| && bits[s] && (s == 0 || !bits[s - 1])
  }

  /** The first position from s on that is not free. */
  function RunEnd(bits: seq<bool>, s: nat): (e: nat)
    requires s <= |bits|
    ensures s <= e <= |bits|
    ensures forall i :: s <= i < e ==> bits[i]
    ensures e < |bits| ==> !bits[e]
    decreases |bits| - s
  {
    if s < |bits| && bits[s] then RunEnd(bits, s + 1) else s
  }

  /** The maximal free runs, by where they start: in one bitmap block, of lengths with one logarithm. */
  ghost function Runs(bits: seq<bool>, size: nat, log: nat, block: nat): set<nat>
    requires size > 0
  {
    Closed(bits, size, |bits| + 1, log, block)
  }

  /** Those that end before k. */
  ghost function Closed(bits: seq<bool>, size: nat, k: nat, log: nat, block: nat): set<nat>
    requires size > 0
  {
    set s: nat | s < |bits| && RunStart(bits, s) && RunEnd(bits, s) < k && IsIn(bits, size, s, log, block)
  }

  ghost predicate IsIn(bits: seq<bool>, size: nat, s: nat, log: nat, block: nat)
    requires size > 0 && RunStart(bits, s)
  {
    s / size == block && Log2(RunEnd(bits, s) - s) == log
  }

  function CountFree(bits: seq<bool>): nat {
    if bits == [] then 0 else CountFree(bits[..|bits| - 1]) + (if bits[|bits| - 1] then 1 else 0)
  }

  /** Where the scan stands after k bits: the run it is in, if any, started at s. */
  predicate Standing(bits: seq<bool>, k: nat, inRun: bool, s: nat) {
    && k <= |bits|
    && (inRun ==> s < k && RunStart(bits, s) && forall i :: s <= i < k ==> bits[i])
    && (!inRun ==> k == 0 || !bits[k - 1])
  }

  /** A set bit ends no run. */
  lemma SetBit(bits: seq<bool>, size: nat, k: nat, log: nat, block: nat)
    requires size > 0 && k < |bits| && bits[k]
    ensures Closed(bits, size, k + 1, log, block) == Closed(bits, size, k, log, block)
  {}

  /** Two runs with the same end start at the same place. */
  lemma SameEnd(bits: seq<bool>, s: nat, t: nat)
    requires RunStart(bits, s) && RunStart(bits, t) && RunEnd(bits, s) == RunEnd(bits, t)
    ensures s == t
  {}

  /** A clear bit, or the end, ends the run the scan is in, and no other. */
  lemma ClearBit(bits: seq<bool>, size: nat, k: nat, inRun: bool, s: nat, log: nat, block: nat)
    requires size > 0 && Standing(bits, k, inRun, s) && (k < |bits| ==> !bits[k])
    ensures inRun ==> RunEnd(bits, s) == k && s !in Closed(bits, size, k, log, block)
    ensures Closed(bits, size, k + 1, log, block) ==
            Closed(bits, size, k, log, block) + if inRun && IsIn(bits, size, s, log, block) then {s} else {}
  {
    forall t | t in Closed(bits, size, k + 1, log, block) && t !in Closed(bits, size, k, log, block)
      ensures inRun && t == s
    {
      assert RunEnd(bits, t) == k && bits[k - 1];
      SameEnd(bits, s, t);
    }
  }

  lemma ClearBitCounts(bits: seq<bool>, size: nat, k: nat, inRun: bool, s: nat, log: nat, block: nat)
    requires size > 0 && Standing(bits, k, inRun, s) && (k < |bits| ==> !bits[k])
    ensures |Closed(bits, size, k + 1, log, block)| ==
            |Closed(bits, size, k, log, block)| +
            (if inRun && s / size == block && Log2(k - s) == log then 1 else 0)
  {
    hide Closed;
    ClearBit(bits, size, k, inRun, s, log, block);
  }

  /** The bits of the blocks one after another. */
  function Joined(blocks: seq<Block>): seq<bool> {
    if blocks == [] then [] else Joined(blocks[..|blocks| - 1]) + BitsOf(blocks[|blocks| - 1])
  }

  function BitsOf(b: Block): seq<bool> { if b.Bits? then b.bits else [] }

  /** The file as the scan takes it: a block that it passes over goes on like the last bit before it. */
  function Filled(blocks: seq<Block>, size: nat): seq<bool> {
    if blocks == [] then []
    else
      var front, last := Filled(blocks[..|blocks| - 1], size), blocks[|blocks| - 1];
      front + if last.Bits? then last.bits else seq(size, _ => EndsFree(front))
  }

  predicate EndsFree(bits: seq<bool>) { bits != [] && bits[|bits| - 1] }

  predicate Readable(blocks: seq<Block>) { forall b <- blocks :: !b.Unreadable? }

  /** No two runs share a cell of the table unless they agree in logarithm and block. */
  lemma Cell(log: nat, block: nat, log': nat, block': nat, width: nat)
    requires block < width && block' < width && log * width + block == log' * width + block'
    ensures log == log' && block == block'
  {
    if log < log' {
      Row(log, log', width);
    } else if log' < log {
      Row(log', log, width);
    }
  }

  lemma InTable(log: nat, block: nat, levels: nat, width: nat)
    requires block < width && log < levels
    ensures log * width + block < levels * width
  {
    assert (log + 1) * width <= levels * width;
  }

  /** The summary counts, for every logarithm and block, the runs that ended before k. */
  ghost predicate Counts(now: seq<nat>, was: seq<nat>, levels: nat, width: nat,
                         bits: seq<bool>, size: nat, k: nat)
    requires size > 0
  {
    && |now| == |was| >= levels * width
    && forall log: nat, block: nat | log < levels && block < width ::
         now[At(log, block, levels, width)] == was[At(log, block, levels, width)] + |Closed(bits, size, k, log, block)|
  }

  /** The same, but for one more in the cell at offs, if that is in the table. */
  ghost predicate CountsWith(now: seq<nat>, was: seq<nat>, levels: nat, width: nat,
                             bits: seq<bool>, size: nat, k: nat, offs: int)
    requires size > 0
  {
    && |now| == |was| >= levels * width
    && forall log: nat, block: nat | log < levels && block < width ::
         now[At(log, block, levels, width)] ==
         was[At(log, block, levels, width)] + |Closed(bits, size, k, log, block)|
         + if At(log, block, levels, width) == offs then 1 else 0
  }

  lemma CountsBeyond(now: seq<nat>, was: seq<nat>, levels: nat, width: nat, bits: seq<bool>, size: nat, k: nat,
                     offs: int)
    requires size > 0 && Counts(now, was, levels, width, bits, size, k)
    ensures CountsWith(if 0 <= offs < |now| then now[offs := now[offs] + 1] else now, was,
                       levels, width, bits, size, k, offs)
  {
    hide Closed, At;
  }

  function At(log: nat, block: nat, levels: nat, width: nat): (i: nat)
    requires block < width && log < levels
    ensures i < levels * width
  {
    InTable(log, block, levels, width);
    log * width + block
  }

  lemma CountsStart(was: seq<nat>, levels: nat, width: nat, bits: seq<bool>, size: nat)
    requires size > 0 && |was| >= levels * width
    ensures Counts(was, was, levels, width, bits, size, 0)
  {
    forall log: nat, block: nat | log < levels && block < width
      ensures Closed(bits, size, 0, log, block) == {}
    {}
  }

  lemma CountsSetBit(now: seq<nat>, was: seq<nat>, levels: nat, width: nat, bits: seq<bool>, size: nat, k: nat)
    requires size > 0 && Counts(now, was, levels, width, bits, size, k) && k < |bits| && bits[k]
    ensures Counts(now, was, levels, width, bits, size, k + 1)
  {
    hide Closed, At;
    forall log: nat, block: nat | log < levels && block < width
      ensures Closed(bits, size, k + 1, log, block) == Closed(bits, size, k, log, block)
    {
      SetBit(bits, size, k, log, block);
    }
  }

  lemma CountsClearBit(now: seq<nat>, was: seq<nat>, levels: nat, width: nat, bits: seq<bool>, size: nat,
                       k: nat, s: nat)
    requires size > 0 && Counts(now, was, levels, width, bits, size, k)
    requires Standing(bits, k, false, s) && (k < |bits| ==> !bits[k])
    ensures Counts(now, was, levels, width, bits, size, k + 1)
  {
    hide Closed, Standing, At;
    forall log: nat, block: nat | log < levels && block < width
      ensures |Closed(bits, size, k + 1, log, block)| == |Closed(bits, size, k, log, block)|
    {
      ClearBitCounts(bits, size, k, false, s, log, block);
    }
  }

  /** Counting the run that just ended, in the cell of its logarithm and its first block. */
  lemma CountsRun(now: seq<nat>, was: seq<nat>, levels: nat, width: nat, bits: seq<bool>, size: nat,
                  k: nat, s: nat, log: nat, block: nat)
    requires size > 0 && Counts(now, was, levels, width, bits, size, k)
    requires Standing(bits, k, true, s) && (k < |bits| ==> !bits[k])
    requires log == Log2(k - s) < levels && block == s / size < width
    ensures var i := At(log, block, levels, width);
            Counts(now[i := now[i] + 1], was, levels, width, bits, size, k + 1)
  {
    hide Closed, Log2;
    assert s < k;
    hide Standing, At;
    var i := At(log, block, levels, width);
    forall log': nat, block': nat | log' < levels && block' < width
      ensures |Closed(bits, size, k + 1, log', block')| ==
              |Closed(bits, size, k, log', block')| + (if block == block' && log == log' then 1 else 0)
      ensures At(log', block', levels, width) == i <==> log == log' && block == block'
    {
      ClearBitCounts(bits, size, k, true, s, log', block');
      AtIsUnique(log, block, log', block', levels, width);
    }
  }

  lemma AtIsUnique(log: nat, block: nat, log': nat, block': nat, levels: nat, width: nat)
    requires block < width && log < levels && block' < width && log' < levels
    ensures At(log, block, levels, width) == At(log', block', levels, width) <==> log == log' && block == block'
  {
    if At(log, block, levels, width) == At(log', block', levels, width) {
      Cell(log, block, log', block', width);
    }
  }

  lemma Place(block: nat, bit: nat, size: nat)
    requires bit < size
    ensures (block * size + bit) / size == block
  {
    var q := (block * size + bit) / size;
    if q < block {
      Row(q, block, size);
    } else if block < q {
      Row(block, q, size);
    }
  }

  lemma Distance(block: nat, start: nat, size: nat)
    requires start <= block
    ensures (block - start) * size == block * size - start * size
    ensures start < block ==> (block - start) * size >= size
  {
    if start < block { Row(start, block, size); }
  }

  /** A run inside the scanned part of the file has a place in the table. */
  lemma RunFits(size: nat, s: nat, k: nat, end: nat, levels: nat, width: nat)
    requires size > 0 && s < k <= end <= width * size && Log2(end) < levels
    ensures Log2(k - s) < levels && s / size < width
  {
    Log2Grows(k - s, end);
    hide Log2;
    assert s / size * size <= s;
    if s / size > width { Row(width, s / size, size); }
  }

  /** The tables of the checker, for a bitmap with `size` bits to a block and `rextents` bits in all. */
  class Summary {
    const size: nat
    const rextents: nat
    const levels: nat
    const width: nat
    const sumcompute: array<nat>
    var frextents: nat
    var error: nat

    /** The table takes whole blocks, so it may have more cells than there are logarithms and blocks for. */
    predicate Geometry() {
      && size > 0 && levels > 0 && rextents <= width * size && sumcompute.Length >= levels * width
      && (rextents > 0 ==> Log2(rextents) < levels)
    }

    constructor (size: nat, rextents: nat, levels: nat, width: nat, cells: nat)
      requires size > 0 && levels > 0 && rextents <= width * size && cells >= levels * width
      requires rextents > 0 ==> Log2(rextents) < levels
      ensures Geometry() && fresh(sumcompute) && sumcompute.Length == cells
      ensures this.size == size && this.rextents == rextents && this.levels == levels && this.width == width
      ensures frextents == 0 == error && forall i :: 0 <= i < sumcompute.Length ==> sumcompute[i] == 0
    {
      this.size, this.rextents, this.levels, this.width := size, rextents, levels, width;
      sumcompute := new nat[cells](_ => 0);
      frextents, error := 0, 0;
    }

    /** The number of a bit of the file. */
    function FileBit(bmbno: nat, bit: nat): nat { bmbno * size + bit }

    /** What is known after k bits of the file. */
    ghost predicate Good(bits: seq<bool>, was: seq<nat>, k: nat, inRun: bool, s: nat)
      requires size > 0
      reads sumcompute
    {
      Standing(bits, k, inRun, s) && Counts(sumcompute[..], was, levels, width, bits, size, k)
    }

    /** The table has a place for all runs of as many bits of the file, and an int holds their lengths and cells. */
    predicate Fits(end: nat) {
      && end <= width * size && end < 0x8000_0000 && levels * width <= 0x8000_0000
      && (end > 0 ==> Log2(end) < levels)
    }

    /** The length of a run that ends before the given bit, and the cell it is counted in, as the program has them. */
    function Length(bmbno: int, bit: nat, startBmbno: nat, startBit: nat): int {
      Int32((bmbno - startBmbno) * size + (bit - startBit))
    }

    function Offset(len: int, startBmbno: nat): int { Int32(HighBit(len) * width + startBmbno) }

    /** Count a run that ends before the given bit; `wild` if its cell lies outside the table. */
    method CountRun(bmbno: int, bit: nat, startBmbno: nat, startBit: nat) returns (wild: bool)
      modifies sumcompute
      ensures var offs := Offset(Length(bmbno, bit, startBmbno, startBit), startBmbno);
              && (wild <==> !(0 <= offs < sumcompute.Length))
              && sumcompute[..] ==
                 if wild then old(sumcompute[..]) else old(sumcompute[..])[offs := old(sumcompute[offs]) + 1]
    {
      hide Length, Offset;
      var len := Length(bmbno, bit, startBmbno, startBit);
      var offs := Offset(len, startBmbno);
      wild := !(0 <= offs < sumcompute.Length);
      if !wild {
        sumcompute[offs] := sumcompute[offs] + 1;
      }
    }

    lemma Small(x: int)
      requires 0 <= x < 0x8000_0000
      ensures Int32(x) == x
    {}

    /** A run that ends after k bits of the file has a cell, and counting it makes all counts right. */
    lemma GoodRun(bmbno: nat, bit: nat, startBmbno: nat, startBit: nat, bits: seq<bool>, was: seq<nat>, k: nat)
      requires Geometry() && startBmbno <= bmbno && startBit < size
      requires k == bmbno * size + bit && Fits(|bits|) && (k < |bits| ==> !bits[k])
      requires Good(bits, was, k, true, FileBit(startBmbno, startBit))
      ensures var len := Length(bmbno, bit, startBmbno, startBit);
              && len == k - FileBit(startBmbno, startBit) > 0
              && var offs := Offset(len, startBmbno);
                 && 0 <= offs < sumcompute.Length
                 && Counts(sumcompute[..][offs := sumcompute[offs] + 1], was, levels, width, bits, size, k + 1)
    {
      hide Counts, Log2, Int32;
      var s := FileBit(startBmbno, startBit);
      assert s < k <= |bits|;
      hide Standing;
      Distance(bmbno, startBmbno, size);
      Place(startBmbno, startBit, size);
      RunFits(size, s, k, |bits|, levels, width);
      CountsRun(sumcompute[..], was, levels, width, bits, size, k, s, Log2(k - s), startBmbno);
      InTable(Log2(k - s), startBmbno, levels, width);
      Small(k - s);
      Small(Log2(k - s) * width + startBmbno);
    }

    /** One bit: a free one starts or continues a run, another ends the run there may be. */
    method ScanBit(isSet: bool, bmbno: nat, bit: nat, inRun: bool, startBmbno: nat, startBit: nat,
                   ghost good: bool, ghost bits: seq<bool>, ghost was: seq<nat>, ghost k: nat)
      returns (wild: bool, inRun': bool, startBmbno': nat, startBit': nat)
      requires Geometry() && bit < size && Started(inRun, startBmbno, startBit, bmbno, bit, size)
      requires good ==> k == bmbno * size + bit && k < |bits| && Fits(|bits|) && bits[k] == isSet
                        && Good(bits, was, k, inRun, FileBit(startBmbno, startBit))
      modifies `frextents, sumcompute
      ensures frextents == old(frextents) + if isSet then 1 else 0
      ensures !wild ==> Started(inRun', startBmbno', startBit', bmbno, bit + 1, size)
      ensures good ==> !wild && Good(bits, was, k + 1, inRun', FileBit(startBmbno', startBit'))
    {
      inRun', startBmbno', startBit', wild := inRun, startBmbno, startBit, false;
      if isSet {
        if good { CountsSetBit(sumcompute[..], was, levels, width, bits, size, k); }
        frextents := frextents + 1;
        if !inRun {
          inRun', startBmbno', startBit' := true, bmbno, bit;
        }
      } else if inRun {
        Distance(bmbno, startBmbno, size);
        if good { GoodRun(bmbno, bit, startBmbno, startBit, bits, was, k); }
        wild := CountRun(bmbno, bit, startBmbno, startBit);
        inRun' := false;
      } else if good {
        CountsClearBit(sumcompute[..], was, levels, width, bits, size, k, 0);
      }
    }

    /** The bits of a block are those of the file there; all of them, or as many as the bitmap still has. */
    ghost predicate Matches(words: seq<bool>, bits: seq<bool>, bmbno: nat, left: nat) {
      && FileBit(bmbno, Min(|words|, left)) <= |bits| && Fits(|bits|)
      && forall i: nat :: i < Min(|words|, left) ==> bits[FileBit(bmbno, i)] == words[i]
    }

    /** One block, up to its end or the end of the bitmap. */
    method ScanBlock(words: seq<bool>, bmbno: nat, extno: nat, inRun: bool, startBmbno: nat, startBit: nat,
                     ghost good: bool, ghost bits: seq<bool>, ghost was: seq<nat>)
      returns (wild: bool, bit: nat, inRun': bool, startBmbno': nat, startBit': nat)
      requires Geometry() && |words| == size && extno <= rextents
      requires Started(inRun, startBmbno, startBit, bmbno, 0, size)
      requires good ==> Matches(words, bits, bmbno, rextents - extno)
                        && Good(bits, was, bmbno * size, inRun, FileBit(startBmbno, startBit))
      modifies `frextents, sumcompute
      ensures !wild ==> bit == Min(size, rextents - extno) && frextents == old(frextents) + CountFree(words[..bit])
                        && Started(inRun', startBmbno', startBit', bmbno, bit, size)
      ensures good ==> !wild && Good(bits, was, bmbno * size + bit, inRun', FileBit(startBmbno', startBit'))
    {
      hide Good, CountFree, Fits;
      wild, bit, inRun', startBmbno', startBit' := false, 0, inRun, startBmbno, startBit;
      NoBits();
      while bit < size && extno + bit < rextents
        invariant bit <= size && extno + bit <= rextents && frextents == old(frextents) + CountFree(words[..bit])
        invariant Started(inRun', startBmbno', startBit', bmbno, bit, size)
        invariant good ==> Good(bits, was, bmbno * size + bit, inRun', FileBit(startBmbno', startBit'))
      {
        CountFreeStep(words, bit);
        wild, inRun', startBmbno', startBit' :=
          ScanBit(words[bit], bmbno, bit, inRun', startBmbno', startBit', good, bits, was, bmbno * size + bit);
        if wild { return; }
        bit := bit + 1;
      }
    }

    /** The bitmap ends in these blocks. */
    predicate Reached(blocks: seq<Block>) { |Joined(blocks)| > 0 && |Joined(blocks)| >= rextents }

    /** The number of the block it ends in, or of all blocks. */
    function EndBlock(blocks: seq<Block>): (n: nat)
      ensures n <= |blocks| && (n < |blocks| <==> Reached(blocks))
    {
      if blocks == [] then 0
      else
        var front := blocks[..|blocks| - 1];
        if Reached(front) then EndBlock(front) else if Reached(blocks) then |front| else |blocks|
    }

    /** Only a block of bits leads further. */
    lemma ReachedStep(blocks: seq<Block>)
      requires blocks != []
      ensures Reached(blocks) && !Reached(blocks[..|blocks| - 1]) ==> blocks[|blocks| - 1].Bits?
    {}

    lemma {:induction false} EndBlockEnds(blocks: seq<Block>)
      ensures var n := EndBlock(blocks);
              n < |blocks| ==> blocks[n].Bits? && !Reached(blocks[..n]) && Reached(blocks[..n + 1])
    {
      hide Reached;
      if blocks != [] {
        var front := blocks[..|blocks| - 1];
        ReachedStep(blocks);
        if Reached(front) {
          EndBlockEnds(front);
          var n := EndBlock(front);
          assert front[..n] == blocks[..n] && front[..n + 1] == blocks[..n + 1];
        } else if Reached(blocks) {
          assert blocks[..|front| + 1] == blocks;
        }
      }
    }

    lemma {:induction false} EndBlockIs(blocks: seq<Block>, n: nat)
      requires n < |blocks| && !Reached(blocks[..n])
      ensures if Reached(blocks[..n + 1]) then EndBlock(blocks) == n else EndBlock(blocks) > n
      decreases |blocks|
    {
      hide Reached;
      var front := blocks[..|blocks| - 1];
      if n == |front| {
        assert blocks[..n + 1] == blocks;
      } else {
        assert front[..n] == blocks[..n] && front[..n + 1] == blocks[..n + 1];
        EndBlockIs(front, n);
      }
    }

    /** What is still to be read of the bitmap after n blocks. */
    function Left(blocks: seq<Block>, n: nat): (left: nat)
      requires n <= |blocks|
      ensures |Joined(blocks[..n])| <= rextents ==> left == rextents - |Joined(blocks[..n])|
    {
      Max(rextents, |Joined(blocks[..n])|) - |Joined(blocks[..n])|
    }

    /** As many bits of the file are scanned. */
    function End(blocks: seq<Block>): nat {
      var n := EndBlock(blocks);
      FileBit(n, if n < |blocks| then Left(blocks, n) else 0)
    }

    /** The bits that the scan takes for the bitmap, and those it reads. */
    function Seen(blocks: seq<Block>): seq<bool> {
      var all := Filled(blocks, size);
      all[..Min(End(blocks), |all|)]
    }

    function Read(blocks: seq<Block>): seq<bool> {
      var all := Joined(blocks);
      all[..Min(rextents, |all|)]
    }

    /** The blocks the scan comes to can be read. */
    predicate AllRead(blocks: seq<Block>) { Readable(blocks[..Min(EndBlock(blocks) + 1, |blocks|)]) }

    /** Where the bitmap ends, and that the blocks go as far. */
    lemma EndIs(blocks: seq<Block>)
      requires size > 0 && AllSized(blocks, size)
      ensures |Seen(blocks)| == End(blocks) && EndBlock(blocks) * size <= End(blocks)
    {
      hide Filled, Joined, EndBlock, Reached, AllSized;
      FilledLength(blocks, size);
      EndUnfolds(blocks);
      var n := EndBlock(blocks);
      if n < |blocks| {
        JoinedStep(blocks, n);
        BlockSize(blocks, size, n);
        Row(n, |blocks|, size);
      }
    }

    /** A block the scan reads, in the part of the file that it sees. */
    lemma BlockRead(blocks: seq<Block>, n: nat)
      requires Geometry() && AllSized(blocks, size) && n < |blocks| && n <= EndBlock(blocks)
      requires blocks[n].Bits? && Fits(|Seen(blocks)|)
      ensures |Joined(blocks[..n])| <= rextents
      ensures |blocks[n].bits| == size && Matches(blocks[n].bits, Seen(blocks), n, Left(blocks, n))
    {
      hide Filled, Joined, Fits, EndBlock, End;
      EndIs(blocks);
      EndUnfolds(blocks);
      BeforeEnd(blocks, n);
      FilledBlock(blocks, size, n);
      if n < EndBlock(blocks) { Row(n, EndBlock(blocks), size); }
    }

    /** A block it passes over. */
    lemma BlockPassed(blocks: seq<Block>, n: nat)
      requires Geometry() && AllSized(blocks, size) && n < |blocks| && n <= EndBlock(blocks) && !blocks[n].Bits?
      ensures n < EndBlock(blocks) && Steady(Seen(blocks), n * size, size)
    {
      hide Filled, Joined, EndBlock, End, Steady, Geometry, AllSized, Seen;
      EndUnfolds(blocks);
      SizeIs();
      Row(n, EndBlock(blocks), size);
      EndIs(blocks);
      FilledBlock(blocks, size, n);
      SeenIs(blocks);
      SteadyPrefix(Filled(blocks, size), n * size, size, |Seen(blocks)|);
    }

    /** Bits that go on like the one before them leave all counts right. */
    lemma {:induction false} GoodSteady(bits: seq<bool>, was: seq<nat>, k: nat, count: nat, inRun: bool, s: nat)
      requires size > 0 && Good(bits, was, k, inRun, s) && Steady(bits, k, count)
      ensures Good(bits, was, k + count, inRun, s)
      decreases count
    {
      hide Counts;
      if count > 0 {
        if inRun {
          CountsSetBit(sumcompute[..], was, levels, width, bits, size, k);
        } else {
          CountsClearBit(sumcompute[..], was, levels, width, bits, size, k, s);
        }
        GoodSteady(bits, was, k + 1, count - 1, inRun, s);
      }
    }

    lemma GoodStart(bits: seq<bool>, was: seq<nat>)
      requires Geometry() && was == sumcompute[..]
      ensures Good(bits, was, 0, false, 0)
    {
      CountsStart(was, levels, width, bits, size);
    }

    /** A block is passed over: the file goes on as it was, and nothing is read. */
    lemma Passing(blocks: seq<Block>, n: nat)
      requires Geometry() && AllSized(blocks, size) && n < |blocks| && n <= EndBlock(blocks) && !blocks[n].Bits?
      ensures n < EndBlock(blocks) && Joined(blocks[..n + 1]) == Joined(blocks[..n])
      ensures Steady(Seen(blocks), n * size, size) && n * size + size == (n + 1) * size
    {
      hide Joined, EndBlock, Seen, Steady, AllSized;
      BlockPassed(blocks, n);
      JoinedStep(blocks, n);
      assert Joined(blocks[..n]) + [] == Joined(blocks[..n]);
    }

    /** A block is read, to its end or that of the bitmap. */
    lemma Reading(blocks: seq<Block>, n: nat)
      requires Geometry() && AllSized(blocks, size) && n < |blocks| && n <= EndBlock(blocks) && blocks[n].Bits?
      ensures |blocks[n].bits| == size && |Joined(blocks[..n])| <= rextents && n * size + size == (n + 1) * size
      ensures var words, extno := blocks[n].bits, |Joined(blocks[..n])|;
              if extno + size >= rextents then
                && EndBlock(blocks) == n && |Seen(blocks)| == n * size + (rextents - extno)
                && CountFree(Read(blocks)) == CountFree(Joined(blocks[..n])) + CountFree(words[..rextents - extno])
              else
                && EndBlock(blocks) > n && |Joined(blocks[..n + 1])| == extno + size
                && CountFree(Joined(blocks[..n + 1])) == CountFree(Joined(blocks[..n])) + CountFree(words[..size])
    {
      hide Joined, EndBlock, Seen, CountFree, End, Read;
      assert blocks[n] in blocks;
      hide AllSized;
      BeforeEnd(blocks, n);
      JoinedStep(blocks, n);
      EndBlockIs(blocks, n);
      EndUnfolds(blocks);
      EndIs(blocks);
      var words, extno := blocks[n].bits, |Joined(blocks[..n])|;
      if extno + size >= rextents {
        ReadIs(blocks, n);
        CountFreeConcat(Joined(blocks[..n]), words[..rextents - extno]);
      } else {
        assert words[..size] == words;
        CountFreeConcat(Joined(blocks[..n]), words);
      }
    }

    lemma ReadIs(blocks: seq<Block>, n: nat)
      requires n < |blocks| && blocks[n].Bits?
      requires |Joined(blocks[..n])| <= rextents <= |Joined(blocks[..n])| + |blocks[n].bits|
      ensures Read(blocks) == Joined(blocks[..n]) + blocks[n].bits[..rextents - |Joined(blocks[..n])|]
    {
      hide Joined;
      JoinedStep(blocks, n);
      JoinedPrefix(blocks, n + 1);
    }

    /** The blocks run out. */
    lemma RunOut(blocks: seq<Block>)
      requires Geometry() && AllSized(blocks, size) && EndBlock(blocks) == |blocks|
      ensures |Seen(blocks)| == |blocks| * size && Read(blocks) == Joined(blocks[..|blocks|])
    {
      hide Joined, EndBlock, Seen, End, AllSized;
      EndUnfolds(blocks);
      EndIs(blocks);
      BeforeEnd(blocks, |blocks|);
      assert blocks[..|blocks|] == blocks;
    }

    /** Errors are counted in the blocks up to the one in which the bitmap ends. */
    lemma ReadSoFar(blocks: seq<Block>, n: nat)
      requires n <= EndBlock(blocks)
      ensures AllRead(blocks) ==> Readable(blocks[..n])
      ensures n == EndBlock(blocks) && Readable(blocks[..n]) ==> AllRead(blocks)
    {
      hide Readable, EndBlock, End;
      EndUnfolds(blocks);
      var m := Min(EndBlock(blocks) + 1, |blocks|);
      if Readable(blocks[..m]) { ReadablePrefix(blocks, n, m); }
      if n < |blocks| { ReadableStep(blocks, n); }
    }

    lemma Begins(blocks: seq<Block>)
      ensures Joined(blocks[..0]) == [] && CountFree(Joined(blocks[..0])) == 0 && Readable(blocks[..0])
    {}

    /** The blocks, up to the one in which the bitmap ends. */
    method ScanBlocks(blocks: seq<Block>, ghost good: bool, ghost bits: seq<bool>, ghost was: seq<nat>)
      returns (wild: bool, bmbno: int, bit: nat, inRun: bool, startBmbno: nat, startBit: nat)
      requires Geometry() && AllSized(blocks, size) && bits == Seen(blocks) && Good(bits, was, 0, false, 0)
      requires good ==> Fits(|bits|)
      modifies `frextents, `error, sumcompute
      ensures error >= old(error) && (AllRead(blocks) ==> error == old(error))
      ensures !AllRead(blocks) ==> error > old(error) || wild
      ensures !wild ==> frextents == old(frextents) + CountFree(Read(blocks))
      ensures !wild ==> bmbno == (if Reached(blocks) then EndBlock(blocks) else -1) && bit <= size
      ensures !wild && inRun && bmbno >= 0 ==> Started(inRun, startBmbno, startBit, bmbno, bit, size)
      ensures !wild && inRun && bmbno == -1 ==> bit == size && startBit < size
      ensures good ==> !wild && Good(bits, was, |bits|, inRun, FileBit(startBmbno, startBit))
      ensures good && bmbno >= 0 ==> |bits| == FileBit(bmbno, bit)
    {
      hide Good, Seen, EndBlock, Readable, Joined, CountFree, Fits, Read, AllSized, AllRead, Matches, Steady;
      var extno: nat := 0;
      wild, bmbno, bit, inRun, startBmbno, startBit := false, 0, 0, false, 0, 0;
      Begins(blocks);
      while bmbno < |blocks|
        invariant !wild && 0 <= bmbno <= EndBlock(blocks) && bit <= size && (inRun ==> bit == size)
        invariant extno == |Joined(blocks[..bmbno])| <= rextents
        invariant frextents == old(frextents) + CountFree(Joined(blocks[..bmbno]))
        invariant Started(inRun, startBmbno, startBit, bmbno, 0, size)
        invariant error >= old(error) && (error == old(error) <==> Readable(blocks[..bmbno]))
        invariant good ==> Good(bits, was, bmbno * size, inRun, FileBit(startBmbno, startBit))
      {
        ReadableStep(blocks, bmbno);
        ReadSoFar(blocks, bmbno);
        if !blocks[bmbno].Bits? {
          Passing(blocks, bmbno);
          if good { GoodSteady(bits, was, bmbno * size, size, inRun, FileBit(startBmbno, startBit)); }
          if blocks[bmbno].Unreadable? { error := error + 1; }
          bmbno := bmbno + 1;
          continue;
        }
        Reading(blocks, bmbno);
        if good { BlockRead(blocks, bmbno); }
        wild, bit, inRun, startBmbno, startBit :=
          ScanBlock(blocks[bmbno].bits, bmbno, extno, inRun, startBmbno, startBit, good, bits, was);
        if wild { return; }
        extno := extno + bit;
        if extno == rextents { return; }
        bmbno := bmbno + 1;
      }
      RunOut(blocks);
      ReadSoFar(blocks, bmbno);
      bmbno := -1;
    }

    /** The cell of a run that started at bit s and goes on where the blocks run out: then the block number is -1. */
    function CellBeyond(s: nat): int
      requires size > 0
    {
      Offset(Length(-1, size, s / size, s % size), s / size)
    }

    /**
     * process_rtbitmap. With the blocks it comes to readable, and a place in the table for all runs, the summary
     * counts every maximal free run once, by the block it starts in and the logarithm of its length, and frextents
     * every free extent that was read. Holes are no error; they go on like the bit before them. If the blocks run
     * out before the bitmap ends, a run at their end, and no other, is counted in the cell that CellBeyond tells.
     */
    method Process(blocks: seq<Block>) returns (wild: bool)
      requires Geometry() && AllSized(blocks, size)
      modifies `frextents, `error, sumcompute
      ensures if AllRead(blocks) then error == old(error) else error > old(error) || wild
      ensures !wild ==> frextents == old(frextents) + CountFree(Read(blocks))
      ensures AllRead(blocks) && Fits(End(blocks)) ==>
                frextents == old(frextents) + CountFree(Read(blocks))
      ensures AllRead(blocks) && Fits(End(blocks)) && (Reached(blocks) || !EndsFree(Seen(blocks))) ==>
                && !wild
                && forall log: nat, block: nat | log < levels && block < width ::
                     sumcompute[..][At(log, block, levels, width)] ==
                     old(sumcompute[..])[At(log, block, levels, width)] + |Runs(Seen(blocks), size, log, block)|
      ensures AllRead(blocks) && Fits(End(blocks)) && !Reached(blocks) && EndsFree(Seen(blocks)) ==>
                var bits, offs := Seen(blocks), CellBeyond(TailStart(Seen(blocks)));
                && (wild <==> !(0 <= offs < sumcompute.Length))
                && CountsWith(sumcompute[..], old(sumcompute[..]), levels, width, bits, size, |bits|, offs)
    {
      hide Closed, CountFree, Seen, EndBlock, AllRead, At, Read, Joined, AllSized, Fits, End, Reached, CellBeyond;
      EndIs(blocks);
      ghost var bits, was := Seen(blocks), sumcompute[..];
      ghost var good := AllRead(blocks) && Fits(|bits|);
      GoodStart(bits, was);
      var bmbno, bit, inRun, startBmbno, startBit;
      wild, bmbno, bit, inRun, startBmbno, startBit := ScanBlocks(blocks, good, bits, was);
      if wild { return; }
      if good { EndsInRun(bits, inRun, FileBit(startBmbno, startBit)); }
      if inRun {
        wild := LastRun(bmbno, bit, startBmbno, startBit, good, bits, was);
      } else if good {
        CountsClearBit(sumcompute[..], was, levels, width, bits, size, |bits|, 0);
      }
    }

    /** A run that goes on to the end of the bitmap, or to where the blocks run out. */
    method LastRun(bmbno: int, bit: nat, startBmbno: nat, startBit: nat,
                   ghost good: bool, ghost bits: seq<bool>, ghost was: seq<nat>)
      returns (wild: bool)
      requires Geometry() && bmbno >= -1
      requires bmbno >= 0 ==> bit <= size && Started(true, startBmbno, startBit, bmbno, bit, size)
      requires bmbno == -1 ==> bit == size && startBit < size
      requires good ==> Fits(|bits|) && Good(bits, was, |bits|, true, FileBit(startBmbno, startBit))
      requires good && bmbno >= 0 ==> |bits| == FileBit(bmbno, bit)
      modifies sumcompute
      ensures good && bmbno >= 0 ==> !wild && Counts(sumcompute[..], was, levels, width, bits, size, |bits| + 1)
      ensures good && bmbno == -1 ==>
                var offs := CellBeyond(FileBit(startBmbno, startBit));
                && (wild <==> !(0 <= offs < sumcompute.Length))
                && CountsWith(sumcompute[..], was, levels, width, bits, size, |bits|, offs)
    {
      hide Fits, Length, Offset, Counts, CountsWith, Standing;
      ghost var now := sumcompute[..];
      if bmbno == -1 {
        ghost var s := FileBit(startBmbno, startBit);
        Place(startBmbno, startBit, size);
        assert s / size == startBmbno && s % size == startBit;
        ghost var offs := Offset(Length(-1, size, startBmbno, startBit), startBmbno);
        if good { CountsBeyond(now, was, levels, width, bits, size, |bits|, offs); }
      } else {
        Distance(bmbno, startBmbno, size);
        if good { GoodRun(bmbno, bit, startBmbno, startBit, bits, was, |bits|); }
      }
      wild := CountRun(bmbno, bit, startBmbno, startBit);
    }

    /** Where the blocks run out, the length is that of the bits before the run, negated. */
    lemma LengthBeyond(s: nat)
      requires size > 0 && s < 0x8000_0000
      ensures Length(-1, size, s / size, s % size) == 0 - s
    {
      hide Int32;
      var q, r := s / size, s % size;
      assert (-1 - q) * size + (size - r) == 0 - s;
      NotPositive(s);
    }

    lemma NotPositive(s: nat)
      requires s < 0x8000_0000
      ensures Int32(0 - s) == 0 - s
    {}

    /**
     * So the run is counted as if its length had bit 63 set, or in front of the table if it is the whole file. The
     * cell is inside the table if and only if that has more than 63 rows and the run does not start at the first bit.
     */
    lemma CellBeyondIff(s: nat)
      requires size > 0 && s < 0x8000_0000 && s / size < width && 64 * width <= 0x8000_0000
      ensures 0 <= CellBeyond(s) < sumcompute.Length <==> s > 0 && 63 * width + s / size < sumcompute.Length
      ensures CellBeyond(s) == if s == 0 then 0 - width else 63 * width + s / size
    {
      LengthBeyond(s);
      var offs := (if s == 0 then -1 else 63) * width + s / size;
      if s > 0 { Small(offs); } else { NotPositive(width); }
    }

    /** A run so long that its length is negative as an int: it is counted as if it had bit 63 set. */
    lemma LongRun(bmbno: nat, bit: nat, startBmbno: nat, startBit: nat)
      requires FileBit(startBmbno, startBit) + 0x8000_0000 <= FileBit(bmbno, bit)
      requires FileBit(bmbno, bit) < FileBit(startBmbno, startBit) + 0x1_0000_0000
      ensures HighBit(Length(bmbno, bit, startBmbno, startBit)) == 63
    {
      var len := FileBit(bmbno, bit) - FileBit(startBmbno, startBit);
      assert (bmbno - startBmbno) * size + (bit - startBit) == len;
    }

    /** Without holes the file is the bitmap, and the table has a place for every run, if it fits an int. */
    lemma WithoutHoles(blocks: seq<Block>)
      requires Geometry() && AllSized(blocks, size) && AllRead(blocks)
      requires Hole !in blocks[..Min(EndBlock(blocks) + 1, |blocks|)]
      ensures Seen(blocks) == Read(blocks)
      ensures rextents < 0x8000_0000 && levels * width <= 0x8000_0000 ==> Fits(End(blocks))
    {
      EndUnfolds(blocks);
      hide Filled, Joined, EndBlock, Seen, End, Readable, Read;
      var n := EndBlock(blocks);
      if n == |blocks| {
        assert blocks[..n] == blocks;
        RunOutWithoutHoles(blocks);
      } else {
        EndsWithoutHoles(blocks, n);
      }
      if End(blocks) > 0 { Log2Grows(End(blocks), rextents); }
    }

    lemma RunOutWithoutHoles(blocks: seq<Block>)
      requires Geometry() && AllSized(blocks, size) && EndBlock(blocks) == |blocks|
      requires Readable(blocks) && Hole !in blocks
      ensures Seen(blocks) == Read(blocks) && End(blocks) <= rextents
    {
      hide Filled, Joined, EndBlock, End, Readable, Reached, AllSized;
      EndIs(blocks);
      FilledIsJoined(blocks, size);
      FilledLength(blocks, size);
      BeforeEnd(blocks, |blocks|);
      assert blocks[..|blocks|] == blocks;
      EndUnfolds(blocks);
    }

    lemma EndsWithoutHoles(blocks: seq<Block>, n: nat)
      requires Geometry() && AllSized(blocks, size) && EndBlock(blocks) == n < |blocks|
      requires Readable(blocks[..n + 1]) && Hole !in blocks[..n + 1]
      ensures Seen(blocks) == Read(blocks) && End(blocks) == rextents
    {
      hide Filled, Joined, EndBlock, End, Readable, AllSized, Geometry;
      SizeIs();
      EndUnfolds(blocks);
      EndIs(blocks);
      BeforeEnd(blocks, n);
      ReadablePrefix(blocks, n, n + 1);
      assert Hole !in blocks[..n] by { assert forall b <- blocks[..n] :: b in blocks[..n + 1]; }
      SomeJoined(blocks, size, n);
      SomeJoined(blocks, size, n + 1);
      assert End(blocks) == rextents;
      SamePrefix(Filled(blocks, size), Joined(blocks), Joined(blocks[..n + 1]), rextents);
    }

    lemma SizeIs()
      requires Geometry()
      ensures size > 0
    {}

    lemma SeenIs(blocks: seq<Block>)
      ensures |Seen(blocks)| <= |Filled(blocks, size)| && Seen(blocks) == Filled(blocks, size)[..|Seen(blocks)|]
    {}

    lemma EndUnfolds(blocks: seq<Block>)
      ensures var n := EndBlock(blocks);
              && n <= |blocks| && (n < |blocks| ==> blocks[n].Bits? && |Joined(blocks[..n + 1])| >= rextents)
              && End(blocks) == FileBit(n, if n < |blocks| then Left(blocks, n) else 0)
    {
      EndBlockEnds(blocks);
    }

    lemma BeforeEnd(blocks: seq<Block>, n: nat)
      requires n <= EndBlock(blocks)
      ensures !Reached(blocks[..n]) && |Joined(blocks[..n])| <= rextents
    {
      EndBlockEnds(blocks);
      var e := EndBlock(blocks);
      assert e == |blocks| ==> blocks[..e] == blocks;
      JoinedPrefix(blocks[..e], n);
      assert blocks[..e][..n] == blocks[..n];
    }
  }

  /** A number of bits go on like the one before them. */
  ghost predicate Steady(bits: seq<bool>, k: nat, count: nat) {
    k + count <= |bits| && forall i :: k <= i < k + count ==> bits[i] == (k > 0 && bits[k - 1])
  }

  /** In one more block the bits go on, those that are read, and those that are taken for the bitmap. */
  lemma JoinedStep(blocks: seq<Block>, n: nat)
    requires n < |blocks|
    ensures Joined(blocks[..n + 1]) == Joined(blocks[..n]) + BitsOf(blocks[n])
  {
    assert blocks[..n + 1][..n] == blocks[..n];
  }

  lemma {:induction false} JoinedPrefix(blocks: seq<Block>, n: nat)
    requires n <= |blocks|
    ensures Joined(blocks[..n]) <= Joined(blocks)
    decreases |blocks|
  {
    if n == |blocks| {
      assert blocks[..n] == blocks;
    } else {
      JoinedPrefix(blocks[..|blocks| - 1], n);
      assert blocks[..|blocks| - 1][..n] == blocks[..n];
    }
  }

  lemma {:induction false} FilledLength(blocks: seq<Block>, size: nat)
    requires AllSized(blocks, size)
    ensures |Filled(blocks, size)| == |blocks| * size
    decreases |blocks|
  {
    if blocks != [] {
      FilledLength(blocks[..|blocks| - 1], size);
      assert blocks[|blocks| - 1] in blocks;
      assert |blocks| * size == (|blocks| - 1) * size + size;
    }
  }

  lemma {:induction false} FilledPrefix(blocks: seq<Block>, size: nat, n: nat)
    requires n <= |blocks|
    ensures Filled(blocks[..n], size) <= Filled(blocks, size)
    decreases |blocks|
  {
    if n == |blocks| {
      assert blocks[..n] == blocks;
    } else {
      FilledPrefix(blocks[..|blocks| - 1], size, n);
      assert blocks[..|blocks| - 1][..n] == blocks[..n];
    }
  }

  /** The bits of block number n are as in the block, or go on like the bit before them. */
  lemma FilledBlock(blocks: seq<Block>, size: nat, n: nat)
    requires AllSized(blocks, size) && n < |blocks| && size > 0
    ensures |Filled(blocks, size)| == |blocks| * size && n * size + size <= |blocks| * size
    ensures blocks[n].Bits? ==> |blocks[n].bits| == size
    ensures var all, k := Filled(blocks, size), n * size;
            if blocks[n].Bits? then forall i: nat :: i < size ==> all[k + i] == blocks[n].bits[i]
              else Steady(all, k, size)
  {
    assert blocks[n] in blocks;
    FilledLength(blocks, size);
    FilledPrefix(blocks, size, n + 1);
    Row(n, |blocks|, size);
    FilledLast(blocks[..n + 1], size);
    hide Filled;
    var some, all, k := Filled(blocks[..n + 1], size), Filled(blocks, size), n * size;
    assert |some| == k + size && blocks[..n + 1][n] == blocks[n];
    if blocks[n].Bits? {
      forall i: nat | i < size ensures all[k + i] == blocks[n].bits[i] {
        assert some[k + i] == blocks[n].bits[i];
      }
    }
  }

  lemma FilledLast(blocks: seq<Block>, size: nat)
    requires AllSized(blocks, size) && blocks != []
    ensures var n := |blocks| - 1;
            var all, k, last := Filled(blocks, size), n * size, blocks[n];
            && |all| == k + size
            && if last.Bits? then |last.bits| == size && forall i: nat :: i < size ==> all[k + i] == last.bits[i]
               else Steady(all, k, size)
  {
    FilledLength(blocks[..|blocks| - 1], size);
    assert blocks[|blocks| - 1] in blocks;
  }

  lemma BlockSize(blocks: seq<Block>, size: nat, n: nat)
    requires AllSized(blocks, size) && n < |blocks|
    ensures blocks[n].Bits? ==> |blocks[n].bits| == size
  {
    assert blocks[n] in blocks;
  }

  lemma SomeJoined(blocks: seq<Block>, size: nat, n: nat)
    requires AllSized(blocks, size) && n <= |blocks| && Readable(blocks[..n]) && Hole !in blocks[..n]
    ensures Joined(blocks[..n]) <= Filled(blocks, size) && Joined(blocks[..n]) <= Joined(blocks)
    ensures |Joined(blocks[..n])| == n * size
  {
    FilledIsJoined(blocks[..n], size);
    FilledLength(blocks[..n], size);
    FilledPrefix(blocks, size, n);
    JoinedPrefix(blocks, n);
  }

  lemma SamePrefix(a: seq<bool>, b: seq<bool>, some: seq<bool>, n: nat)
    requires some <= a && some <= b && n <= |some|
    ensures a[..n] == b[..n]
  {}

  lemma {:induction false} FilledIsJoined(blocks: seq<Block>, size: nat)
    requires Readable(blocks) && Hole !in blocks
    ensures Filled(blocks, size) == Joined(blocks)
    decreases |blocks|
  {
    if blocks != [] { FilledIsJoined(blocks[..|blocks| - 1], size); }
  }

  lemma SteadyPrefix(bits: seq<bool>, k: nat, count: nat, m: nat)
    requires Steady(bits, k, count) && k + count <= m <= |bits|
    ensures Steady(bits[..m], k, count)
  {}

  /** Where the run at the end of the bits starts. */
  function TailStart(bits: seq<bool>): (s: nat)
    ensures s <= |bits| && (forall i :: s <= i < |bits| ==> bits[i]) && (s > 0 ==> !bits[s - 1])
  {
    if EndsFree(bits) then TailStart(bits[..|bits| - 1]) else |bits|
  }

  lemma EndsInRun(bits: seq<bool>, inRun: bool, s: nat)
    requires Standing(bits, |bits|, inRun, s)
    ensures inRun <==> EndsFree(bits)
    ensures inRun ==> s == TailStart(bits)
  {}

  lemma NoBits()
    ensures CountFree([]) == 0
  {}

  lemma {:induction false} CountFreeConcat(a: seq<bool>, b: seq<bool>)
    ensures CountFree(a + b) == CountFree(a) + CountFree(b)
    decreases |b|
  {
    if b == [] {
      assert a + b == a;
    } else {
      assert (a + b)[..|a + b| - 1] == a + b[..|b| - 1];
      CountFreeConcat(a, b[..|b| - 1]);
    }
  }

  lemma ReadableStep(blocks: seq<Block>, n: nat)
    requires n < |blocks|
    ensures Readable(blocks[..n + 1]) <==> Readable(blocks[..n]) && !blocks[n].Unreadable?
  {
    assert blocks[..n + 1] == blocks[..n] + [blocks[n]];
  }

  lemma ReadablePrefix(blocks: seq<Block>, n: nat, m: nat)
    requires n <= m <= |blocks| && Readable(blocks[..m])
    ensures Readable(blocks[..n])
  {
    assert forall b <- blocks[..n] :: b in blocks[..m];
  }

  lemma CountFreeStep(bits: seq<bool>, k: nat)
    requires k < |bits|
    ensures CountFree(bits[..k + 1]) == CountFree(bits[..k]) + (if bits[k] then 1 else 0)
  {
    assert bits[..k + 1][..k] == bits[..k];
  }

  /** A run that is being followed started before the given bit. */
  predicate Started(inRun: bool, startBmbno: nat, startBit: nat, bmbno: nat, bit: nat, size: nat) {
    inRun ==> (startBmbno < bmbno && startBit < size) || (startBmbno == bmbno && startBit < bit)
  }

  ghost predicate AllSized(blocks: seq<Block>, size: nat) { forall b <- blocks :: b.Bits? ==> |b.bits| == size }

  /** A bitmap of three bits whose second block is missing from the file: its last run has no cell in the table. */
  method CountRunsOut() returns (wild: bool)
    ensures wild
  {
    var blocks := [Bits([false, true])];
    var summary := new Summary(2, 3, 2, 2, 4);
    OneBlock(summary, blocks[0]);
    summary.CellBeyondIff(1);
    wild := summary.Process(blocks);
  }

  /** The same in a table of 64 rows: the run of one extent is counted in the last row, and not in the first. */
  method CountInLastRow() returns (wild: bool, errors: nat, ofOne: nat, ofMost: nat)
    ensures !wild && errors == 0 && ofOne == 0 && ofMost == 1
  {
    hide CountsWith, Log2, TailStart, Summary.CellBeyond, Summary.Seen, Summary.End, Summary.Fits, Summary.AllRead;
    hide Summary.Reached;
    var blocks := [Bits([false, true])];
    assert Log2(3) == 1 by { Log2OfThree(); }
    var summary := new Summary(2, 3, 64, 2, 128);
    ghost var was := summary.sumcompute[..];
    OneBlock(summary, blocks[0]);
    summary.CellBeyondIff(1);
    wild := summary.Process(blocks);
    TwoCells(summary.sumcompute[..], was);
    errors, ofOne, ofMost := summary.error, summary.sumcompute[0], summary.sumcompute[126];
  }

  lemma Log2OfThree()
    ensures Log2(3) == 1
  {}

  lemma CellWith(now: seq<nat>, was: seq<nat>, levels: nat, width: nat, bits: seq<bool>, size: nat, k: nat,
                 offs: int, log: nat, block: nat)
    requires size > 0 && CountsWith(now, was, levels, width, bits, size, k, offs) && log < levels && block < width
    ensures var i := log * width + block;
            && 0 <= i < |now| == |was|
            && now[i] == was[i] + |Closed(bits, size, k, log, block)| + if i == offs then 1 else 0
  {
    hide Closed;
    assert At(log, block, levels, width) == log * width + block;
  }

  lemma TwoCells(now: seq<nat>, was: seq<nat>)
    requires |was| == 128 && was[0] == was[126] == 0 && CountsWith(now, was, 64, 2, [false, true], 2, 2, 126)
    ensures now[0] == 0 && now[126] == 1
  {
    hide CountsWith;
    CellWith(now, was, 64, 2, [false, true], 2, 2, 126, 0, 0);
    CellWith(now, was, 64, 2, [false, true], 2, 2, 126, 63, 0);
    NoneClosed(0);
    NoneClosed(63);
  }

  lemma NoneClosed(log: nat)
    ensures |Closed([false, true], 2, 2, log, 0)| == 0
  {
    assert RunEnd([false, true], 1) == 2;
    assert Closed([false, true], 2, 2, log, 0) == {};
  }

  lemma OneBlock(summary: Summary, b: Block)
    requires summary.size == 2 && summary.rextents == 3 && 2 <= summary.levels <= 64 && summary.width == 2
    requires b == Bits([false, true])
    ensures summary.AllRead([b]) && summary.Fits(summary.End([b])) && !summary.Reached([b])
    ensures summary.Seen([b]) == [false, true] && TailStart([false, true]) == 1
  {
    assert [b][..0] == [];
    assert Filled([b], 2) == [false, true] == Joined([b]);
    assert summary.End([b]) == 2;
  }

  /**
   * Four bits in two blocks, and a hole between them: where there is a run of two free extents, one of four is
   * counted, and there is no error.
   */
  method CountOverHole() returns (wild: bool, errors: nat, ofTwo: nat, ofFour: nat)
    ensures !wild && errors == 0 && ofTwo == 0 && ofFour == 1
  {
    var blocks := [Bits([false, true]), Hole, Bits([true, false])];
    var summary := new Summary(2, 4, 3, 3, 9);
    HoleBetween(summary, blocks);
    OneRun();
    wild := summary.Process(blocks);
    errors, ofTwo, ofFour := summary.error, summary.sumcompute[3], summary.sumcompute[6];
    assert At(1, 0, 3, 3) == 3 && At(2, 0, 3, 3) == 6;
  }

  lemma HoleBetween(summary: Summary, blocks: seq<Block>)
    requires summary.size == 2 && summary.rextents == 4 && summary.levels == 3 && summary.width == 3
    requires blocks == [Bits([false, true]), Hole, Bits([true, false])]
    ensures summary.AllRead(blocks) && summary.Fits(summary.End(blocks)) && summary.Reached(blocks)
    ensures summary.Seen(blocks) == [false, true, true, true, true, false]
  {
    hide Filled, Joined, Log2;
    HoleFilled(blocks);
    assert summary.EndBlock(blocks) == 2;
    assert Log2(6) == 2 by { Log2OfSix(); }
  }

  lemma Log2OfSix()
    ensures Log2(6) == 2
  {}

  lemma HoleFilled(blocks: seq<Block>)
    requires blocks == [Bits([false, true]), Hole, Bits([true, false])]
    ensures Filled(blocks, 2) == [false, true, true, true, true, false]
    ensures Joined(blocks) == [false, true, true, false] && Joined(blocks[..2]) == [false, true]
  {
    var one, two := [blocks[0]], [blocks[0], Hole];
    assert one[..0] == [] && two[..1] == one && blocks[..2] == two;
    assert Filled(one, 2) == [false, true] == Joined(one);
    assert Filled(two, 2) == [false, true, true, true] && Joined(two) == [false, true];
  }

  lemma OneRun()
    ensures var bits := [false, true, true, true, true, false];
            |Runs(bits, 2, 1, 0)| == 0 && |Runs(bits, 2, 2, 0)| == 1
  {
    var bits := [false, true, true, true, true, false];
    assert RunEnd(bits, 5) == 5 && RunEnd(bits, 3) == 5 && RunEnd(bits, 1) == 5;
    assert Log2(4) == 2;
    assert Runs(bits, 2, 1, 0) == {};
    assert Runs(bits, 2, 2, 0) == {1};
  }
}
