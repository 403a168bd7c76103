/** Which bytes xfs_copy copies for an allocation group, given the AG's free extents. */
module CopyCoverage {

  import opened Basics

  /** Bytes read into the buffer and written to every target. */
  datatype Range = Range(position: nat, length: nat)

  /** A free extent, in basic blocks of 512 bytes. */
  datatype Free = Free(start: nat, count: nat) {
    function End(): nat { start + count }
  }

  const BB := 512

  const TWO64 := 0x1_0000_0000_0000_0000

  function Mod64(x: int): nat { x % 0x1_0000_0000_0000_0000 }

  function RoundDown(x: nat, y: nat): nat
    requires y > 0
  {
    x / y * y
  }

  /** The roundup macro on unsigned 64-bit operands. */
  function RoundUp(x: nat, y: nat): nat
    requires y > 0
  {
    RoundDown(Mod64(x + (y - 1)), y)
  }

  lemma RoundDownIs(x: nat, y: nat)
    requires y > 0
    ensures RoundDown(x, y) <= x < RoundDown(x, y) + y && RoundDown(x, y) % y == 0
  {
    MulMod(x / y, y);
  }

  lemma ModSum(a: int, b: int, y: nat)
    requires y > 0 && a % y == 0 && b % y == 0
    ensures (a + b) % y == 0 && (a - b) % y == 0
  {
    var p, q := a / y, b / y;
    assert a + b == (p + q) * y && a - b == (p - q) * y;
    MulMod(p + q, y);
    MulMod(p - q, y);
  }

  lemma Mod64Is(x: int)
    ensures 0 <= x < TWO64 ==> Mod64(x) == x
    ensures -TWO64 <= x < 0 ==> Mod64(x) == x + TWO64
    ensures TWO64 <= x < 2 * TWO64 ==> Mod64(x) == x - TWO64
  {}

  /** A small negative number, times 512. */
  lemma Mod64OfProduct(k: nat)
    requires 0 < k && k * BB < TWO64
    ensures Mod64((TWO64 - k) * BB) == TWO64 - k * BB
  {
    assert (TWO64 - k) * BB == 511 * TWO64 + (TWO64 - k * BB);
  }

  lemma RoundUpIs(x: nat, y: nat)
    requires 0 < y && x + y <= TWO64
    ensures x <= RoundUp(x, y) < x + y && RoundUp(x, y) % y == 0
  {
    hide Mod64;
    Mod64Is(x + (y - 1));
    RoundDownIs(x + (y - 1), y);
  }

  /** Bytes from begin to start, in the code's unsigned arithmetic. */
  function SizeTo(begin: nat, start: nat, minIo: nat): nat
    requires minIo > 0
  {
    RoundUp(Mod64(Mod64(start - begin) * BB), minIo)
  }

  /**
   * A start before begin wraps around twice: first to a huge size, and then, if it lies less than one
   * I/O unit back, to none at all.
   */
  lemma SizeToIs(begin: nat, start: nat, minIo: nat)
    requires 0 < minIo < 0x1_0000_0000 && begin < 0x40_0000_0000_0000 && start < 0x40_0000_0000_0000
    ensures begin <= start ==>
              var bytes := (start - begin) * BB;
              bytes <= SizeTo(begin, start, minIo) < bytes + minIo && SizeTo(begin, start, minIo) % minIo == 0
    ensures start < begin && (begin - start) * BB < minIo ==> SizeTo(begin, start, minIo) == 0
    ensures start < begin && (begin - start) * BB >= minIo ==> SizeTo(begin, start, minIo) > 0x4000_0000_0000_0000
  {
    hide Mod64, RoundUp;
    Mod64Is(start - begin);
    if begin <= start {
      Mod64Is((start - begin) * BB);
      RoundUpIs((start - begin) * BB, minIo);
    } else {
      var k := begin - start;
      Mod64OfProduct(k);
      if k * BB < minIo {
        RoundUpWraps(TWO64 - k * BB, minIo);
      } else {
        RoundUpIs(TWO64 - k * BB, minIo);
      }
    }
  }

  lemma RoundUpWraps(x: nat, y: nat)
    requires 0 < y && x < TWO64 < x + y && y < 0x1_0000_0000
    ensures RoundUp(x, y) == 0
  {
    hide Mod64;
    Mod64Is(x + (y - 1));
  }

  /** The bytes of a range, read and written in full buffers and what is left. */
  function Chunks(position: nat, size: nat, full: nat): seq<Range>
    requires full > 0
    decreases size
  {
    if size == 0 then []
    else if size > full then [Range(position, full)] + Chunks(position + full, size - full, full)
    else [Range(position, size)]
  }

  predicate Covers(r: Range, byte: nat) { r.position <= byte < r.position + r.length }

  ghost predicate Copied(rs: seq<Range>, byte: nat) {
    exists i :: 0 <= i < |rs| && Covers(rs[i], byte)
  }

  predicate Fits(r: Range, minIo: nat, full: nat)
    requires minIo > 0
  {
    r.position % minIo == 0 && r.length % minIo == 0 && 0 < r.length <= full
  }

  ghost predicate AllFit(rs: seq<Range>, minIo: nat, full: nat)
    requires minIo > 0
  {
    forall r <- rs :: Fits(r, minIo, full)
  }

  lemma CopiedConcat(a: seq<Range>, b: seq<Range>, byte: nat)
    ensures Copied(a + b, byte) <==> Copied(a, byte) || Copied(b, byte)
  {
    if i :| 0 <= i < |a| && Covers(a[i], byte) {
      assert (a + b)[i] == a[i];
    }
    if i :| 0 <= i < |b| && Covers(b[i], byte) {
      assert (a + b)[|a| + i] == b[i];
    }
  }

  lemma {:induction false} ChunksCover(position: nat, size: nat, full: nat, byte: nat)
    requires full > 0
    ensures Copied(Chunks(position, size, full), byte) <==> position <= byte < position + size
    decreases size
  {
    if size > full {
      ChunksCover(position + full, size - full, full, byte);
      CopiedConcat([Range(position, full)], Chunks(position + full, size - full, full), byte);
      assert Covers([Range(position, full)][0], byte) <==> position <= byte < position + full;
    } else if size > 0 {
      assert Covers([Range(position, size)][0], byte) <==> position <= byte < position + size;
    }
  }

  lemma {:induction false} ChunksFit(position: nat, size: nat, full: nat, minIo: nat)
    requires minIo > 0 && full > 0
    requires position % minIo == 0 && size % minIo == 0 && full % minIo == 0
    ensures AllFit(Chunks(position, size, full), minIo, full)
    decreases size
  {
    if size > full {
      ModSum(position, full, minIo);
      ModSum(size, full, minIo);
      ChunksFit(position + full, size - full, full, minIo);
    }
  }

  /** What stays fixed while one allocation group is copied; an I/O unit is `unit` basic blocks. */
  datatype Group = Group(unit: nat, full: nat, agBegin: nat, agEnd: nat) {
    function MinIo(): nat { unit * BB }

    predicate Valid() {
      && 0 < MinIo() < 0x1_0000_0000 && full > 0 && full % MinIo() == 0
      && agBegin < 0x40_0000_0000_0000 && agEnd < 0x40_0000_0000_0000
      && agBegin % unit == 0
    }

    /** Where the copy of the blocks before a free extent starts. */
    function Begin(next: nat): nat { if next < agBegin then agBegin else next }

    /** The next copy starts at the end of a free extent, rounded down to an I/O unit. */
    function NextBegin(f: Free): nat
      requires Valid()
    {
      RoundDown(f.End(), unit)
    }

    /** The chunks copied before the free extent f. */
    function Before(next: nat, f: Free): seq<Range>
      requires Valid()
    {
      Chunks(Begin(next) * BB, SizeTo(Begin(next), f.start, MinIo()), full)
    }

    /** The chunks copied after the last free extent; the start of the group's data is not a bound here. */
    function Tail(next: nat): seq<Range>
      requires Valid()
    {
      if next < agEnd then Chunks(next * BB, SizeTo(next, agEnd, MinIo()), full) else []
    }

    function Copies(next: nat, frees: seq<Free>): seq<Range>
      requires Valid()
      decreases |frees|
    {
      if frees == [] then Tail(next) else Before(next, frees[0]) + Copies(NextBegin(frees[0]), frees[1..])
    }

    /**
     * Free extents in order, none overlapping, from the given block on, and inside the group. The first
     * may begin inside the last I/O unit of the header buffer, which is longer than the header.
     */
    ghost predicate Ordered(from: nat, frees: seq<Free>)
      requires Valid()
      decreases frees
    {
      frees == [] ||
      (&& from <= frees[0].start && agBegin < frees[0].start + unit && frees[0].End() <= agEnd
       && Ordered(frees[0].End(), frees[1..]))
    }
  }

  ghost predicate IsFree(frees: seq<Free>, byte: nat) {
    exists f <- frees :: f.start * BB <= byte < f.End() * BB
  }

  /** Inside free space, but less than one I/O unit from one of its ends. */
  ghost predicate NearTheEdge(frees: seq<Free>, byte: nat, minIo: nat) {
    forall f <- frees :: f.start * BB <= byte < f.End() * BB ==>
      byte < f.start * BB + minIo || f.End() * BB < byte + minIo
  }

  lemma {:induction false} LaterStarts(g: Group, from: nat, frees: seq<Free>)
    requires g.Valid() && g.Ordered(from, frees)
    ensures forall f <- frees :: from <= f.start
    decreases frees
  {
    if frees != [] {
      LaterStarts(g, frees[0].End(), frees[1..]);
      forall f <- frees ensures from <= f.start {
        if f != frees[0] { assert f in frees[1..]; }
      }
    }
  }

  /** Where copying goes on after free space that ended at `from`: on a unit, less than one unit back. */
  predicate StartsAt(g: Group, next: nat, from: nat)
    requires g.Valid()
  {
    (next <= from || next == g.agBegin) && from < next + g.unit && next % g.unit == 0
  }

  lemma NextStarts(g: Group, f: Free)
    requires g.Valid()
    ensures StartsAt(g, g.NextBegin(f), f.End())
  {
    RoundDownIs(f.End(), g.unit);
  }

  lemma Scaled(k: nat, unit: nat)
    requires unit > 0 && k % unit == 0
    ensures k * BB % (unit * BB) == 0
  {
    var q := k / unit;
    assert k == q * unit;
    assert k * BB == q * (unit * BB);
    MulMod(q, unit * BB);
  }

  /** One stretch of copying: what it covers, and that its chunks are all within the buffer. */
  lemma StretchIs(g: Group, begin: nat, end: nat, byte: nat)
    requires g.Valid() && begin % g.unit == 0
    requires begin < 0x40_0000_0000_0000 && end < 0x40_0000_0000_0000 && begin < end + g.unit
    ensures var rs := Chunks(begin * BB, SizeTo(begin, end, g.MinIo()), g.full);
            && AllFit(rs, g.MinIo(), g.full)
            && (Copied(rs, byte) ==> begin * BB <= byte < end * BB + g.MinIo())
            && (begin * BB <= byte < end * BB ==> Copied(rs, byte))
  {
    hide SizeTo, Chunks, Copied, AllFit;
    SizeToIs(begin, end, g.MinIo());
    Scaled(begin, g.unit);
    var size := SizeTo(begin, end, g.MinIo());
    ChunksCover(begin * BB, size, g.full, byte);
    ChunksFit(begin * BB, size, g.full, g.MinIo());
  }

  lemma FitConcat(a: seq<Range>, b: seq<Range>, minIo: nat, full: nat)
    requires minIo > 0 && AllFit(a, minIo, full) && AllFit(b, minIo, full)
    ensures AllFit(a + b, minIo, full)
  {}

  lemma BeforeIs(g: Group, next: nat, from: nat, frees: seq<Free>, byte: nat)
    requires g.Valid() && frees != [] && g.Ordered(from, frees) && StartsAt(g, next, from)
    ensures AllFit(g.Before(next, frees[0]), g.MinIo(), g.full)
    ensures Copied(g.Before(next, frees[0]), byte) ==>
              g.Begin(next) * BB <= byte < frees[0].start * BB + g.MinIo()
    ensures g.Begin(next) * BB <= byte < frees[0].start * BB ==> Copied(g.Before(next, frees[0]), byte)
  {
    hide AllFit, Copied, SizeTo, Chunks;
    StretchIs(g, g.Begin(next), frees[0].start, byte);
  }

  lemma TailIs(g: Group, next: nat, from: nat, byte: nat)
    requires g.Valid() && StartsAt(g, next, from)
    ensures AllFit(g.Tail(next), g.MinIo(), g.full)
    ensures Copied(g.Tail(next), byte) ==> next * BB <= byte < g.agEnd * BB + g.MinIo() && next < g.agEnd
    ensures next * BB <= byte < g.agEnd * BB ==> Copied(g.Tail(next), byte)
  {
    hide SizeTo, Chunks;
    if next < g.agEnd {
      StretchIs(g, next, g.agEnd, byte);
    }
  }

  lemma {:induction false} CopiesFit(g: Group, next: nat, from: nat, frees: seq<Free>)
    requires g.Valid() && g.Ordered(from, frees) && StartsAt(g, next, from)
    ensures AllFit(g.Copies(next, frees), g.MinIo(), g.full)
    decreases |frees|
  {
    hide AllFit, Copied, SizeTo, Chunks;
    if frees == [] {
      TailIs(g, next, from, 0);
    } else {
      var f := frees[0];
      BeforeIs(g, next, from, frees, 0);
      NextStarts(g, f);
      CopiesFit(g, g.NextBegin(f), f.End(), frees[1..]);
      FitConcat(g.Before(next, f), g.Copies(g.NextBegin(f), frees[1..]), g.MinIo(), g.full);
    }
  }

  lemma {:induction false} CopiesCover(g: Group, next: nat, from: nat, frees: seq<Free>, byte: nat)
    requires g.Valid() && g.Ordered(from, frees) && StartsAt(g, next, from)
    requires g.agBegin * BB <= byte < g.agEnd * BB && from * BB <= byte && !IsFree(frees, byte)
    ensures Copied(g.Copies(next, frees), byte)
    decreases |frees|
  {
    hide AllFit, Copied, SizeTo, Chunks;
    if frees == [] {
      TailIs(g, next, from, byte);
    } else {
      var f := frees[0];
      CopiedConcat(g.Before(next, f), g.Copies(g.NextBegin(f), frees[1..]), byte);
      if byte < f.start * BB {
        BeforeIs(g, next, from, frees, byte);
      } else {
        assert f in frees;
        NextStarts(g, f);
        CopiesCover(g, g.NextBegin(f), f.End(), frees[1..], byte);
      }
    }
  }

  lemma {:induction false} CopiesNear(g: Group, next: nat, from: nat, frees: seq<Free>, byte: nat)
    requires g.Valid() && g.Ordered(from, frees) && StartsAt(g, next, from)
    requires Copied(g.Copies(next, frees), byte)
    ensures from * BB < byte + g.MinIo() && NearTheEdge(frees, byte, g.MinIo())
    ensures byte < g.agEnd * BB + g.MinIo()
    decreases |frees|
  {
    hide AllFit, Copied, SizeTo, Chunks;
    if frees == [] {
      TailIs(g, next, from, byte);
    } else {
      var f := frees[0];
      CopiedConcat(g.Before(next, f), g.Copies(g.NextBegin(f), frees[1..]), byte);
      BeforeIs(g, next, from, frees, byte);
      LaterStarts(g, from, frees);
      if Copied(g.Before(next, f), byte) {
        LaterStarts(g, f.End(), frees[1..]);
      } else {
        NextStarts(g, f);
        CopiesNear(g, g.NextBegin(f), f.End(), frees[1..], byte);
      }
      forall h <- frees | h.start * BB <= byte < h.End() * BB
        ensures byte < h.start * BB + g.MinIo() || h.End() * BB < byte + g.MinIo()
      {
        if h != f { assert h in frees[1..]; }
      }
    }
  }

  /** Where the copy after the last free extent starts. */
  function LastStart(g: Group, next: nat, frees: seq<Free>): nat
    requires g.Valid()
  {
    if frees == [] then next else g.NextBegin(frees[|frees| - 1])
  }

  lemma {:induction false} CopiesBelow(g: Group, next: nat, from: nat, frees: seq<Free>, byte: nat)
    requires g.Valid() && g.Ordered(from, frees) && StartsAt(g, next, from)
    ensures var last := LastStart(g, next, frees);
            && (Copied(g.Copies(next, frees), byte) && byte < g.agBegin * BB ==> last * BB <= byte && last < g.agEnd)
            && (byte == last * BB && last < g.agEnd ==> Copied(g.Copies(next, frees), byte))
    decreases |frees|
  {
    hide AllFit, Copied, SizeTo, Chunks;
    if frees == [] {
      TailIs(g, next, from, byte);
    } else {
      var f := frees[0];
      CopiedConcat(g.Before(next, f), g.Copies(g.NextBegin(f), frees[1..]), byte);
      BeforeIs(g, next, from, frees, byte);
      NextStarts(g, f);
      CopiesBelow(g, g.NextBegin(f), f.End(), frees[1..], byte);
    }
  }

  /**
   * Every byte of the group past the header buffer that is not free is copied. Of the free space at most
   * the ends are copied with it, less than one I/O unit at each, and less than one unit behind the end of the
   * group. Every read fits the buffer and is aligned.
   */
  lemma GroupIsCopied(g: Group, frees: seq<Free>)
    requires g.Valid() && g.Ordered(0, frees)
    ensures AllFit(g.Copies(g.agBegin, frees), g.MinIo(), g.full)
    ensures forall byte: nat :: g.agBegin * BB <= byte < g.agEnd * BB && !IsFree(frees, byte) ==>
              Copied(g.Copies(g.agBegin, frees), byte)
    ensures forall byte: nat :: Copied(g.Copies(g.agBegin, frees), byte) ==>
              NearTheEdge(frees, byte, g.MinIo()) && byte < g.agEnd * BB + g.MinIo()
  {
    hide AllFit, Copied, SizeTo, Chunks, IsFree, NearTheEdge;
    CopiesFit(g, g.agBegin, 0, frees);
    forall byte: nat | g.agBegin * BB <= byte < g.agEnd * BB && !IsFree(frees, byte)
      ensures Copied(g.Copies(g.agBegin, frees), byte)
    {
      CopiesCover(g, g.agBegin, 0, frees, byte);
    }
    forall byte: nat | Copied(g.Copies(g.agBegin, frees), byte)
      ensures NearTheEdge(frees, byte, g.MinIo()) && byte < g.agEnd * BB + g.MinIo()
    {
      CopiesNear(g, g.agBegin, 0, frees, byte);
    }
  }

  /**
   * Only the last copy lacks the guard that keeps a copy from starting inside the header buffer. It
   * rewrites the end of that buffer exactly when the last free extent ends, rounded down, before it does.
   */
  lemma HeaderIsRewrittenIff(g: Group, frees: seq<Free>)
    requires g.Valid() && g.Ordered(0, frees)
    ensures (exists byte: nat :: byte < g.agBegin * BB && Copied(g.Copies(g.agBegin, frees), byte)) <==>
            frees != [] && g.NextBegin(frees[|frees| - 1]) < g.agBegin && g.NextBegin(frees[|frees| - 1]) < g.agEnd
  {
    hide AllFit, Copied, SizeTo, Chunks;
    var last := LastStart(g, g.agBegin, frees);
    if byte: nat :| byte < g.agBegin * BB && Copied(g.Copies(g.agBegin, frees), byte) {
      CopiesBelow(g, g.agBegin, 0, frees, byte);
    }
    if last < g.agBegin && last < g.agEnd {
      CopiesBelow(g, g.agBegin, 0, frees, last * BB);
    }
  }

  /**
   * That happens: I/O units of 16 basic blocks, of which the header buffer is one, and a free extent of four
   * blocks inside it. The copy after that extent starts at the first byte of the header.
   */
  lemma HeaderIsRewritten(full: nat)
    requires full > 0 && full % (16 * BB) == 0
    ensures var g, frees := Group(16, full, 16, 100), [Free(8, 4)];
            g.Valid() && g.Ordered(0, frees) && Copied(g.Copies(g.agBegin, frees), 0)
  {
    hide Copied, SizeTo, Chunks;
    var g, frees := Group(16, full, 16, 100), [Free(8, 4)];
    assert g.Ordered(12, frees[1..]);
    assert g.NextBegin(frees[0]) == 0;
    CopiesBelow(g, 16, 0, frees, 0);
  }

  function Flat(leaves: seq<seq<Free>>): seq<Free> {
    if leaves == [] then [] else leaves[0] + Flat(leaves[1..])
  }

  /** What read_wbuf makes of a request: whole I/O units around it. */
  function Aligned(r: Range, minIo: nat): Range
    requires minIo > 0
  {
    var start := RoundDown(r.position, minIo);
    var length := r.length + (r.position - start);
    Range(start, if length % minIo == 0 then length else RoundUp(length, minIo))
  }

  lemma AlignedIs(r: Range, minIo: nat)
    requires 0 < minIo && r.length + 2 * minIo <= TWO64
    ensures var a := Aligned(r, minIo);
            && a.position % minIo == 0 && a.length % minIo == 0
            && a.position <= r.position < a.position + minIo
            && r.position + r.length <= a.position + a.length < r.position + r.length + minIo
    ensures r.position % minIo == 0 && r.length % minIo == 0 ==> Aligned(r, minIo) == r
  {
    RoundDownIs(r.position, minIo);
    var start := RoundDown(r.position, minIo);
    RoundUpIs(r.length + (r.position - start), minIo);
    if r.position % minIo == 0 {
      assert r.position == r.position / minIo * minIo;
    }
  }

  predicate Multiple(x: nat, m: nat) { m > 0 && x % m == 0 }

  lemma MultipleSum(a: nat, b: nat, m: nat)
    requires Multiple(a, m) && Multiple(b, m)
    ensures Multiple(a + b, m) && (a >= b ==> Multiple(a - b, m))
  {
    ModSum(a, b, m);
  }

  lemma AlignedAlready(r: Range, minIo: nat)
    requires Multiple(r.position, minIo) && Multiple(r.length, minIo)
    ensures Aligned(r, minIo) == r
  {
    RoundDownIs(r.position, minIo);
    assert r.position == r.position / minIo * minIo;
  }

  /** The start and the size of a stretch are whole I/O units. */
  lemma StretchStarts(g: Group, begin: nat, end: nat)
    requires g.Valid() && begin % g.unit == 0
    requires begin < 0x40_0000_0000_0000 && end < 0x40_0000_0000_0000 && begin < end + g.unit
    ensures Multiple(begin * BB, g.MinIo()) && Multiple(SizeTo(begin, end, g.MinIo()), g.MinIo())
  {
    hide SizeTo;
    SizeToIs(begin, end, g.MinIo());
    Scaled(begin, g.unit);
  }

  class Copier {
    const unit: nat
    const full: nat
    var position: nat
    var length: nat
    var written: seq<Range>

    constructor (unit: nat, full: nat)
      ensures this.unit == unit && this.full == full && written == []
    {
      this.unit := unit;
      this.full := full;
      position, length, written := 0, 0, [];
    }

    function MinIo(): nat { unit * BB }

    predicate Geometry() {
      0 < MinIo() < 0x1_0000_0000 && 0 < full < 0x1_0000_0000 && Multiple(full, MinIo())
    }

    lemma Full()
      requires Geometry()
      ensures full > 0
    {}

    /** Align the request in the buffer and read it; false where the program aborts. */
    method ReadWbuf() returns (ok: bool)
      requires MinIo() > 0
      modifies `position, `length
      ensures Range(position, length) == Aligned(Range(old(position), old(length)), MinIo())
      ensures ok <==> length <= full
    {
      var newpos := position / MinIo() * MinIo();
      RoundDownIs(position, MinIo());
      if newpos != position {
        var diff := position - newpos;
        position := newpos;
        length := length + diff;
      }
      if length % MinIo() != 0 {
        length := RoundUp(length, MinIo());
      }
      ok := length <= full;
    }

    method WriteWbuf()
      modifies `written
      ensures written == old(written) + [Range(position, length)]
    {
      written := written + [Range(position, length)];
    }

    /** One chunk of a stretch with `size` bytes left; aligned requests never reach the abort. */
    method CopyChunk(size: nat) returns (left: nat)
      requires Geometry()
      requires Multiple(position, MinIo()) && Multiple(size, MinIo()) && size > 0
      modifies `position, `length, `written
      ensures var n := if size > full then full else size;
              && left == size - n && position == old(position) + n
              && written == old(written) + [Range(old(position), n)]
      ensures Multiple(position, MinIo()) && Multiple(left, MinIo())
    {
      hide Aligned, MinIo, Multiple;
      MultipleSum(size, full, MinIo());
      MultipleSum(size, size, MinIo());
      if size > full {
        length := full;
        left := size - full;
      } else {
        length := size;
        left := 0;
      }
      AlignedAlready(Range(position, length), MinIo());
      MultipleSum(position, length, MinIo());
      var fits := ReadWbuf();
      assert fits;
      WriteWbuf();
      position := position + length;
    }

    /** One stretch, chunk by chunk. */
    method CopyStretch(begin: nat, bytes: nat)
      requires Geometry() && Multiple(begin * BB, MinIo()) && Multiple(bytes, MinIo())
      modifies `position, `length, `written
      ensures written == old(written) + Chunks(begin * BB, bytes, full)
    {
      hide MinIo, Multiple, Geometry;
      Full();
      var size := bytes;
      if size > 0 {
        position := begin * BB;
        while size > 0
          invariant Multiple(position, MinIo()) && Multiple(size, MinIo())
          invariant written + Chunks(position, size, full) == old(written) + Chunks(begin * BB, bytes, full)
        {
          hide Chunks;
          ghost var before, at, rest := written, position, size;
          size := CopyChunk(size);
          ChunkStep(before, at, rest, full);
        }
      }
    }

    function GroupOf(agBegin: nat, agEnd: nat): Group { Group(unit, full, agBegin, agEnd) }

    /** The records of one leaf, in order; `rest` are the free extents of the leaves after it. */
    method CopyLeaf(g: Group, next: nat, ghost from: nat, leaf: seq<Free>, ghost rest: seq<Free>)
      returns (nextBegin: nat, ghost freeTo: nat)
      requires g.Valid() && g.unit == unit && g.full == full && full < 0x1_0000_0000
      requires g.Ordered(from, leaf + rest) && StartsAt(g, next, from)
      modifies `position, `length, `written
      ensures g.Ordered(freeTo, rest) && StartsAt(g, nextBegin, freeTo)
      ensures written + g.Copies(nextBegin, rest) == old(written) + g.Copies(next, leaf + rest)
    {
      hide SizeTo, Chunks;
      nextBegin, freeTo := next, from;
      assert leaf[0..] == leaf;
      for i := 0 to |leaf|
        invariant g.Ordered(freeTo, leaf[i..] + rest) && StartsAt(g, nextBegin, freeTo)
        invariant written + g.Copies(nextBegin, leaf[i..] + rest) == old(written) + g.Copies(next, leaf + rest)
      {
        ghost var left := leaf[i..] + rest;
        assert left[0] == leaf[i] && left[1..] == leaf[i + 1..] + rest;
        var begin := g.Begin(nextBegin);
        StretchStarts(g, begin, leaf[i].start);
        ghost var before := written;
        CopyStretch(begin, SizeTo(begin, leaf[i].start, MinIo()));
        Associate(before, g.Before(nextBegin, leaf[i]), g.Copies(g.NextBegin(leaf[i]), left[1..]));
        NextStarts(g, leaf[i]);
        nextBegin, freeTo := g.NextBegin(leaf[i]), leaf[i].End();
      }
      assert leaf[|leaf|..] + rest == rest;
    }

    /** The leaves, from left to right, then what follows the last free extent. */
    method CopyLeaves(g: Group, leaves: seq<seq<Free>>)
      requires g.Valid() && g.unit == unit && g.full == full && full < 0x1_0000_0000
      requires g.Ordered(0, Flat(leaves))
      modifies `position, `length, `written
      ensures written == old(written) + g.Copies(g.agBegin, Flat(leaves))
    {
      LeavesFirst(g, leaves);
      hide *;
      var nextBegin: nat, k := g.agBegin, 0;
      ghost var freeTo: nat := 0;
      while k < |leaves|
        invariant k <= |leaves|
        invariant g.Ordered(freeTo, Flat(leaves[k..])) && StartsAt(g, nextBegin, freeTo)
        invariant written + g.Copies(nextBegin, Flat(leaves[k..])) == old(written) + g.Copies(g.agBegin, Flat(leaves))
      {
        FlatStep(leaves, k);
        nextBegin, freeTo := CopyLeaf(g, nextBegin, freeTo, leaves[k], Flat(leaves[k + 1..]));
        k := k + 1;
      }
      FlatEnd(leaves[k..]);
      CopyTail(g, nextBegin, freeTo);
    }

    /** What follows the last free extent. */
    method CopyTail(g: Group, nextBegin: nat, ghost freeTo: nat)
      requires g.Valid() && g.unit == unit && g.full == full && full < 0x1_0000_0000
      requires StartsAt(g, nextBegin, freeTo)
      modifies `position, `length, `written
      ensures written == old(written) + g.Copies(nextBegin, [])
    {
      hide SizeTo, Chunks;
      if nextBegin < g.agEnd {
        StretchStarts(g, nextBegin, g.agEnd);
        CopyStretch(nextBegin, SizeTo(nextBegin, g.agEnd, MinIo()));
      }
    }

    /**
     * One allocation group: its header, then the blocks around the free extents. False if the header does
     * not fit the buffer, where the program aborts.
     */
    method CopyGroup(headerAt: nat, headerLength: nat, leaves: seq<seq<Free>>, agEnd: nat) returns (ok: bool)
      requires Geometry()
      requires headerAt + headerLength < 0x10_0000_0000_0000 && agEnd < 0x40_0000_0000_0000
      requires var g := GroupOf(HeaderEnd(headerAt, headerLength, MinIo()), agEnd);
               g.Valid() ==> g.Ordered(0, Flat(leaves))
      modifies `position, `length, `written
      ensures ok <==> Aligned(Range(headerAt, headerLength), MinIo()).length <= full
      ensures !ok ==> written == old(written)
      ensures var g := GroupOf(HeaderEnd(headerAt, headerLength, MinIo()), agEnd);
              ok ==> g.Valid() && written == old(written) +
                     ([Aligned(Range(headerAt, headerLength), MinIo())] + g.Copies(g.agBegin, Flat(leaves)))
    {
      position, length := headerAt, headerLength;
      HeaderIs(headerAt, headerLength, unit, full, agEnd);
      hide Aligned, Multiple, Group.Valid, Group.Ordered, Group.Copies;
      ok := ReadWbuf();
      if !ok { return; }
      WriteWbuf();
      var g := GroupOf(position / BB + length / BB, agEnd);
      Associate(old(written), [Range(position, length)], g.Copies(g.agBegin, Flat(leaves)));
      CopyLeaves(g, leaves);
    }
  }

  lemma FlatStep(leaves: seq<seq<Free>>, k: nat)
    requires k < |leaves|
    ensures Flat(leaves[k..]) == leaves[k] + Flat(leaves[k + 1..])
  {
    assert leaves[k..][1..] == leaves[k + 1..];
  }

  lemma FlatEnd(leaves: seq<seq<Free>>)
    ensures leaves == [] ==> Flat(leaves) == []
  {}

  lemma LeavesFirst(g: Group, leaves: seq<seq<Free>>)
    requires g.Valid()
    ensures StartsAt(g, g.agBegin, 0) && leaves[0..] == leaves
  {}

  lemma HeaderIs(at: nat, length: nat, unit: nat, full: nat, agEnd: nat)
    requires 0 < unit * BB < 0x1_0000_0000 && 0 < full && Multiple(full, unit * BB)
    requires at + length < 0x10_0000_0000_0000 && agEnd < 0x40_0000_0000_0000
    ensures Group(unit, full, HeaderEnd(at, length, unit * BB), agEnd).Valid()
  {
    AlignedIs(Range(at, length), unit * BB);
    hide Aligned;
    var a := Aligned(Range(at, length), unit * BB);
    WholeUnits(a.position, a.length, unit);
  }

  lemma ChunkStep(written: seq<Range>, at: nat, size: nat, full: nat)
    requires full > 0 && size > 0
    ensures var n := if size > full then full else size;
            written + [Range(at, n)] + Chunks(at + n, size - n, full) == written + Chunks(at, size, full)
  {}

  /** The block after the header buffer. */
  function HeaderEnd(at: nat, length: nat, minIo: nat): nat
    requires minIo > 0
  {
    var a := Aligned(Range(at, length), minIo);
    a.position / BB + a.length / BB
  }

  lemma WholeUnits(position: nat, length: nat, unit: nat)
    requires unit > 0 && position % (unit * BB) == 0 && length % (unit * BB) == 0
    ensures (position / BB + length / BB) % unit == 0
    ensures (position / BB + length / BB) * BB == position + length
  {
    var p, q := position / (unit * BB), length / (unit * BB);
    assert position == p * unit * BB && length == q * unit * BB;
    assert p * unit + q * unit == (p + q) * unit;
    MulMod(p + q, unit);
  }
}
