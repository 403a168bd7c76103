/** The table of mappings with which a multi-block directory is read ahead of its listing. */
module MapTable {

  import opened Basics

  /** A mapping of file blocks, or a hole. */
  datatype Rec = Rec(off: nat, hole: bool, count: nat) {
    function End(): nat { off + count }
  }

  /**
   * A directory: a directory block is n file system blocks of bs bytes. Its data blocks come before number
   * leafDb; recs maps the file up to there, and blocks holds the directory blocks that exist.
   */
  datatype Dir = Dir(n: nat, bs: nat, leafDb: nat, recs: seq<Rec>, blocks: map<nat, seq<Byte>>) {
    function Size(): nat { n * bs }

    function Leaf(): nat { leafDb * n }

    ghost predicate Valid() {
      && n > 0 && bs > 0
      && Chain(recs, 0, Leaf()) && NoTwoHoles(recs)
      && forall d: nat :: d <= leafDb ==> Mapped(d)
    }

    /** What is mapped from a directory block on are the directory blocks that exist from there on. */
    ghost predicate Mapped(d: nat) {
      Fsbs(Suffix(recs, d * n)) == Expand(LiveDbs(d), n)
    }

    /** The directory blocks that exist, from a number on. */
    function LiveDbs(from: nat): seq<nat>
      decreases leafDb - from
    {
      if from >= leafDb then [] else (if from in blocks then [from] else []) + LiveDbs(from + 1)
    }

    /** xfs_bmapi: up to nmap mappings from a block on; fewer only at the end. */
    function Bmapi(from: nat, nmap: nat): (r: seq<Rec>)
      ensures |r| <= nmap && r <= Suffix(recs, from)
      ensures |r| < nmap ==> r == Suffix(recs, from)
    {
      var all := Suffix(recs, from);
      if |all| <= nmap then all else all[..nmap]
    }
  }

  ghost predicate Chain(recs: seq<Rec>, from: nat, end: nat)
    decreases |recs|
  {
    if recs == [] then from == end
    else recs[0].off == from && recs[0].count > 0 && Chain(recs[1..], recs[0].End(), end)
  }

  ghost predicate NoTwoHoles(recs: seq<Rec>) {
    forall i :: 0 <= i < |recs| - 1 && recs[i].hole ==> !recs[i + 1].hole
  }

  /** The mappings from a block on, the first cut to start there. */
  function Suffix(recs: seq<Rec>, from: nat): seq<Rec> {
    if recs == [] then []
    else if recs[0].End() <= from then Suffix(recs[1..], from)
    else if recs[0].off < from then [Rec(from, recs[0].hole, recs[0].End() - from)] + recs[1..]
    else recs
  }

  function Range(off: nat, count: nat): (r: seq<nat>)
    ensures |r| == count && forall i :: 0 <= i < count ==> r[i] == off + i
  {
    seq(count, i requires 0 <= i < count => off + i)
  }

  /** The file blocks that are mapped. */
  function Fsbs(recs: seq<Rec>): seq<nat> {
    if recs == [] then [] else (if recs[0].hole then [] else Range(recs[0].off, recs[0].count)) + Fsbs(recs[1..])
  }

  /** The file blocks of directory blocks. */
  function Expand(dbs: seq<nat>, n: nat): seq<nat> {
    if dbs == [] then [] else Range(dbs[0] * n, n) + Expand(dbs[1..], n)
  }

  lemma {:induction false} FsbsConcat(a: seq<Rec>, b: seq<Rec>)
    ensures Fsbs(a + b) == Fsbs(a) + Fsbs(b)
    decreases |a|
  {
    if a == [] {
      assert a + b == b;
    } else {
      assert (a + b)[1..] == a[1..] + b;
      FsbsConcat(a[1..], b);
    }
  }

  lemma {:induction false} ExpandLength(dbs: seq<nat>, n: nat)
    ensures |Expand(dbs, n)| == |dbs| * n
    decreases |dbs|
  {
    if dbs != [] {
      ExpandLength(dbs[1..], n);
      assert |dbs| * n == n + (|dbs| - 1) * n;
    }
  }

  /** Inside a directory block, the next file block is the next number. */
  lemma {:induction false} ExpandAt(dbs: seq<nat>, n: nat, i: nat)
    requires n > 0 && i < |Expand(dbs, n)| && i % n != 0
    ensures Expand(dbs, n)[i] == Expand(dbs, n)[i - 1] + 1
    decreases |dbs|
  {
    if i >= n {
      ModStep(i, n);
      NotZero(i - n, n);
      var front, rest := Range(dbs[0] * n, n), Expand(dbs[1..], n);
      ExpandAt(dbs[1..], n, i - n);
      assert (front + rest)[i] == rest[i - n] && (front + rest)[i - 1] == rest[i - n - 1];
    } else {
      NotZero(i, n);
    }
  }

  lemma NotZero(i: nat, n: nat)
    requires n > 0 && i % n != 0
    ensures i > 0
  {}

  lemma ModStep(i: nat, n: nat)
    requires n > 0 && i >= n
    ensures (i - n) % n == i % n
  {
    var q, r := (i - n) / n, (i - n) % n;
    assert i == (q + 1) * n + r;
    ModUnique(q + 1, r, n);
  }

  lemma {:induction false} SuffixChain(recs: seq<Rec>, from: nat, at: nat, end: nat)
    requires Chain(recs, from, end) && from <= at <= end && NoTwoHoles(recs)
    ensures Chain(Suffix(recs, at), at, end) && NoTwoHoles(Suffix(recs, at))
    decreases |recs|
  {
    if recs != [] {
      ChainOrder(recs, from, end);
      if recs[0].End() <= at {
        SuffixChain(recs[1..], recs[0].End(), at, end);
      } else if recs[0].off < at {
        assert Suffix(recs, at)[1..] == recs[1..];
      }
    }
  }

  lemma {:induction false} ChainOrder(recs: seq<Rec>, from: nat, end: nat)
    requires Chain(recs, from, end)
    ensures from <= end && forall r <- recs :: from <= r.off && r.End() <= end && r.count > 0
    ensures forall i, j :: 0 <= i < j < |recs| ==> recs[i].End() <= recs[j].off
    decreases |recs|
  {
    if recs != [] {
      ChainOrder(recs[1..], recs[0].End(), end);
      assert forall i :: 0 < i < |recs| ==> recs[i] == recs[1..][i - 1];
    }
  }

  /** Going on from the end of the k-th mapping of a suffix. */
  lemma {:induction false} SuffixOfChain(recs: seq<Rec>, from: nat, end: nat, k: nat)
    requires Chain(recs, from, end) && 0 < k <= |recs|
    ensures Suffix(recs, recs[k - 1].End()) == recs[k..]
    decreases k
  {
    ChainOrder(recs, from, end);
    if k == 1 {
      if |recs| > 1 { assert recs[1..][0] == recs[1]; }
      SuffixFromStart(recs[1..], recs[0].End());
    } else {
      SuffixOfChain(recs[1..], recs[0].End(), end, k - 1);
      assert recs[1..][k - 1..] == recs[k..];
    }
  }

  lemma SuffixFromStart(recs: seq<Rec>, at: nat)
    requires recs == [] || (recs[0].off == at && recs[0].count > 0)
    ensures Suffix(recs, at) == recs
  {}

  lemma {:induction false} SuffixTwice(recs: seq<Rec>, from: nat, end: nat, at: nat, next: nat)
    requires Chain(recs, from, end) && at <= next
    ensures Suffix(Suffix(recs, at), next) == Suffix(recs, next)
    decreases |recs|
  {
    if recs != [] {
      if recs[0].End() <= at {
        SuffixTwice(recs[1..], recs[0].End(), end, at, next);
      } else if recs[0].off < at {
        assert Suffix(recs, at)[1..] == recs[1..];
      }
    }
  }

  lemma {:induction false} FsbsBounds(recs: seq<Rec>, from: nat, end: nat)
    requires Chain(recs, from, end)
    ensures forall x <- Fsbs(recs) :: from <= x < end
    decreases |recs|
  {
    if recs != [] {
      ChainOrder(recs, from, end);
      FsbsBounds(recs[1..], recs[0].End(), end);
    }
  }

  lemma {:induction false} ChainSplit(recs: seq<Rec>, from: nat, end: nat, k: nat)
    requires Chain(recs, from, end) && k < |recs|
    ensures Chain(recs[..k], from, recs[k].off) && Chain(recs[k + 1..], recs[k].End(), end)
    decreases k
  {
    if k > 0 {
      ChainSplit(recs[1..], recs[0].End(), end, k - 1);
      assert recs[1..][..k - 1] == recs[..k][1..] && recs[1..][k..] == recs[k + 1..];
    }
  }

  ghost predicate Extents(recs: seq<Rec>) { forall r <- recs :: !r.hole && r.count > 0 }

  lemma {:induction false} ExtentsCount(recs: seq<Rec>)
    requires Extents(recs)
    ensures |Fsbs(recs)| >= |recs|
    decreases |recs|
  {
    if recs != [] {
      assert recs[0] in recs;
      ExtentsCount(recs[1..]);
    }
  }

  /** The mapped blocks before a hole are whole directory blocks. */
  lemma BeforeHole(table: seq<Rec>, rest: seq<Rec>, from: nat, end: nat, dbs: seq<nat>, n: nat, h: nat)
    requires n > 0 && Chain(rest, from, end) && Fsbs(table) + Fsbs(rest) == Expand(dbs, n)
    requires forall x <- Fsbs(table) :: x < from
    requires h < |rest| && rest[h].hole
    ensures (|Fsbs(table)| + |Fsbs(rest[..h])|) % n == 0
  {
    hide Fsbs, Expand, Chain;
    var a, b, all := rest[..h], rest[h + 1..], Expand(dbs, n);
    ChainSplit(rest, from, end, h);
    HoleHasSome(rest, from, end, h);
    FsbsBounds(a, from, rest[h].off);
    FsbsBounds(b, rest[h].End(), end);
    assert rest == a + ([rest[h]] + b);
    FsbsConcat(a, [rest[h]] + b);
    FsbsOfHole(rest[h], b);
    var front, back := Fsbs(table) + Fsbs(a), Fsbs(b);
    assert all == front + back;
    var p := |front|;
    ExpandLength(dbs, n);
    if p == |all| {
      ModUnique(|dbs|, 0, n);
    } else {
      assert all[p] == back[0] && back[0] in back;
      assert p > 0 ==> all[p - 1] == front[p - 1] && front[p - 1] in front;
      if p % n != 0 { ExpandAt(dbs, n, p); }
    }
  }

  lemma HoleHasSome(recs: seq<Rec>, from: nat, end: nat, h: nat)
    requires Chain(recs, from, end) && h < |recs|
    ensures recs[h].count > 0 && from <= recs[h].off
  {
    ChainOrder(recs, from, end);
  }

  lemma FsbsOfHole(r: Rec, recs: seq<Rec>)
    requires r.hole
    ensures Fsbs([r] + recs) == Fsbs(recs)
  {
    assert ([r] + recs)[1..] == recs;
    assert [] + Fsbs(recs) == Fsbs(recs);
  }

  lemma MultipleAtLeast(p: nat, n: nat)
    requires n > 0 && p > 0 && p % n == 0
    ensures p >= n
  {}

  /** Either the first k mappings have no hole from i on, or the first hole from there on. */
  lemma {:induction false} FirstHole(recs: seq<Rec>, i: nat, k: nat) returns (h: nat)
    requires i <= k <= |recs| && forall r <- recs :: r.count > 0
    ensures i <= h <= k && Extents(recs[i..h]) && (h < k ==> recs[h].hole)
    decreases k - i
  {
    if i == k || recs[i].hole {
      h := i;
    } else {
      h := FirstHole(recs, i + 1, k);
      assert recs[i..h] == [recs[i]] + recs[i + 1..h];
    }
  }

  lemma FsbsOfSlice(recs: seq<Rec>, i: nat, h: nat)
    requires i <= h <= |recs| && Extents(recs[i..h])
    ensures |Fsbs(recs[..h])| >= h - i
  {
    assert recs[..h] == recs[..i] + recs[i..h];
    FsbsConcat(recs[..i], recs[i..h]);
    ExtentsCount(recs[i..h]);
  }

  lemma FsbsGrow(recs: seq<Rec>, h: nat, k: nat)
    requires h <= k <= |recs|
    ensures |Fsbs(recs[..h])| <= |Fsbs(recs[..k])|
  {
    assert recs[..k] == recs[..h] + recs[h..k];
    FsbsConcat(recs[..h], recs[h..k]);
  }

  /**
   * One request is enough for a directory block: with what is in the table, as many mappings as there is
   * room for give at least one whole directory block, whatever holes are between them.
   */
  lemma Enough(table: seq<Rec>, rest: seq<Rec>, from: nat, end: nat, dbs: seq<nat>, n: nat, k: nat)
    requires n > 0 && Chain(rest, from, end) && NoTwoHoles(rest) && Fsbs(table) + Fsbs(rest) == Expand(dbs, n)
    requires Extents(table) && forall x <- Fsbs(table) :: x < from
    requires k <= |rest| && k + |table| >= n + 1
    ensures |Fsbs(table)| + |Fsbs(rest[..k])| >= n
  {
    hide Fsbs, Expand, Chain, Extents;
    ChainOrder(rest, from, end);
    ExtentsCount(table);
    var h := FirstHole(rest, 0, k);
    FsbsOfSlice(rest, 0, h);
    FsbsGrow(rest, h, k);
    if h < k {
      BeforeHole(table, rest, from, end, dbs, n, h);
      var p := |Fsbs(table)| + |Fsbs(rest[..h])|;
      if p > 0 {
        MultipleAtLeast(p, n);
      } else {
        var g := FirstHole(rest, 1, k);
        FsbsOfSlice(rest, 1, g);
        FsbsGrow(rest, g, k);
        if g < k {
          BeforeHole(table, rest, from, end, dbs, n, g);
          MultipleAtLeast(|Fsbs(table)| + |Fsbs(rest[..g])|, n);
        }
      }
    }
  }

  function NonHoles(recs: seq<Rec>): seq<Rec> {
    if recs == [] then [] else (if recs[0].hole then [] else [recs[0]]) + NonHoles(recs[1..])
  }

  lemma {:induction false} NonHolesAre(recs: seq<Rec>)
    requires forall r <- recs :: r.count > 0
    ensures Extents(NonHoles(recs)) && Fsbs(NonHoles(recs)) == Fsbs(recs) && |NonHoles(recs)| <= |recs|
    decreases |recs|
  {
    if recs != [] {
      NonHolesAre(recs[1..]);
      var rest := NonHoles(recs[1..]);
      if recs[0].hole {
        assert NonHoles(recs) == rest;
        assert [] + Fsbs(recs[1..]) == Fsbs(recs[1..]);
      } else {
        assert NonHoles(recs) == [recs[0]] + rest;
        assert ([recs[0]] + rest)[1..] == rest;
      }
    }
  }

  /** Taking j blocks off the first mapping. */
  lemma FsbsCut(recs: seq<Rec>, j: nat)
    requires recs != [] && !recs[0].hole && j <= recs[0].count
    ensures var cut := Rec(recs[0].off + j, false, recs[0].count - j);
            && Fsbs(if cut.count == 0 then recs[1..] else [cut] + recs[1..]) == Fsbs(recs)[j..]
    ensures j <= |Fsbs(recs)|
  {
    var cut := Rec(recs[0].off + j, false, recs[0].count - j);
    assert ([cut] + recs[1..])[1..] == recs[1..];
    assert Fsbs(recs)[j..] == Range(recs[0].off, recs[0].count)[j..] + Fsbs(recs[1..]);
    assert Range(recs[0].off, recs[0].count)[j..] == Range(cut.off, cut.count);
    assert cut.count == 0 ==> Range(cut.off, cut.count) + Fsbs(recs[1..]) == Fsbs(recs[1..]);
  }

  /** What holds between calls of filldir: of the table, where the next request starts, and what is left. */
  ghost predicate InStep(dir: Dir, table: seq<Rec>, blocks: nat, mapOff: nat, dbs: seq<nat>) {
    && dir.Valid() && Extents(table) && blocks == |Fsbs(table)|
    && mapOff <= dir.Leaf()
    && Fsbs(table) + Fsbs(Suffix(dir.recs, mapOff)) == Expand(dbs, dir.n)
    && forall x <- Fsbs(table) :: x < mapOff
  }

  /** With a whole directory block in the table, dropping its blocks leaves the others. */
  lemma Dropped(dir: Dir, table: seq<Rec>, blocks: nat, mapOff: nat, dbs: seq<nat>, after: seq<Rec>)
    requires InStep(dir, table, blocks, mapOff, dbs) && blocks >= dir.n
    requires Extents(after) && Fsbs(after) == Fsbs(table)[dir.n..]
    ensures dbs != [] && InStep(dir, after, blocks - dir.n, mapOff, dbs[1..])
  {
    hide Suffix, Chain, Extents, Dir.Valid, Expand, Fsbs;
    DirIs(dir);
    var n, a, rest := dir.n, Fsbs(table), Fsbs(Suffix(dir.recs, mapOff));
    ExpandFirst(dbs, n);
    assert (a + rest)[n..] == a[n..] + rest;
    forall x <- a[n..] ensures x < mapOff {
      assert x in a;
    }
  }

  lemma DirIs(dir: Dir)
    requires dir.Valid()
    ensures dir.n > 0 && Chain(dir.recs, 0, dir.Leaf()) && NoTwoHoles(dir.recs)
  {}

  lemma ExpandFirst(dbs: seq<nat>, n: nat)
    requires n > 0
    ensures dbs == [] ==> Expand(dbs, n) == []
    ensures dbs != [] ==> |Expand(dbs, n)| >= n && Expand(dbs, n)[0] == dbs[0] * n
                          && Expand(dbs, n)[n..] == Expand(dbs[1..], n)
  {}

  /** The first block in the table is the first of the next directory block. */
  lemma FirstBlock(dir: Dir, table: seq<Rec>, blocks: nat, mapOff: nat, dbs: seq<nat>)
    requires InStep(dir, table, blocks, mapOff, dbs) && blocks >= dir.n
    ensures table != [] && dbs != [] && table[0].off == dbs[0] * dir.n && table[0].off / dir.n == dbs[0]
  {
    hide Suffix, Chain, Dir.Valid, Expand;
    DirIs(dir);
    ExpandFirst(dbs, dir.n);
    assert table[0] in table;
    assert Fsbs(table)[0] == table[0].off;
    ModUnique(dbs[0], 0, dir.n);
  }

  /** A request for all the mappings there is room for keeps the table consistent. */
  lemma Fetched(dir: Dir, table: seq<Rec>, blocks: nat, mapOff: nat, dbs: seq<nat>, nmap: nat, got: seq<Rec>)
    requires InStep(dir, table, blocks, mapOff, dbs) && nmap > 0 && got == dir.Bmapi(mapOff, nmap)
    ensures var next := if |got| == nmap then got[|got| - 1].End() else dir.Leaf();
            && InStep(dir, table + NonHoles(got), blocks + |Fsbs(got)|, next, dbs)
            && (nmap + |table| >= dir.n + 1 ==>
                  blocks + |Fsbs(got)| >= dir.n || (dbs == [] && table + NonHoles(got) == [] && next == dir.Leaf()))
            && forall r <- got :: r.count > 0
  {
    hide Fsbs, Expand, Suffix, Chain, NoTwoHoles, NonHoles, Dir.Valid, Dir.Leaf, Dir.Bmapi;
    DirIs(dir);
    var rest := Suffix(dir.recs, mapOff);
    var next := if |got| == nmap then got[|got| - 1].End() else dir.Leaf();
    var after := table + NonHoles(got);
    Answer(dir, mapOff, nmap, got);
    NonHolesAre(got);
    FsbsConcat(table, NonHoles(got));
    var a, b, c := Fsbs(table), Fsbs(got), Fsbs(Suffix(dir.recs, next));
    assert a + b + c == a + (b + c);
    BothExtents(table, NonHoles(got));
    assert forall x <- a + b :: x < next;
    if nmap + |table| >= dir.n + 1 {
      if |got| == nmap {
        Enough(table, rest, mapOff, dir.Leaf(), dbs, dir.n, |got|);
      } else {
        AllFetched(dir, after, dbs);
      }
    }
  }

  lemma BothExtents(a: seq<Rec>, b: seq<Rec>)
    requires Extents(a) && Extents(b)
    ensures Extents(a + b)
  {}

  /** What a request answers, and where the next one starts. */
  lemma Answer(dir: Dir, mapOff: nat, nmap: nat, got: seq<Rec>)
    requires dir.Valid() && mapOff <= dir.Leaf() && nmap > 0 && got == dir.Bmapi(mapOff, nmap)
    ensures var rest := Suffix(dir.recs, mapOff);
            && Chain(rest, mapOff, dir.Leaf()) && NoTwoHoles(rest)
            && |got| <= nmap && |got| <= |rest| && got == rest[..|got|]
            && var next := if |got| == nmap then got[|got| - 1].End() else dir.Leaf();
               && mapOff <= next <= dir.Leaf() && (forall x <- Fsbs(got) :: x < next)
               && Fsbs(rest) == Fsbs(got) + Fsbs(Suffix(dir.recs, next))
               && (|got| < nmap ==> Fsbs(Suffix(dir.recs, next)) == Fsbs([]))
    ensures forall r <- got :: r.count > 0
  {
    hide Fsbs, Suffix, Chain, NoTwoHoles, Dir.Valid, Dir.Leaf;
    DirIs(dir);
    var rest, leaf, k := Suffix(dir.recs, mapOff), dir.Leaf(), |got|;
    SuffixChain(dir.recs, 0, mapOff, leaf);
    ChainOrder(rest, mapOff, leaf);
    assert got == rest[..k] && rest == got + rest[k..];
    forall r <- got ensures r.count > 0 {
      assert r in rest;
    }
    var next := if k == nmap then got[k - 1].End() else leaf;
    FsbsConcat(got, rest[k..]);
    NextSuffix(dir, mapOff, rest, k, nmap);
    FsbsBelow(rest, mapOff, leaf, k, next);
  }

  lemma NextSuffix(dir: Dir, mapOff: nat, rest: seq<Rec>, k: nat, nmap: nat)
    requires dir.Valid() && rest == Suffix(dir.recs, mapOff) && Chain(rest, mapOff, dir.Leaf())
    requires k <= |rest| && k <= nmap && nmap > 0 && (k < nmap ==> k == |rest|)
    ensures var next := if k == nmap then rest[k - 1].End() else dir.Leaf();
            Suffix(dir.recs, next) == rest[k..] && mapOff <= next <= dir.Leaf()
  {
    hide Fsbs, Expand, Suffix, Dir.Valid;
    DirIs(dir);
    ChainOrder(rest, mapOff, dir.Leaf());
    if k == nmap {
      SuffixOfChain(rest, mapOff, dir.Leaf(), k);
      SuffixTwice(dir.recs, 0, dir.Leaf(), mapOff, rest[k - 1].End());
    } else {
      SuffixAtEnd(dir.recs, 0, dir.Leaf());
    }
  }

  lemma {:induction false} SuffixAtEnd(recs: seq<Rec>, from: nat, end: nat)
    requires Chain(recs, from, end)
    ensures Suffix(recs, end) == []
    decreases |recs|
  {
    if recs != [] {
      ChainOrder(recs, from, end);
      SuffixAtEnd(recs[1..], recs[0].End(), end);
    }
  }

  lemma FsbsBelow(rest: seq<Rec>, from: nat, end: nat, k: nat, next: nat)
    requires Chain(rest, from, end) && k <= |rest|
    requires k > 0 ==> next >= rest[k - 1].End()
    ensures forall x <- Fsbs(rest[..k]) :: x < next
  {
    if k > 0 {
      ChainPrefix(rest, from, end, k);
      FsbsBounds(rest[..k], from, rest[k - 1].End());
    }
  }

  lemma {:induction false} ChainPrefix(recs: seq<Rec>, from: nat, end: nat, k: nat)
    requires Chain(recs, from, end) && 0 < k <= |recs|
    ensures Chain(recs[..k], from, recs[k - 1].End())
    decreases k
  {
    if k > 1 {
      ChainPrefix(recs[1..], recs[0].End(), end, k - 1);
      assert recs[1..][..k - 1] == recs[..k][1..];
    }
  }

  lemma AllFetched(dir: Dir, after: seq<Rec>, dbs: seq<nat>)
    requires dir.n > 0 && Extents(after) && Fsbs(after) + Fsbs([]) == Expand(dbs, dir.n)
    ensures |Fsbs(after)| >= dir.n || (dbs == [] && after == [])
  {
    ExpandLength(dbs, dir.n);
    ExtentsCount(after);
    assert Fsbs(after) + Fsbs([]) == Fsbs(after);
    if dbs != [] { assert |dbs| * dir.n >= dir.n; }
  }

  function Howmany(x: nat, y: nat): nat
    requires y > 0
  {
    (x + y - 1) / y
  }

  lemma HowmanyIs(x: nat, n: nat, y: nat)
    requires y > 0
    ensures x >= n * y ==> Howmany(x, y) >= n
    ensures x > n * y ==> Howmany(x, y) >= n + 1
  {
    var q := Howmany(x, y);
    assert q * y <= x + y - 1 < q * y + y;
    if q < n { Row(q, n, y); }
  }

  lemma HowmanyGrows(w: nat, x: nat, y: nat)
    requires y > 0 && w <= x
    ensures Howmany(w, y) <= Howmany(x, y)
  {
    var p, q := Howmany(w, y), Howmany(x, y);
    assert p * y <= w + y - 1 && x + y - 1 < q * y + y;
    Row(q, p, y);
  }

  /** The mapping table of one call, with room for mapSize mappings. */
  class Table {
    const dir: Dir
    const mapSize: nat
    var table: seq<Rec>
    var mapBlocks: nat
    var mapOff: nat
    /** The directory blocks from the one being read on. */
    ghost var dbs: seq<nat>

    ghost predicate Valid()
      reads this
    {
      InStep(dir, table, mapBlocks, mapOff, dbs)
    }

    constructor (dir: Dir, mapSize: nat, db: nat)
      requires dir.Valid() && db <= dir.leafDb
      ensures Valid() && this.dir == dir && this.mapSize == mapSize && dbs == dir.LiveDbs(db)
      ensures table == [] && mapOff == db * dir.n
    {
      this.dir, this.mapSize := dir, mapSize;
      table, mapBlocks, mapOff := [], 0, db * dir.n;
      dbs := dir.LiveDbs(db);
      new;
      StartsInStep(dir, db);
    }

    /** The loop that takes the blocks of one directory block off the front of the table. */
    method DropBlocks()
      requires Extents(table) && |Fsbs(table)| >= dir.n
      modifies `table
      ensures Extents(table) && Fsbs(table) == old(Fsbs(table)[dir.n..])
    {
      hide Extents, Fsbs;
      ghost var all := Fsbs(table);
      assert all[0..] == all;
      var i := dir.n;
      while i > 0
        invariant 0 <= i <= dir.n && Extents(table) && Fsbs(table) == all[dir.n - i..]
      {
        NotEmpty(table);
        var j := if table[0].count < i then table[0].count else i;
        FsbsCut(table, j);
        CutExtents(table, j);
        var cut := Rec(table[0].off + j, false, table[0].count - j);
        assert all[dir.n - i..][j..] == all[dir.n - (i - j)..];
        table := if cut.count == 0 then table[1..] else [cut] + table[1..];
        i := i - j;
      }
    }

    /** The blocks of the directory block that has been read leave the table. */
    method Drop()
      requires Valid() && mapBlocks >= dir.n
      modifies this
      ensures Valid() && mapOff == old(mapOff)
      ensures old(dbs) != [] && dbs == old(dbs)[1..]
    {
      hide Suffix, Chain, Expand, Dir.Valid, Dir.Leaf, Extents, Fsbs;
      ghost var before, blocks := table, mapBlocks;
      mapBlocks := mapBlocks - dir.n;
      DropBlocks();
      Dropped(dir, before, blocks, mapOff, dbs, table);
      dbs := dbs[1..];
    }

    /** Throw the holes out of the mappings from number i on, and count the blocks of the others. */
    method DropHoles(from: nat)
      requires from <= |table| && forall r <- table[from..] :: r.count > 0
      modifies `table, `mapBlocks
      ensures table == old(table[..from] + NonHoles(table[from..]))
      ensures mapBlocks == old(mapBlocks + |Fsbs(table[from..])|)
    {
      hide Fsbs, NonHoles;
      ghost var left := table[from..];
      ghost var goal, blocks := table[..from] + NonHoles(left), mapBlocks + |Fsbs(left)|;
      var i := from;
      while i < |table|
        invariant 0 <= i <= |table| && table[i..] == left && (forall r <- left :: r.count > 0)
        invariant table[..i] + NonHoles(left) == goal && mapBlocks + |Fsbs(left)| == blocks
        decreases |left|
      {
        HolesStep(left);
        ghost var before := table[..i];
        if table[i].hole {
          table := table[..i] + table[i + 1..];
          assert table[..i] == before;
        } else {
          mapBlocks := mapBlocks + table[i].count;
          assert table[..i + 1] + NonHoles(left[1..]) == table[..i] + ([left[0]] + NonHoles(left[1..]));
          i := i + 1;
        }
        left := left[1..];
      }
      NoHolesLeft();
      assert table[..i] + [] == table;
    }

    /** Request as many mappings as there is room for, and throw the holes out of what comes. */
    method Request()
      requires Valid() && |table| < mapSize
      modifies this
      ensures Valid() && dbs == old(dbs)
      ensures var nmap := mapSize - |old(table)|;
              var got := dir.Bmapi(old(mapOff), nmap);
              && table == old(table) + NonHoles(got)
              && mapOff == if |got| == nmap then got[|got| - 1].End() else dir.Leaf()
      ensures mapSize > dir.n ==> mapBlocks >= dir.n || (dbs == [] && table == [] && mapOff == dir.Leaf())
    {
      hide Fsbs, Expand, Suffix, Chain, NonHoles, Dir.Valid, Dir.Leaf, Extents, Dir.Bmapi, InStep;
      var nmap, valid := mapSize - |table|, |table|;
      var got := dir.Bmapi(mapOff, nmap);
      Fetched(dir, table, mapBlocks, mapOff, dbs, nmap, got);
      BmapiAtMost(dir, mapOff, nmap);
      mapOff := if |got| == nmap then got[|got| - 1].End() else dir.Leaf();
      ghost var before := table;
      table := table + got;
      assert table[..valid] == before && table[valid..] == got;
      DropHoles(valid);
    }

    /**
     * Make sure of a directory block to read: more mappings are requested if the table holds fewer blocks
     * than are wanted. There is always room for one more.
     */
    method Fill(wanted: nat)
      requires Valid() && dir.n <= wanted <= mapSize
      modifies this
      ensures Valid() && dbs == old(dbs)
      ensures mapSize > dir.n ==> mapBlocks >= dir.n || (dbs == [] && table == [] && mapOff == dir.Leaf())
      ensures wanted <= old(mapBlocks) || old(mapOff) >= dir.Leaf() ==> table == old(table) && mapOff == old(mapOff)
      ensures old(table == [] && mapOff < dir.Leaf()) ==>
                var got := dir.Bmapi(old(mapOff), mapSize);
                && table == NonHoles(got)
                && mapOff == if |got| == mapSize then got[|got| - 1].End() else dir.Leaf()
    {
      hide Fsbs, Expand, Suffix, Chain, Dir.Valid, Dir.Leaf, Dir.LiveDbs, Dir.Bmapi;
      ExtentsCount(table);
      EmptyTable(dir, table, mapBlocks, mapOff, dbs);
      if wanted > mapBlocks && mapOff < dir.Leaf() {
        Request();
      } else if mapOff == dir.Leaf() {
        DirIs(dir);
        SuffixAtEnd(dir.recs, 0, dir.Leaf());
        AllFetched(dir, table, dbs);
      }
    }
  }

  lemma StartsInStep(dir: Dir, db: nat)
    requires dir.Valid() && db <= dir.leafDb
    ensures InStep(dir, [], 0, db * dir.n, dir.LiveDbs(db))
  {
    hide Expand, Suffix, Chain, NoTwoHoles, Dir.LiveDbs;
    assert dir.Mapped(db);
    Row(db, dir.leafDb, dir.n);
    var rest := Fsbs(Suffix(dir.recs, db * dir.n));
    assert Fsbs([]) + rest == rest;
  }

  lemma EmptyTable(dir: Dir, table: seq<Rec>, blocks: nat, mapOff: nat, dbs: seq<nat>)
    requires InStep(dir, table, blocks, mapOff, dbs)
    ensures dir.n > 0 && (table == [] ==> blocks == 0)
  {}

  lemma NotEmpty(recs: seq<Rec>)
    requires Extents(recs) && Fsbs(recs) != []
    ensures recs != [] && !recs[0].hole && recs[0].count > 0
  {
    assert recs[0] in recs;
  }

  lemma CutExtents(recs: seq<Rec>, j: nat)
    requires recs != [] && Extents(recs) && j <= recs[0].count
    ensures var cut := Rec(recs[0].off + j, false, recs[0].count - j);
            Extents(if cut.count == 0 then recs[1..] else [cut] + recs[1..])
  {}

  lemma BmapiAtMost(dir: Dir, from: nat, nmap: nat)
    ensures |dir.Bmapi(from, nmap)| <= nmap
  {}

  lemma HolesStep(recs: seq<Rec>)
    requires recs != [] && forall r <- recs :: r.count > 0
    ensures NonHoles(recs) == if recs[0].hole then NonHoles(recs[1..]) else [recs[0]] + NonHoles(recs[1..])
    ensures |Fsbs(recs)| == (if recs[0].hole then 0 else recs[0].count) + |Fsbs(recs[1..])|
  {
    assert [] + NonHoles(recs[1..]) == NonHoles(recs[1..]);
  }

  lemma NoHolesLeft()
    ensures NonHoles([]) == [] && Fsbs([]) == []
  {}

  // --- room for one mapping ----------------------------------------------------------------------

  /** The end of the first hole, or of everything. */
  function StopAt(recs: seq<Rec>, end: nat): nat {
    if recs == [] then end else if recs[0].hole then recs[0].End() else StopAt(recs[1..], end)
  }

  lemma {:induction false} StopAhead(recs: seq<Rec>, from: nat, end: nat)
    requires Chain(recs, from, end)
    ensures from <= StopAt(recs, end) <= end
    decreases |recs|
  {
    ChainOrder(recs, from, end);
    if recs != [] {
      assert recs[0] in recs;
      StopAhead(recs[1..], recs[0].End(), end);
    }
  }

  lemma StopBounds(dir: Dir, mapOff: nat)
    requires dir.Valid() && mapOff <= dir.Leaf()
    ensures mapOff <= StopAt(Suffix(dir.recs, mapOff), dir.Leaf()) <= dir.Leaf()
  {
    DirIs(dir);
    SuffixChain(dir.recs, 0, mapOff, dir.Leaf());
    StopAhead(Suffix(dir.recs, mapOff), mapOff, dir.Leaf());
  }

  /** One mapping: if it is a hole, it is the first one; otherwise the first hole is still to come. */
  lemma OneMapping(dir: Dir, mapOff: nat, got: seq<Rec>)
    requires dir.Valid() && mapOff < dir.Leaf() && got == dir.Bmapi(mapOff, 1)
    ensures var stop := StopAt(Suffix(dir.recs, mapOff), dir.Leaf());
            && |got| == 1
            && if NonHoles(got) == [] then got[0].End() == stop
               else StopAt(Suffix(dir.recs, got[0].End()), dir.Leaf()) == stop
  {
    hide Dir.Valid, Chain, Suffix, Dir.Leaf, NoTwoHoles;
    DirIs(dir);
    var rest, leaf := Suffix(dir.recs, mapOff), dir.Leaf();
    SuffixChain(dir.recs, 0, mapOff, leaf);
    NotOver(rest, mapOff, leaf);
    NextSuffix(dir, mapOff, rest, 1, 1);
    assert got == [rest[0]] && got[1..] == [];
    assert NonHoles(got[1..]) == [];
    assert NonHoles(got) == if rest[0].hole then [] else [rest[0]];
    assert Suffix(dir.recs, rest[0].End()) == rest[1..];
  }

  lemma FirstIsMapped(recs: seq<Rec>)
    requires Extents(recs) && recs != []
    ensures recs[0].off in Fsbs(recs)
  {
    assert recs[0] in recs;
    assert Fsbs(recs)[0] == recs[0].off;
  }

  lemma NotOver(recs: seq<Rec>, from: nat, end: nat)
    requires Chain(recs, from, end) && from < end
    ensures recs != []
  {}

  /** With an empty table, the directory blocks still to come are not before the next request. */
  lemma BlocksAhead(dir: Dir, blocks: nat, mapOff: nat, dbs: seq<nat>)
    requires InStep(dir, [], blocks, mapOff, dbs) && dbs != []
    ensures mapOff <= dbs[0] * dir.n
  {
    DirIs(dir);
    hide Dir.Valid, Chain, Suffix, Expand;
    var rest := Suffix(dir.recs, mapOff);
    SuffixChain(dir.recs, 0, mapOff, dir.Leaf());
    FsbsBounds(rest, mapOff, dir.Leaf());
    ExpandFirst(dbs, dir.n);
    assert Fsbs([]) + Fsbs(rest) == Fsbs(rest);
    assert Fsbs(rest)[0] in Fsbs(rest);
  }

  // --- a directory of one block, in pieces -----------------------------------------------------

  /** Mappings of one block each. */
  function Ones(off: nat, count: nat): (r: seq<Rec>)
    ensures |r| == count && forall i :: 0 <= i < count ==> r[i] == Rec(off + i, false, 1)
  {
    seq(count, i requires 0 <= i < count => Rec(off + i, false, 1))
  }

  /** The first file block of a directory block. */
  function First(d: nat, n: nat): nat { d * n }

  function LoneRecs(n: nat, leafDb: nat, k: nat): seq<Rec>
    requires k + 1 < leafDb
  {
    var before, after: nat := First(k, n), leafDb - k - 1;
    [Rec(0, true, before)] + (Ones(before, n) + [Rec(before + n, true, First(after, n))])
  }

  /** A directory whose one block, number k, is n extents of one block each; there are holes before and after it. */
  function Lone(n: nat, bs: nat, leafDb: nat, k: nat, b: seq<Byte>): Dir
    requires k + 1 < leafDb
  {
    Dir(n, bs, leafDb, LoneRecs(n, leafDb, k), map[k := b])
  }

  lemma {:induction false} LoneLive(n: nat, bs: nat, leafDb: nat, k: nat, b: seq<Byte>, from: nat)
    requires k + 1 < leafDb
    ensures Lone(n, bs, leafDb, k, b).LiveDbs(from) == if from <= k then [k] else []
    decreases leafDb - from
  {
    hide LoneRecs;
    if from < leafDb { LoneLive(n, bs, leafDb, k, b, from + 1); }
  }

  lemma {:induction false} OnesAre(off: nat, count: nat, tail: seq<Rec>)
    ensures Fsbs(Ones(off, count) + tail) == Range(off, count) + Fsbs(tail)
    decreases count
  {
    hide Ones;
    OnesStep(off, count, tail);
    if count == 0 {
      assert Range(off, 0) + Fsbs(tail) == Fsbs(tail);
    } else {
      OnesAre(off + 1, count - 1, tail);
      assert Range(off, count) == Range(off, 1) + Range(off + 1, count - 1);
    }
  }

  lemma {:induction false} OnesSkipped(off: nat, count: nat, tail: seq<Rec>, at: nat)
    requires at >= off + count
    ensures Suffix(Ones(off, count) + tail, at) == Suffix(tail, at)
    decreases count
  {
    OnesStep(off, count, tail);
    if count > 0 { OnesSkipped(off + 1, count - 1, tail, at); }
  }

  lemma {:induction false} OnesChain(off: nat, count: nat, tail: seq<Rec>, end: nat)
    requires Chain(tail, off + count, end)
    ensures Chain(Ones(off, count) + tail, off, end)
    decreases count
  {
    OnesStep(off, count, tail);
    if count > 0 { OnesChain(off + 1, count - 1, tail, end); }
  }

  lemma OnesStep(off: nat, count: nat, tail: seq<Rec>)
    ensures count == 0 ==> Ones(off, count) + tail == tail
    ensures count > 0 ==> (Ones(off, count) + tail)[0] == Rec(off, false, 1)
                          && (Ones(off, count) + tail)[1..] == Ones(off + 1, count - 1) + tail
  {}

  lemma OneHole(r: Rec, at: nat)
    requires r.hole
    ensures Fsbs([r]) == [] && Fsbs(Suffix([r], at)) == []
  {
    assert [r][1..] == [];
    assert Suffix([r][1..], at) == [];
    if r.off < at < r.End() {
      assert Suffix([r], at) == [Rec(at, true, r.End() - at)];
    }
  }

  /** The mappings in three parts. */
  lemma LoneParts(n: nat, leafDb: nat, k: nat)
    requires n > 0 && 0 < k && k + 1 < leafDb
    ensures var recs, before, after: nat := LoneRecs(n, leafDb, k), First(k, n), leafDb - k - 1;
            && before >= n && First(after, n) >= n && before + n + First(after, n) == First(leafDb, n)
            && |recs| == n + 2 && recs[0] == Rec(0, true, before)
            && recs[1..] == Ones(before, n) + [Rec(before + n, true, First(after, n))]
  {
    var after: nat := leafDb - k - 1;
    Row(0, k, n);
    Row(0, after, n);
    assert First(leafDb, n) == First(k, n) + n + First(after, n);
  }

  lemma LoneMapped(n: nat, bs: nat, leafDb: nat, k: nat, b: seq<Byte>, d: nat)
    requires n > 0 && 0 < k && k + 1 < leafDb
    ensures Lone(n, bs, leafDb, k, b).Mapped(d)
  {
    LoneLive(n, bs, leafDb, k, b, d);
    LoneParts(n, leafDb, k);
    hide LoneRecs, Dir.LiveDbs, Fsbs;
    var recs, at, before := LoneRecs(n, leafDb, k), First(d, n), First(k, n);
    var last := Rec(before + n, true, First(leafDb - k - 1, n));
    OnesAre(before, n, [last]);
    OneHole(last, at);
    Row(d, k, n);
    Row(k, d, n);
    LoneFrom(n, leafDb, k, at);
    ExpandOne(k, n);
    ExpandOne(k, 0);
  }

  lemma ExpandOne(k: nat, n: nat)
    ensures Expand([k], n) == Range(First(k, n), n) && Expand([], n) == []
  {
    assert [k][1..] == [];
    assert Range(k * n, n) + [] == Range(k * n, n);
  }

  /** What is mapped from a block on: all extents, or none. */
  lemma LoneFrom(n: nat, leafDb: nat, k: nat, at: nat)
    requires n > 0 && 0 < k && k + 1 < leafDb
    ensures var recs, before := LoneRecs(n, leafDb, k), First(k, n);
            && (at <= before ==> Fsbs(Suffix(recs, at)) == Range(before, n))
            && (at >= before + n ==> Fsbs(Suffix(recs, at)) == [])
  {
    LoneParts(n, leafDb, k);
    hide LoneRecs;
    var recs, before := LoneRecs(n, leafDb, k), First(k, n);
    var last := Rec(before + n, true, First(leafDb - k - 1, n));
    OnesAre(before, n, [last]);
    OneHole(last, at);
    assert Range(before, n) + [] == Range(before, n);
    if at < before {
      assert Suffix(recs, at)[1..] == recs[1..];
    } else if at == before {
      SuffixFromStart(recs[1..], at);
    } else if at >= before + n {
      OnesSkipped(before, n, [last], at);
    }
  }

  lemma LoneValid(n: nat, bs: nat, leafDb: nat, k: nat, b: seq<Byte>)
    requires n > 0 && bs > 0 && 0 < k && k + 1 < leafDb
    ensures Lone(n, bs, leafDb, k, b).Valid()
  {
    LoneParts(n, leafDb, k);
    hide LoneRecs, Dir.Mapped;
    var dir, before, after: nat := Lone(n, bs, leafDb, k, b), First(k, n), leafDb - k - 1;
    var recs, tail := dir.recs, [Rec(before + n, true, First(after, n))];
    assert Chain(tail, before + n, dir.Leaf()) by { assert tail[1..] == []; }
    OnesChain(before, n, tail, dir.Leaf());
    assert Chain(recs, 0, dir.Leaf());
    assert forall i :: 1 <= i <= n ==> recs[i] == recs[1..][i - 1] == Rec(before + i - 1, false, 1);
    forall d: nat | d <= leafDb ensures dir.Mapped(d) {
      LoneMapped(n, bs, leafDb, k, b, d);
    }
  }

  /**
   * Room for as many mappings as a directory block has blocks is not enough: with a hole in front, and each
   * block an extent of its own, a request for n mappings gives n - 1 blocks of the directory block there is.
   */
  lemma RoomForNIsNotEnough(n: nat, bs: nat, leafDb: nat, k: nat, b: seq<Byte>)
    requires n > 0 && bs > 0 && 0 < k && k + 1 < leafDb
    ensures var dir := Lone(n, bs, leafDb, k, b);
            && dir.Valid() && dir.LiveDbs(0) == [k]
            && |dir.Bmapi(0, n)| == n && |Fsbs(dir.Bmapi(0, n))| == n - 1
            && dir.Bmapi(0, n)[n - 1].End() == First(k, n) + n - 1
  {
    LoneValid(n, bs, leafDb, k, b);
    LoneLive(n, bs, leafDb, k, b, 0);
    LoneParts(n, leafDb, k);
    hide LoneRecs, Dir.Valid, Dir.LiveDbs;
    var recs, before := LoneRecs(n, leafDb, k), First(k, n);
    SuffixFromStart(recs, 0);
    assert recs[..n][1..] == recs[1..][..n - 1] == Ones(before, n - 1);
    OnesAre(before, n - 1, []);
    assert Ones(before, n - 1) + [] == Ones(before, n - 1);
    assert n > 1 ==> recs[n - 1] == recs[1..][n - 2];
  }
}
