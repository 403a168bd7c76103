/** Alternate names: other names of the same length, with the same hash. */
module Alternates {
  import Basics
  import opened NameHash
  import opened Obfuscate

  /** Two bits of a name, given as byte offset and bit number, that meet on one bit of the hash. */
  datatype Pair = Pair(byte0: nat, bit0: nat, byte1: nat, bit1: nat)

  const BIT_TO_FLIP: seq<Pair> := [
    Pair(0, 0, 1, 7),
    Pair(1, 0, 2, 7),
    Pair(2, 0, 3, 7),
    Pair(0, 4, 4, 0),
    Pair(0, 5, 4, 1),
    Pair(0, 6, 4, 2),
    Pair(0, 7, 4, 3),
    Pair(3, 0, 4, 7),
    Pair(0, 0, 5, 3),
    Pair(0, 1, 5, 4),
    Pair(0, 2, 5, 5),
    Pair(0, 3, 5, 6),
    Pair(0, 4, 5, 7),
    Pair(4, 0, 5, 7)
  ]

  /** 1 << bit, for a bit of a byte. */
  function BitMask(bit: nat): Byte {
    match bit
    case 0 => 0x01
    case 1 => 0x02
    case 2 => 0x04
    case 3 => 0x08
    case 4 => 0x10
    case 5 => 0x20
    case 6 => 0x40
    case _ => 0x80
  }

  /** The table is sorted by its second byte, and both bits of every row meet in the hash. */
  lemma TableRow(i: nat)
    requires i < |BIT_TO_FLIP|
    ensures var row := BIT_TO_FLIP[i];
            && row.byte0 < row.byte1
            && Reach(BitMask(row.bit0), row.byte1 - row.byte0) == BitMask(row.bit1) as bv32
            && forall j :: i <= j < |BIT_TO_FLIP| ==> row.byte1 <= BIT_TO_FLIP[j].byte1
  {
    ReachAcross(BitMask(BIT_TO_FLIP[i].bit0));
  }

  lemma RowFits(i: nat, last: nat, m0: Byte, m1: Byte)
    requires i <= last < |BIT_TO_FLIP|
    requires m0 == BitMask(BIT_TO_FLIP[i].bit0) && m1 == BitMask(BIT_TO_FLIP[i].bit1)
    ensures var row := BIT_TO_FLIP[i];
            row.byte0 < row.byte1 <= BIT_TO_FLIP[last].byte1 && Reach(m0, row.byte1 - row.byte0) == m1 as bv32
  {
    hide Reach, BitMask;
    TableRow(i);
  }

  /** How many rows of the table fit a name of this length. */
  function Usable(len: nat): (u: nat)
    ensures u <= |BIT_TO_FLIP|
    ensures forall i :: 0 <= i < u ==> BIT_TO_FLIP[i].byte1 < len
    ensures u < |BIT_TO_FLIP| ==> BIT_TO_FLIP[u].byte1 >= len
  {
    if len < 2 then 0 else if len == 2 then 1 else if len == 3 then 2 else if len == 4 then 3
    else if len == 5 then 8 else 14
  }

  /** A place in a name for a row: two byte positions and the masks to flip there. */
  datatype Spot = Spot(p0: nat, m0: Byte, p1: nat, m1: Byte)

  /** The last usable row is placed so that its second byte is the last of the name; flip 0 is that row. */
  function SpotOf(len: nat, bitseq: nat): (s: Spot)
    requires bitseq < Usable(len)
    ensures s.p0 < s.p1 < len && Reach(s.m0, s.p1 - s.p0) == s.m1 as bv32
  {
    var last := Usable(len) - 1;
    var row := BIT_TO_FLIP[last - bitseq];
    RowFits(last - bitseq, last, BitMask(row.bit0), BitMask(row.bit1));
    var offset := len - (BIT_TO_FLIP[last].byte1 + 1);
    Spot(offset + row.byte0, BitMask(row.bit0), offset + row.byte1, BitMask(row.bit1))
  }

  /** What becomes of a name: too few bits for the request, a forbidden character, or a new name. */
  datatype Outcome = Beyond | Invalid | Alternate(name: seq<Byte>)

  function FlipSpot(name: seq<Byte>, s: Spot): Outcome
    requires s.p0 < s.p1 < |name|
  {
    if InvalidChar(FlipByte(name[s.p0], s.m0)) || InvalidChar(FlipByte(name[s.p1], s.m1)) then Invalid
    else Alternate(FlipAt(FlipAt(name, s.p0, s.m0), s.p1, s.m1))
  }

  function Flipped(name: seq<Byte>, bitseq: nat): Outcome {
    if bitseq >= Usable(|name|) then Beyond else FlipSpot(name, SpotOf(|name|, bitseq))
  }

  /** A flip keeps the length and the hash, and never makes a name invalid. */
  lemma FlippedKeepsHash(name: seq<Byte>, bitseq: nat)
    requires Flipped(name, bitseq).Alternate?
    ensures var r := Flipped(name, bitseq).name;
            |r| == |name| && HashName(r) == HashName(name) && (ValidName(name) ==> ValidName(r))
  {
    hide Mix, Rol7, Reach, HashName, FlipByte, InvalidChar, SpotOf, Usable;
    var s := SpotOf(|name|, bitseq);
    FlipPairKeepsHash(name, s.p0, s.m0, s.p1, s.m1);
  }

  /** The search through the table: the spot of flip number bitseq, if the name is long enough for it. */
  method FindSpot(len: nat, bitseq: nat) returns (found: bool, s: Spot)
    requires len >= 2
    ensures found <==> bitseq < Usable(len)
    ensures found ==> s == SpotOf(len, bitseq)
  {
    var index := 0;
    while index < |BIT_TO_FLIP| && BIT_TO_FLIP[index].byte1 < len
      invariant 0 <= index <= Usable(len)
    {
      index := index + 1;
    }
    s := Spot(0, 0, 0, 0);
    index := index - 1;
    if bitseq > index {
      return false, s;
    }
    var offset := len - (BIT_TO_FLIP[index].byte1 + 1);
    index := index - bitseq;
    TableRow(index);
    var row := BIT_TO_FLIP[index];
    return true, Spot(offset + row.byte0, BitMask(row.bit0), offset + row.byte1, BitMask(row.bit1));
  }

  /** flip_bit: 1 when the bits were flipped, 0 when that would be invalid, -1 when there is no such row. */
  method FlipBit(name: array<Byte>, bitseq: nat) returns (r: int)
    requires name.Length >= 2
    modifies name
    ensures match Flipped(old(name[..]), bitseq)
            case Beyond => r == -1 && name[..] == old(name[..])
            case Invalid => r == 0 && name[..] == old(name[..])
            case Alternate(n) => r == 1 && name[..] == n
  {
    hide FlipByte, InvalidChar, Reach, SpotOf, Usable;
    ghost var was := name[..];
    var found, s := FindSpot(name.Length, bitseq);
    if !found {
      return -1;
    }
    if InvalidChar(FlipByte(name[s.p0], s.m0)) || InvalidChar(FlipByte(name[s.p1], s.m1)) {
      return 0;
    }
    name[s.p0] := FlipByte(name[s.p0], s.m0);
    name[s.p1] := FlipByte(name[s.p1], s.m1);
    assert name[..] == FlipAt(FlipAt(was, s.p0, s.m0), s.p1, s.m1);
    return 1;
  }

  // --- find_alternate ----------------------------------------------------------------------

  /** Apply the flips that the binary digits of bits select, the lowest digit being flip number bitseq. */
  function AlternateFrom(name: seq<Byte>, bits: nat, bitseq: nat): Outcome
    decreases bits
  {
    if bits == 0 then Alternate(name)
    else if bits % 2 == 0 then AlternateFrom(name, bits / 2, bitseq + 1)
    else match Flipped(name, bitseq)
      case Alternate(n) => AlternateFrom(n, bits / 2, bitseq + 1)
      case other => other
  }

  function AlternateName(name: seq<Byte>, n: nat): Outcome { AlternateFrom(name, n, 0) }

  lemma {:induction false} AlternateFromKeepsHash(name: seq<Byte>, bits: nat, bitseq: nat)
    requires AlternateFrom(name, bits, bitseq).Alternate?
    ensures var r := AlternateFrom(name, bits, bitseq).name;
            |r| == |name| && HashName(r) == HashName(name) && (ValidName(name) ==> ValidName(r))
    decreases bits
  {
    hide HashName, Flipped, ValidName;
    if bits == 0 {
    } else if bits % 2 == 0 {
      AlternateFromKeepsHash(name, bits / 2, bitseq + 1);
    } else {
      FlippedKeepsHash(name, bitseq);
      AlternateFromKeepsHash(Flipped(name, bitseq).name, bits / 2, bitseq + 1);
    }
  }

  lemma FlippedInRange(name: seq<Byte>, bitseq: nat)
    ensures Flipped(name, bitseq).Beyond? <==> bitseq >= Usable(|name|)
  {}

  lemma HalfBelow(bits: nat, p: nat)
    ensures bits < 2 * p ==> bits / 2 < p
    ensures bits == 2 * p ==> bits / 2 == p && bits % 2 == 0
  {}

  /** With u flips left, every selection of them is either a name or invalid, and one more is too many. */
  lemma {:induction false} AlternateFromRange(name: seq<Byte>, bits: nat, bitseq: nat, left: nat)
    requires bitseq + left == Usable(|name|)
    ensures bits < Basics.Pow2(left) ==> !AlternateFrom(name, bits, bitseq).Beyond?
    ensures bits == Basics.Pow2(left) ==> AlternateFrom(name, bits, bitseq).Beyond?
    decreases bits
  {
    hide HashName, ValidName, Usable, Flipped;
    FlippedInRange(name, bitseq);
    if bits > 0 && left > 0 {
      HalfBelow(bits, Basics.Pow2(left - 1));
      if bits % 2 == 0 {
        AlternateFromRange(name, bits / 2, bitseq + 1, left - 1);
      } else if Flipped(name, bitseq).Alternate? {
        FlippedKeepsHash(name, bitseq);
        AlternateFromRange(Flipped(name, bitseq).name, bits / 2, bitseq + 1, left - 1);
      }
    }
  }

  /** find_alternate on the caller's copy of the name; the copy is scratch unless the result is 1. */
  method FindAlternate(name: array<Byte>, n: nat) returns (r: int)
    modifies name
    ensures match AlternateName(old(name[..]), n)
            case Beyond => r == -1
            case Invalid => r == 0
            case Alternate(a) => r == 1 && name[..] == a
  {
    hide Flipped;
    if n == 0 {
      return 1;
    }
    ghost var want := AlternateName(name[..], n);
    if name.Length < 2 {
      TooShort(name[..], n, 0);
      return -1;
    }
    var bits, bitseq := n, 0;
    while bits != 0
      invariant bitseq >= 0
      invariant AlternateFrom(name[..], bits, bitseq) == want
    {
      if bits % 2 == 1 {
        var fb := FlipBit(name, bitseq);
        if fb < 1 {
          return if fb != 0 then -1 else 0;
        }
      }
      bits, bitseq := bits / 2, bitseq + 1;
    }
    return 1;
  }

  lemma {:induction false} TooShort(name: seq<Byte>, bits: nat, bitseq: nat)
    requires |name| < 2 && bits > 0
    ensures AlternateFrom(name, bits, bitseq).Beyond?
    decreases bits
  {
    if bits % 2 == 0 {
      TooShort(name, bits / 2, bitseq + 1);
    }
  }

  // --- which names the alternates are ----------------------------------------------------------

  /** The last row of the table that fits a name of this length. */
  function LastByte(len: nat): nat
    requires len >= 2
  {
    if len < 6 then len - 1 else 5
  }

  /**
   * Flip number b uses row number u - 1 - b of the u usable ones, placed at the end of the name. So each usable
   * row is used by one flip.
   */
  lemma FlipUsesRow(len: nat, b: nat)
    requires len >= 2 && b < Usable(len)
    ensures var s, row := SpotOf(len, b), BIT_TO_FLIP[Usable(len) - 1 - b];
            && s.m0 == BitMask(row.bit0) && s.m1 == BitMask(row.bit1)
            && s.p0 == len - 1 - LastByte(len) + row.byte0 && s.p1 == len - 1 - LastByte(len) + row.byte1
  {
    hide BitMask;
  }

  /** The bits that a row flips in one byte. */
  function RowMask(i: nat, byte: nat): Byte
    requires i < |BIT_TO_FLIP|
  {
    var row := BIT_TO_FLIP[i];
    if byte == row.byte0 then BitMask(row.bit0) else if byte == row.byte1 then BitMask(row.bit1) else 0
  }

  /** Twelve of the rows have a bit of their own; that of row 3 they share with row 13. */
  function OwnByte(i: nat): nat { if i < 2 then 1 else if i == 2 then 2 else if i < 8 then 4 else 5 }

  function OwnMask(i: nat): Byte {
    match i
    case 0 => 0x80
    case 1 => 0x01
    case 2 => 0x01
    case 3 => 0x01
    case 4 => 0x02
    case 5 => 0x04
    case 6 => 0x08
    case 7 => 0x80
    case 8 => 0x08
    case 9 => 0x10
    case 10 => 0x20
    case _ => 0x40
  }

  lemma OwnBit(i: nat, j: nat)
    requires i < 12 && j < 14
    ensures if i == j || (i == 3 && j == 13) then RowMask(j, OwnByte(i)) & OwnMask(i) == OwnMask(i)
            else RowMask(j, OwnByte(i)) & OwnMask(i) == 0
    ensures OwnMask(i) != 0
  {}

  /** Rows 3, 12 and 13 cancel; the first byte tells row 12 from row 3. */
  lemma RowsCancel(byte: nat)
    ensures RowMask(3, byte) ^ RowMask(12, byte) ^ RowMask(13, byte) == 0
  {}

  /** The last byte has one bit that only rows 12 and 13 flip. */
  lemma LastBit(j: nat)
    requires j < 14
    ensures RowMask(j, 5) & 0x80 == if j == 12 || j == 13 then 0x80 else 0
  {}

  /** The bits that a flip changes in byte p of a name. */
  function FlipMask(len: nat, b: nat, p: nat): Byte
    requires b < Usable(len)
  {
    var s := SpotOf(len, b);
    if p == s.p0 then s.m0 else if p == s.p1 then s.m1 else 0
  }

  lemma FlipMaskIsRow(len: nat, b: nat, p: nat)
    requires len >= 2 && b < Usable(len)
    ensures var at := len - 1 - LastByte(len);
            FlipMask(len, b, p) == if p < at then 0 else RowMask(Usable(len) - 1 - b, p - at)
  {
    hide BitMask, SpotOf, Usable;
    FlipUsesRow(len, b);
  }

  /** The binary digits of a number, the lowest first. */
  function Digits(n: nat, count: nat): (ds: seq<bool>)
    ensures |ds| == count
    decreases count
  {
    if count == 0 then [] else [n % 2 == 1] + Digits(n / 2, count - 1)
  }

  lemma {:induction false} DigitsDiffer(n: nat, m: nat, count: nat)
    requires n < Basics.Pow2(count) && m < Basics.Pow2(count)
    ensures Digits(n, count) == Digits(m, count) <==> n == m
    decreases count
  {
    if count > 0 {
      DigitsDiffer(n / 2, m / 2, count - 1);
      if Digits(n, count) == Digits(m, count) {
        assert Digits(n, count)[0] == Digits(m, count)[0];
        assert Digits(n, count)[1..] == Digits(n / 2, count - 1) && Digits(m, count)[1..] == Digits(m / 2, count - 1);
      }
    }
  }

  /** The bits that the selected flips, from number b on, change in byte p. */
  function MaskFrom(len: nat, ds: seq<bool>, b: nat, p: nat): Byte
    requires b + |ds| <= Usable(len)
    decreases |ds|
  {
    if ds == [] then 0
    else
      var rest := MaskFrom(len, ds[1..], b + 1, p);
      if ds[0] then FlipByte(rest, FlipMask(len, b, p)) else rest
  }

  lemma FlipNothing(a: Byte)
    ensures FlipByte(a, 0) == a
  {}

  lemma FlipTwice(a: Byte, b: Byte, m: Byte)
    ensures FlipByte(FlipByte(a, m), b) == FlipByte(a, FlipByte(b, m))
    ensures FlipByte(FlipByte(a, b), m) == FlipByte(FlipByte(a, m), b)
    ensures FlipByte(a, b) == FlipByte(FlipByte(a, m), FlipByte(b, m))
  {}

  lemma FlipsDiffer(a: Byte, b: Byte, c: Byte)
    ensures FlipByte(a, b) == FlipByte(a, c) <==> FlipByte(b, c) == 0
  {}

  /** An alternate is the name with the bits of the selected flips changed. */
  lemma {:induction false} AlternateIsMasked(name: seq<Byte>, bits: nat, b: nat, left: nat)
    requires b + left == Usable(|name|) && bits < Basics.Pow2(left) && AlternateFrom(name, bits, b).Alternate?
    ensures var r := AlternateFrom(name, bits, b).name;
            |r| == |name| && forall p :: 0 <= p < |name| ==>
              r[p] == FlipByte(name[p], MaskFrom(|name|, Digits(bits, left), b, p))
    decreases left
  {
    hide FlipByte, InvalidChar, SpotOf, Usable, Basics.Pow2, FlipMask;
    if left == 0 {
      PowZero();
      forall p | 0 <= p < |name| ensures FlipByte(name[p], 0) == name[p] {
        FlipNothing(name[p]);
      }
    } else {
      HalfBelow(bits, Basics.Pow2(left - 1));
      PowNext(left);
      var ds := Digits(bits, left);
      assert ds[0] == (bits % 2 == 1) && ds[1..] == Digits(bits / 2, left - 1);
      if bits % 2 == 0 {
        if bits == 0 { NoFlips(name, b + 1); }
        AlternateIsMasked(name, bits / 2, b + 1, left - 1);
      } else {
        OneFlip(name, b);
        var next := Flipped(name, b).name;
        AlternateIsMasked(next, bits / 2, b + 1, left - 1);
        forall p | 0 <= p < |name|
          ensures FlipByte(next[p], MaskFrom(|name|, ds[1..], b + 1, p)) ==
                  FlipByte(name[p], MaskFrom(|name|, ds, b, p))
        {
          FlipTwice(name[p], MaskFrom(|name|, ds[1..], b + 1, p), FlipMask(|name|, b, p));
        }
      }
    }
  }

  lemma PowZero()
    ensures Basics.Pow2(0) == 1
  {}

  lemma PowNext(e: nat)
    requires e > 0
    ensures Basics.Pow2(e) == 2 * Basics.Pow2(e - 1)
  {}

  lemma NoFlips(name: seq<Byte>, b: nat)
    ensures AlternateFrom(name, 0, b) == Alternate(name)
  {}

  lemma OneFlip(name: seq<Byte>, b: nat)
    requires Flipped(name, b).Alternate?
    ensures b < Usable(|name|)
    ensures var r := Flipped(name, b).name;
            |r| == |name| && forall p :: 0 <= p < |name| ==> r[p] == FlipByte(name[p], FlipMask(|name|, b, p))
  {
    hide FlipByte, InvalidChar, Usable, SpotOf;
    forall p | 0 <= p < |name| ensures FlipByte(name[p], 0) == name[p] {
      FlipNothing(name[p]);
    }
  }

  /** The digits in which two numbers differ. */
  function Differences(ds: seq<bool>, es: seq<bool>): (xs: seq<bool>)
    requires |ds| == |es|
    ensures |xs| == |ds| && forall k :: 0 <= k < |ds| ==> xs[k] == (ds[k] != es[k])
  {
    seq(|ds|, k requires 0 <= k < |ds| => ds[k] != es[k])
  }

  lemma {:induction false} MaskOfDifferences(len: nat, ds: seq<bool>, es: seq<bool>, b: nat, p: nat)
    requires |ds| == |es| && b + |ds| <= Usable(len)
    ensures MaskFrom(len, Differences(ds, es), b, p) == FlipByte(MaskFrom(len, ds, b, p), MaskFrom(len, es, b, p))
    decreases |ds|
  {
    hide FlipByte, FlipMask, Usable;
    if ds == [] {
      FlipNothing(0);
    } else {
      MaskOfDifferences(len, ds[1..], es[1..], b + 1, p);
      assert Differences(ds, es)[1..] == Differences(ds[1..], es[1..]);
      var d, e, m := MaskFrom(len, ds[1..], b + 1, p), MaskFrom(len, es[1..], b + 1, p), FlipMask(len, b, p);
      FlipTwice(d, e, m);
    }
  }

  /** Flip number k is among the selected ones. */
  predicate Selects(xs: seq<bool>, b: nat, k: nat) { b <= k < b + |xs| && xs[k - b] }

  /** Of a bit of byte p, flip number j changes it exactly if it is one of two. */
  predicate Touches(len: nat, j: nat, p: nat, m: Byte, k: nat, l: nat)
    requires j < Usable(len)
  {
    FlipMask(len, j, p) & m == if j == k || j == l then m else 0
  }

  /** A bit that only flips k and l touch tells whether one of them is selected, and not the other. */
  lemma {:induction false} BitTells(len: nat, xs: seq<bool>, b: nat, p: nat, m: Byte, k: nat, l: nat)
    requires b + |xs| <= Usable(len) && m != 0
    requires forall j: nat :: b <= j < b + |xs| ==> Touches(len, j, p, m, k, l)
    ensures MaskFrom(len, xs, b, p) & m ==
            if k == l then (if Selects(xs, b, k) then m else 0)
            else if Selects(xs, b, k) != Selects(xs, b, l) then m else 0
    decreases |xs|
  {
    hide FlipMask, Usable;
    if xs == [] {
      NoBits(m);
    } else {
      BitTells(len, xs[1..], b + 1, p, m, k, l);
      assert Touches(len, b, p, m, k, l);
      UnderMask(MaskFrom(len, xs[1..], b + 1, p), FlipMask(len, b, p), m);
      assert forall j: nat :: j != b ==> (Selects(xs, b, j) <==> Selects(xs[1..], b + 1, j));
    }
  }

  lemma NoBits(m: Byte)
    ensures 0 & m == 0
  {}

  lemma UnderMask(a: Byte, b: Byte, m: Byte)
    ensures b & m == 0 ==> FlipByte(a, b) & m == a & m
    ensures b & m == m && a & m == m ==> FlipByte(a, b) & m == 0
    ensures b & m == m && a & m == 0 ==> FlipByte(a, b) & m == m
  {}

  ghost predicate Nothing(xs: seq<bool>) { forall k :: 0 <= k < |xs| ==> !xs[k] }

  /** The flips of rows 13, 12 and 3, and no others. */
  ghost predicate Trio(xs: seq<bool>) {
    |xs| == 14 && forall k :: 0 <= k < 14 ==> (xs[k] <==> k == 0 || k == 1 || k == 10)
  }

  /** Row i is not selected, or with row 13 only. */
  predicate Told(xs: seq<bool>, i: nat)
    requires i < 12 && i < |xs|
  {
    if i == 3 && |xs| == 14 then xs[10] == xs[0] else !xs[|xs| - 1 - i]
  }

  /** A bit of its own tells whether the flip of a row is selected. */
  lemma RowTells(len: nat, xs: seq<bool>, i: nat)
    requires len >= 2 && |xs| == Usable(len) && i < 12 && i < |xs|
    requires forall p: nat :: p < len ==> MaskFrom(len, xs, 0, p) == 0
    ensures Told(xs, i)
  {
    hide RowMask, Usable, FlipMask, MaskFrom, OwnMask;
    var u, m, k := |xs|, OwnMask(i), |xs| - 1 - i;
    var l := if i == 3 && u == 14 then 0 else k;
    var p := len - 1 - LastByte(len) + OwnByte(i);
    UsableIs(len);
    NoBits(m);
    OwnBit(i, i);
    forall j: nat | j < u ensures Touches(len, j, p, m, k, l) {
      FlipMaskIsRow(len, j, p);
      OwnBit(i, u - 1 - j);
    }
    BitTells(len, xs, 0, p, m, k, l);
  }

  lemma UsableIs(len: nat)
    requires len >= 2
    ensures Usable(len) == if len <= 4 then len - 1 else if len == 5 then 8 else 14
  {}

  lemma LastTells(len: nat, xs: seq<bool>)
    requires len >= 6 && |xs| == Usable(len) && MaskFrom(len, xs, 0, len - 1) == 0
    ensures |xs| == 14 && xs[1] == xs[0]
  {
    UsableIs(len);
    hide RowMask, Usable, FlipMask, MaskFrom;
    var p: nat, m: Byte := len - 1, 0x80;
    NoBits(m);
    forall j: nat | j < 14 ensures Touches(len, j, p, m, 1, 0) {
      FlipMaskIsRow(len, j, p);
      LastBit(13 - j);
    }
    BitTells(len, xs, 0, p, m, 1, 0);
  }

  /** Selected flips change nothing only if there are none, or the three that cancel. */
  lemma OnlyTrioVanishes(len: nat, xs: seq<bool>)
    requires len >= 2 && |xs| == Usable(len) && forall p: nat :: p < len ==> MaskFrom(len, xs, 0, p) == 0
    ensures Nothing(xs) || Trio(xs)
  {
    UsableIs(len);
    hide MaskFrom, Usable;
    if len >= 6 { LastTells(len, xs); }
    forall i: nat | i < 12 && i < |xs| ensures Told(xs, i) {
      RowTells(len, xs, i);
    }
    forall k: nat | k < |xs| && !(|xs| == 14 && (k == 0 || k == 1 || k == 10)) ensures !xs[k] {
      var i: nat := |xs| - 1 - k;
      assert i < 12 && Told(xs, i) && !(i == 3 && |xs| == 14);
    }
    if |xs| == 14 { assert Told(xs, 3); }
  }

  function Only(k: nat, count: nat): (xs: seq<bool>)
    ensures |xs| == count && forall j :: 0 <= j < count ==> xs[j] == (j == k)
  {
    seq(count, j requires 0 <= j < count => j == k)
  }

  lemma {:induction false} OneSelected(len: nat, xs: seq<bool>, b: nat, k: nat, p: nat)
    requires b + |xs| <= Usable(len) && forall j :: 0 <= j < |xs| ==> xs[j] == (b + j == k)
    ensures MaskFrom(len, xs, b, p) == if b <= k < b + |xs| then FlipMask(len, k, p) else 0
    decreases |xs|
  {
    hide FlipMask, Usable, FlipByte;
    if xs != [] {
      OneSelected(len, xs[1..], b + 1, k, p);
      if xs[0] { FlipFrom(FlipMask(len, b, p)); }
    }
  }

  lemma FlipFrom(m: Byte)
    ensures FlipByte(0, m) == m
  {}

  lemma TrioVanishes(len: nat, xs: seq<bool>, p: nat)
    requires len >= 6 && Trio(xs) && p < len
    ensures Usable(len) == 14 && MaskFrom(len, xs, 0, p) == 0
  {
    hide FlipMask, Usable, FlipByte, MaskFrom;
    UsableIs(len);
    var a, b, c := Only(0, 14), Only(1, 14), Only(10, 14);
    var ab := Differences(a, b);
    assert xs == Differences(ab, c);
    MaskOfDifferences(len, ab, c, 0, p);
    MaskOfDifferences(len, a, b, 0, p);
    OneSelected(len, a, 0, 0, p);
    OneSelected(len, b, 0, 1, p);
    OneSelected(len, c, 0, 10, p);
    FlipsCancel(len, p);
  }

  lemma FlipsCancel(len: nat, p: nat)
    requires len >= 6 && Usable(len) == 14
    ensures FlipByte(FlipByte(FlipMask(len, 0, p), FlipMask(len, 1, p)), FlipMask(len, 10, p)) == 0
  {
    hide FlipMask, Usable, FlipByte, RowMask;
    FlipMaskIsRow(len, 0, p);
    FlipMaskIsRow(len, 1, p);
    FlipMaskIsRow(len, 10, p);
    if p >= len - 6 {
      var byte: nat := p - (len - 6);
      RowsCancel(byte);
      Cancelled(RowMask(13, byte), RowMask(12, byte), RowMask(3, byte));
    } else {
      FlipNothing(0);
    }
  }

  lemma Cancelled(a: Byte, b: Byte, c: Byte)
    requires c ^ b ^ a == 0
    ensures FlipByte(FlipByte(a, b), c) == 0
  {}

  /** Two numbers that select the same flips, or flips that differ in just the three that cancel. */
  ghost predicate SameFlips(len: nat, n: nat, m: nat) {
    n == m || (len >= 6 && Trio(Differences(Digits(n, 14), Digits(m, 14))))
  }

  /**
   * Which alternates are the same name: up to five bytes, no two of them; for longer names, those whose numbers
   * differ in the digits 0, 1 and 10, and in no others, since rows 13, 12 and 3 cancel.
   */
  lemma AlternatesAreSame(name: seq<Byte>, n: nat, m: nat)
    requires |name| >= 2 && n < Basics.Pow2(Usable(|name|)) && m < Basics.Pow2(Usable(|name|))
    requires AlternateName(name, n).Alternate? && AlternateName(name, m).Alternate?
    ensures AlternateName(name, n).name == AlternateName(name, m).name <==> SameFlips(|name|, n, m)
  {
    hide FlipMask, Usable, FlipByte, MaskFrom, Basics.Pow2, Trio, Nothing, AlternateFrom, Digits;
    var len, u := |name|, Usable(|name|);
    UsableIs(len);
    var xs := Differences(Digits(n, u), Digits(m, u));
    DigitsDiffer(n, m, u);
    NothingDiffers(Digits(n, u), Digits(m, u));
    SameWhereNoMask(name, n, m);
    var r, s := AlternateName(name, n).name, AlternateName(name, m).name;
    if r == s {
      assert forall p: nat :: p < len ==> r[p] == s[p];
      OnlyTrioVanishes(len, xs);
      TrioLength(xs);
    }
    if len >= 6 && Trio(xs) {
      forall p: nat | p < len ensures r[p] == s[p] {
        TrioVanishes(len, xs, p);
      }
    }
  }

  lemma SameWhereNoMask(name: seq<Byte>, n: nat, m: nat)
    requires n < Basics.Pow2(Usable(|name|)) && m < Basics.Pow2(Usable(|name|))
    requires AlternateName(name, n).Alternate? && AlternateName(name, m).Alternate?
    ensures var u, r, s := Usable(|name|), AlternateName(name, n).name, AlternateName(name, m).name;
            && |r| == |s| == |name|
            && forall p: nat :: p < |name| ==>
                 (r[p] == s[p] <==> MaskFrom(|name|, Differences(Digits(n, u), Digits(m, u)), 0, p) == 0)
  {
    hide FlipMask, Usable, FlipByte, MaskFrom, Basics.Pow2, AlternateFrom, Digits;
    var len, u := |name|, Usable(|name|);
    var ds, es := Digits(n, u), Digits(m, u);
    AlternateIsMasked(name, n, 0, u);
    AlternateIsMasked(name, m, 0, u);
    forall p: nat | p < len
      ensures AlternateName(name, n).name[p] == AlternateName(name, m).name[p] <==>
              MaskFrom(len, Differences(ds, es), 0, p) == 0
    {
      MaskOfDifferences(len, ds, es, 0, p);
      FlipsDiffer(name[p], MaskFrom(len, ds, 0, p), MaskFrom(len, es, 0, p));
    }
  }

  lemma NothingDiffers(ds: seq<bool>, es: seq<bool>)
    requires |ds| == |es|
    ensures Nothing(Differences(ds, es)) <==> ds == es
  {}

  lemma TrioLength(xs: seq<bool>)
    ensures Trio(xs) ==> |xs| == 14
  {}

  /** The numbers below k that give a name, and the names they give. */
  ghost function Numbers(name: seq<Byte>, k: nat): set<nat> {
    set n: nat | n < k && AlternateName(name, n).Alternate?
  }

  ghost function Names(name: seq<Byte>, k: nat): set<seq<Byte>> {
    set n: nat | n < k && AlternateName(name, n).Alternate? :: AlternateName(name, n).name
  }

  /** Up to five bytes there are as many names as there are numbers that give one. */
  lemma {:induction false} AsManyNames(name: seq<Byte>, k: nat)
    requires 2 <= |name| <= 5 && k <= Basics.Pow2(Usable(|name|))
    ensures |Names(name, k)| == |Numbers(name, k)|
    decreases k
  {
    hide AlternateFrom, Usable, Basics.Pow2;
    if k == 0 {
      assert Numbers(name, 0) == {};
    } else {
      AsManyNames(name, k - 1);
      if AlternateName(name, k - 1).Alternate? {
        assert Numbers(name, k) == Numbers(name, k - 1) + {k - 1};
        var last := AlternateName(name, k - 1).name;
        assert Names(name, k) == Names(name, k - 1) + {last};
        if n: nat :| n < k - 1 && AlternateName(name, n).Alternate? && AlternateName(name, n).name == last {
          AlternatesAreSame(name, n, k - 1);
        }
        assert last !in Names(name, k - 1);
      } else {
        assert Numbers(name, k) == Numbers(name, k - 1);
        assert Names(name, k) == Names(name, k - 1);
      }
    }
  }
}
