/** Bit fields of any width at any bit offset: writing one and reading it back. */
module BitVal {

  import opened Basics

  /** One bit of a byte, counted from the most significant: 1 << (7 - k). */
  function Mask(k: nat): bv8
    requires k < 8
  {
    match k
    case 0 => 0x80
    case 1 => 0x40
    case 2 => 0x20
    case 3 => 0x10
    case 4 => 0x08
    case 5 => 0x04
    case 6 => 0x02
    case _ => 0x01
  }

  predicate HasBit(b: bv8, k: nat)
    requires k < 8
  {
    b & Mask(k) != 0
  }

  function WithBit(b: bv8, k: nat, val: bool): bv8
    requires k < 8
  {
    if val then b | Mask(k) else b & !Mask(k)
  }

  lemma Masks(b: bv8, m: bv8, n: bv8)
    ensures (b | m) & m == m && (b & !m) & m == 0
    ensures m & n == 0 ==> (b | m) & n == b & n && (b & !m) & n == b & n
  {}

  lemma MasksDiffer(j: nat, k: nat)
    requires j < 8 && k < 8
    ensures Mask(j) != 0 && (j != k ==> Mask(j) & Mask(k) == 0)
  {}

  /** Setting one bit of a byte sets that bit and no other. */
  lemma BitSet(b: bv8, k: nat, val: bool, j: nat)
    requires j < 8 && k < 8
    ensures HasBit(WithBit(b, k, val), j) == if j == k then val else HasBit(b, j)
  {
    Masks(b, Mask(k), Mask(j));
    MasksDiffer(j, k);
    MasksDiffer(k, j);
    hide Mask;
  }

  /** Bit k of a buffer. */
  predicate Bit(s: seq<bv8>, k: nat)
    requires k < 8 * |s|
  {
    HasBit(s[k / 8], k % 8)
  }

  function Bits(s: seq<bv8>, from: nat, n: nat): (bits: seq<bool>)
    requires from + n <= 8 * |s|
    ensures |bits| == n && forall k :: 0 <= k < n ==> bits[k] == Bit(s, from + k)
  {
    seq(n, k requires 0 <= k < n => Bit(s, from + k))
  }

  /** Bits as a number, the most significant first. */
  function Value(bits: seq<bool>): nat {
    if bits == [] then 0 else 2 * Value(bits[..|bits| - 1]) + (if bits[|bits| - 1] then 1 else 0)
  }

  /** What a field of these bits is as a 64-bit integer; a full 64 bits always carry a sign. */
  function Field(bits: seq<bool>, signed: bool): int
    requires |bits| <= 64
  {
    Value(bits) - (if bits != [] && bits[0] && (signed || |bits| == 64) then Pow2(|bits|) else 0)
  }

  lemma {:induction false} ValueConcat(a: seq<bool>, b: seq<bool>)
    ensures Value(a + b) == Value(a) * Pow2(|b|) + Value(b)
    decreases |b|
  {
    if b == [] {
      assert a + b == a;
    } else {
      var front := b[..|b| - 1];
      ValueConcat(a, front);
      assert (a + b)[..|a + b| - 1] == a + front;
      assert Value(a) * Pow2(|b|) == 2 * (Value(a) * Pow2(|front|));
    }
  }

  lemma {:induction false} ValueBound(bits: seq<bool>)
    ensures Value(bits) < Pow2(|bits|)
    decreases |bits|
  {
    if bits != [] { ValueBound(bits[..|bits| - 1]); }
  }

  /** An unsigned byte. */
  function Number(b: bv8): nat { b as nat }

  lemma NumberOfBits(b: bv8)
    ensures b as nat == (if b & 0x80 != 0 then 128 else 0) + (if b & 0x40 != 0 then 64 else 0)
                        + (if b & 0x20 != 0 then 32 else 0) + (if b & 0x10 != 0 then 16 else 0)
                        + (if b & 0x08 != 0 then 8 else 0) + (if b & 0x04 != 0 then 4 else 0)
                        + (if b & 0x02 != 0 then 2 else 0) + (if b & 0x01 != 0 then 1 else 0)
  {}

  /** Bit k of a byte has the weight of 1 << (7 - k) in its number. */
  lemma BitOfNumber(b: bv8, k: nat)
    requires k < 8
    ensures HasBit(b, k) <==> Number(b) / Pow2(7 - k) % 2 == 1
  {
    hide Pow2, Number;
    PowerOfTwo(7 - k);
    NumberIs(b);
    DigitsOf(Number(b), Digit(b, 0x80), Digit(b, 0x40), Digit(b, 0x20), Digit(b, 0x10),
             Digit(b, 0x08), Digit(b, 0x04), Digit(b, 0x02), Digit(b, 0x01));
  }

  lemma NumberIs(b: bv8)
    ensures Number(b) == 128 * Digit(b, 0x80) + 64 * Digit(b, 0x40) + 32 * Digit(b, 0x20) + 16 * Digit(b, 0x10)
                         + 8 * Digit(b, 0x08) + 4 * Digit(b, 0x04) + 2 * Digit(b, 0x02) + Digit(b, 0x01)
  {
    NumberOfBits(b);
  }

  lemma DigitsOf(x: nat, d7: nat, d6: nat, d5: nat, d4: nat, d3: nat, d2: nat, d1: nat, d0: nat)
    requires d7 < 2 && d6 < 2 && d5 < 2 && d4 < 2 && d3 < 2 && d2 < 2 && d1 < 2 && d0 < 2
    requires x == 128 * d7 + 64 * d6 + 32 * d5 + 16 * d4 + 8 * d3 + 4 * d2 + 2 * d1 + d0
    ensures x / 128 % 2 == d7 && x / 64 % 2 == d6 && x / 32 % 2 == d5 && x / 16 % 2 == d4
    ensures x / 8 % 2 == d3 && x / 4 % 2 == d2 && x / 2 % 2 == d1 && x / 1 % 2 == d0
  {
    DigitAt(0, d7, x - 128 * d7, 128);
    DigitAt(d7, d6, 32 * d5 + 16 * d4 + 8 * d3 + 4 * d2 + 2 * d1 + d0, 64);
    DigitAt(2 * d7 + d6, d5, 16 * d4 + 8 * d3 + 4 * d2 + 2 * d1 + d0, 32);
    DigitAt(4 * d7 + 2 * d6 + d5, d4, 8 * d3 + 4 * d2 + 2 * d1 + d0, 16);
    DigitAt(8 * d7 + 4 * d6 + 2 * d5 + d4, d3, 4 * d2 + 2 * d1 + d0, 8);
    DigitAt(16 * d7 + 8 * d6 + 4 * d5 + 2 * d4 + d3, d2, 2 * d1 + d0, 4);
    DigitAt(32 * d7 + 16 * d6 + 8 * d5 + 4 * d4 + 2 * d3 + d2, d1, d0, 2);
    DigitAt(64 * d7 + 32 * d6 + 16 * d5 + 8 * d4 + 4 * d3 + 2 * d2 + d1, d0, 0, 1);
  }

  lemma DigitAt(high: nat, d: nat, low: nat, p: nat)
    requires d < 2 && low < p
    ensures (high * (2 * p) + d * p + low) / p % 2 == d
  {
    ModUnique(2 * high + d, low, p);
    assert (2 * high + d) * p == high * (2 * p) + d * p;
  }

  function Digit(b: bv8, m: bv8): (d: nat)
    ensures d == 0 || d == 1
  {
    if b & m != 0 then 1 else 0
  }

  lemma PowerOfTwo(e: nat)
    requires e < 8
    ensures Pow2(e) == if e == 0 then 1 else if e == 1 then 2 else if e == 2 then 4 else if e == 3 then 8
                       else if e == 4 then 16 else if e == 5 then 32 else if e == 6 then 64 else 128
  {
    if e > 0 { PowerOfTwo(e - 1); }
  }

  /** The bits of a byte make its number, the first the most significant. */
  lemma ByteValue(b: bv8)
    ensures Value(Bits([b], 0, 8)) == Number(b)
  {
    hide HasBit, Value, Pow2;
    var bits := Bits([b], 0, 8);
    forall i | 0 <= i < 8 ensures bits[i] <==> Number(b) / Pow2(7 - i) % 2 == 1 {
      BitOfNumber(b, i);
    }
    ValueOfDigits(bits, Number(b), 8);
  }

  lemma {:induction false} ValueOfDigits(bits: seq<bool>, x: nat, i: nat)
    requires i <= 8 == |bits| && x < 256
    requires forall k :: 0 <= k < 8 ==> (bits[k] <==> x / Pow2(7 - k) % 2 == 1)
    ensures Value(bits[..i]) == x / Pow2(8 - i)
    ensures i == 8 ==> Value(bits) == x
    decreases i
  {
    hide Value, Pow2;
    if i == 0 {
      Pow8();
      Nothing();
      assert bits[..0] == [];
    } else {
      ValueOfDigits(bits, x, i - 1);
      ValueSnoc(bits, i - 1);
      PowStep(8 - i);
      Halved(x, Pow2(8 - i));
      if i == 8 {
        Nothing();
        assert bits[..8] == bits;
      }
    }
  }

  lemma Halved(x: nat, p: nat)
    requires p > 0
    ensures x / p == 2 * (x / (2 * p)) + x / p % 2
  {
    var q, r := x / p, x % p;
    assert x == q / 2 * (2 * p) + (q % 2 * p + r);
    ModUnique(q / 2, q % 2 * p + r, 2 * p);
  }

  /** Bytes as a number, the first the most significant. */
  function BigEndian(s: seq<bv8>): nat {
    if s == [] then 0 else BigEndian(s[..|s| - 1]) * 256 + Number(s[|s| - 1])
  }

  /** Bytes as a number, the first the least significant: an integer in memory of the host. */
  function LittleEndian(s: seq<bv8>): nat {
    if s == [] then 0 else Number(s[0]) + 256 * LittleEndian(s[1..])
  }

  function Swapped(s: seq<bv8>): (r: seq<bv8>)
    ensures |r| == |s| && forall i :: 0 <= i < |s| ==> r[i] == s[|s| - 1 - i]
  {
    seq(|s|, i requires 0 <= i < |s| => s[|s| - 1 - i])
  }

  lemma {:induction false} SwappedNumber(s: seq<bv8>)
    ensures BigEndian(Swapped(s)) == LittleEndian(s)
    decreases |s|
  {
    if s != [] {
      SwappedNumber(s[1..]);
      assert Swapped(s)[..|s| - 1] == Swapped(s[1..]);
    }
  }

  lemma Pow8()
    ensures Pow2(8) == 256
  {
    assert Pow2(8) == 16 * Pow2(4) && Pow2(4) == 16;
  }

  /** The bits of bytes make the same number as the bytes. */
  lemma {:induction false} BytesValue(s: seq<bv8>)
    ensures Value(Bits(s, 0, 8 * |s|)) == BigEndian(s)
    decreases |s|
  {
    hide HasBit, Value, Pow2, Number, Bits;
    if s == [] {
      NoBits(s);
      Nothing();
    } else {
      var n := |s| - 1;
      BytesValue(s[..n]);
      Pow8();
      ByteValue(s[n]);
      LastByte(s);
      ValueConcat(Bits(s[..n], 0, 8 * n), Bits([s[n]], 0, 8));
    }
  }

  lemma NoBits(s: seq<bv8>)
    ensures Bits(s, 0, 0) == []
  {}

  lemma LastByte(s: seq<bv8>)
    requires s != []
    ensures var n := |s| - 1;
            Bits(s, 0, 8 * |s|) == Bits(s[..n], 0, 8 * n) + Bits([s[n]], 0, 8)
  {
    hide HasBit;
  }

  lemma BitsOfSlice(s: seq<bv8>, at: nat, n: nat)
    requires at + n <= |s|
    ensures Bits(s, 8 * at, 8 * n) == Bits(s[at..at + n], 0, 8 * n)
  {
    hide HasBit;
  }

  /** The bits are the same elsewhere. */
  ghost predicate SameOutside(s: seq<bv8>, t: seq<bv8>, from: nat, n: nat) {
    |s| == |t| && forall k: nat :: k < 8 * |s| && !(from <= k < from + n) ==> Bit(s, k) == Bit(t, k)
  }

  /** getbit */
  method GetBit(buf: array<bv8>, bit: nat) returns (val: bool)
    requires bit < 8 * buf.Length
    ensures val == Bit(buf[..], bit)
  {
    var mask := Mask(bit % 8);
    val := buf[bit / 8] & mask != 0;
  }

  /** setbit: one bit changes, and no other. */
  method SetBit(buf: array<bv8>, bit: nat, val: bool)
    requires bit < 8 * buf.Length
    modifies buf
    ensures Bit(buf[..], bit) == val && SameOutside(buf[..], old(buf[..]), bit, 1)
  {
    hide Bit, SameOutside, HasBit, Mask;
    ghost var was := buf[..];
    var mask := Mask(bit % 8);
    if val {
      buf[bit / 8] := buf[bit / 8] | mask;
    } else {
      buf[bit / 8] := buf[bit / 8] & !mask;
    }
    assert buf[..] == was[bit / 8 := WithBit(was[bit / 8], bit % 8, val)];
    OneByte(was, bit, val);
  }

  lemma OneByte(was: seq<bv8>, bit: nat, val: bool)
    requires bit < 8 * |was|
    ensures var now := was[bit / 8 := WithBit(was[bit / 8], bit % 8, val)];
            Bit(now, bit) == val && SameOutside(now, was, bit, 1)
  {
    hide HasBit, WithBit;
    forall k: nat | k < 8 * |was| && k / 8 == bit / 8
      ensures HasBit(WithBit(was[bit / 8], bit % 8, val), k % 8) == if k == bit then val else Bit(was, k)
    {
      BitSet(was[bit / 8], bit % 8, val, k % 8);
    }
  }

  /** An unsigned number of n bits read as two's complement. */
  function Signed(x: nat, n: nat): int
    requires n > 0
  {
    if x >= Pow2(n - 1) then x - Pow2(n) else x
  }

  /** The sign bit is the first. */
  lemma FieldIs(bits: seq<bool>, signed: bool)
    requires 0 < |bits| <= 64
    ensures Field(bits, signed) == if signed || |bits| == 64 then Signed(Value(bits), |bits|) else Value(bits)
  {
    hide Value, Pow2;
    var first, rest := bits[..1], bits[1..];
    assert bits == first + rest;
    ValueConcat(first, rest);
    ValueBound(rest);
    OneBit(first);
    PowStep(|rest|);
  }

  lemma OneBit(bits: seq<bool>)
    requires |bits| == 1
    ensures Value(bits) == if bits[0] then 1 else 0
  {
    assert bits[..0] == [];
  }

  lemma PowStep(e: nat)
    ensures Pow2(e + 1) == 2 * Pow2(e)
  {}

  /** 1LL << e, as a 64-bit integer. */
  function Shifted(e: nat): int
    requires e < 64
  {
    if e == 63 then -Pow2(63) else Pow2(e)
  }

  /** The integer built from the first i bits of a field. */
  ghost function Partial(bits: seq<bool>, signed: bool, i: nat): int
    requires i <= |bits| <= 64
  {
    Value(bits[..i]) * Pow2(|bits| - i)
    - (if i > 0 && bits[0] && (signed || |bits| == 64) then Pow2(|bits|) else 0)
  }

  lemma PartialStep(bits: seq<bool>, signed: bool, i: nat)
    requires i < |bits| <= 64
    ensures Partial(bits, signed, i + 1) ==
            if !bits[i] then Partial(bits, signed, i)
            else
              var before := if i == 0 && signed && |bits| < 64 then -Pow2(|bits|) else Partial(bits, signed, i);
              before + Shifted(|bits| - i - 1)
  {
    hide Value, Pow2, Shifted;
    var e := |bits| - i - 1;
    var v, p := Value(bits[..i]), Pow2(e);
    ValueSnoc(bits, i);
    PowStep(e);
    Scale(v, p);
    ShiftedIs(e);
    assert Partial(bits, signed, i) ==
           v * (2 * p) - (if i > 0 && bits[0] && (signed || |bits| == 64) then Pow2(|bits|) else 0);
    if i == 0 {
      Nothing();
      assert bits[..0] == [];
    }
  }

  lemma ShiftedIs(e: nat)
    requires e < 64
    ensures Shifted(e) == if e == 63 then Pow2(63) - Pow2(64) else Pow2(e)
  {
    PowStep(63);
  }

  lemma ValueSnoc(bits: seq<bool>, i: nat)
    requires i < |bits|
    ensures Value(bits[..i + 1]) == 2 * Value(bits[..i]) + (if bits[i] then 1 else 0)
  {
    assert bits[..i + 1][..i] == bits[..i];
  }

  lemma Scale(v: nat, p: nat)
    ensures (2 * v) * p == v * (2 * p) && (2 * v + 1) * p == v * (2 * p) + p
  {}

  lemma Nothing()
    ensures Value([]) == 0 && Pow2(0) == 1
  {}

  // --- or-ing a bit in -----------------------------------------------------------------------

  /** An integer of n + 1 bits in two's complement. */
  predicate Fits(x: int, n: nat) { -Pow2(n) <= x < Pow2(n) }

  /** The operator | on integers of n + 1 bits, bit by bit from the lowest; the last is the sign. */
  function Or(x: int, y: int, n: nat): int
    decreases n
  {
    if n == 0 then if x < 0 || y < 0 then -1 else 0
    else 2 * Or(x / 2, y / 2, n - 1) + if x % 2 == 1 || y % 2 == 1 then 1 else 0
  }

  /** The integer in which only bit e is set. */
  function OneBitOf(e: nat, n: nat): int
    requires e <= n
  {
    if e == n then -Pow2(n) else Pow2(e)
  }

  lemma {:induction false} OrZero(x: int, n: nat)
    requires Fits(x, n)
    ensures Or(x, 0, n) == x == Or(0, x, n)
    decreases n
  {
    if n > 0 { OrZero(x / 2, n - 1); }
  }

  /** As long as a bit and those below it are clear, or-ing it in is adding it. */
  lemma {:induction false} OrIsSum(x: int, e: nat, n: nat)
    requires e <= n && Fits(x, n) && x % Pow2(e + 1) == 0
    ensures Or(x, OneBitOf(e, n), n) == x + OneBitOf(e, n)
    decreases n
  {
    EvenMultiple(x, Pow2(e));
    if n > 0 {
      if e == 0 {
        OrZero(x / 2, n - 1);
      } else {
        assert OneBitOf(e, n) == 2 * OneBitOf(e - 1, n - 1);
        OrIsSum(x / 2, e - 1, n - 1);
      }
    }
  }

  lemma EvenMultiple(x: int, p: int)
    requires p > 0 && x % (2 * p) == 0
    ensures x % 2 == 0 && x / 2 % p == 0
  {
    var k := x / (2 * p);
    assert x == 2 * (k * p);
    MulMod(k, p);
  }

  lemma {:induction false} PowSum(a: nat, b: nat)
    ensures Pow2(a) * Pow2(b) == Pow2(a + b)
    decreases a
  {
    if a > 0 {
      PowSum(a - 1, b);
      assert Pow2(a) * Pow2(b) == 2 * (Pow2(a - 1) * Pow2(b));
    }
  }

  lemma {:induction false} PowGrows(a: nat, b: nat)
    requires a <= b
    ensures Pow2(a) <= Pow2(b)
    decreases b
  {
    if a < b { PowGrows(a, b - 1); }
  }

  /** The first bit is the highest. */
  lemma FirstBit(bits: seq<bool>)
    requires bits != []
    ensures var half := Pow2(|bits| - 1);
            && Pow2(|bits|) == 2 * half
            && if bits[0] then half <= Value(bits) < 2 * half else Value(bits) < half
  {
    hide Value;
    var first, rest := bits[..1], bits[1..];
    assert bits == first + rest;
    ValueConcat(first, rest);
    ValueBound(rest);
    OneBit(first);
  }

  /** The bits that are still to come are clear in what has been built, and it fits 64 bits. */
  lemma PartialIsClear(bits: seq<bool>, signed: bool, i: nat)
    requires i < |bits| <= 64
    ensures Partial(bits, signed, i) % Pow2(|bits| - i) == 0 && Fits(Partial(bits, signed, i), 63)
  {
    hide Value, Pow2;
    var n, v, p := |bits|, Value(bits[..i]), Pow2(|bits| - i);
    var c := if i > 0 && bits[0] && (signed || n == 64) then Pow2(i) else 0;
    PowSum(i, n - i);
    assert Partial(bits, signed, i) == (v - c) * p;
    hide Partial;
    MulMod(v - c, p);
    PrefixFits(bits, signed, i);
  }

  lemma PrefixFits(bits: seq<bool>, signed: bool, i: nat)
    requires i < |bits| <= 64
    ensures var c := if i > 0 && bits[0] && (signed || |bits| == 64) then Pow2(i) else 0;
            Fits((Value(bits[..i]) - c) * Pow2(|bits| - i), 63)
  {
    hide Value, Pow2;
    var n, v, p := |bits|, Value(bits[..i]), Pow2(|bits| - i);
    var c := if i > 0 && bits[0] && (signed || n == 64) then Pow2(i) else 0;
    if i == 0 {
      Nothing();
      assert bits[..0] == [];
      PowGrows(0, 63);
    } else {
      FirstBit(bits[..i]);
      var half := Pow2(i - 1);
      PowSum(i - 1, n - i);
      PowStep(n - 1);
      if n < 64 { PowGrows(n, 63); }
      Between(v - c, half, p);
    }
  }

  lemma Between(x: int, h: int, p: int)
    requires p > 0
    ensures -h <= x ==> -(h * p) <= x * p
    ensures x < h ==> x * p < h * p
    ensures x < 0 ==> x * p < 0
    ensures x < 2 * h ==> x * p < 2 * (h * p)
    ensures x >= 0 ==> x * p >= 0
  {
    if -h <= x { assert (x + h) * p >= 0; }
    if x < h { assert (h - x) * p > 0; }
    if x < 2 * h { assert (2 * h - x) * p > 0; }
  }

  /** In the loop, or-ing in the next bit is adding it. */
  lemma OrIsStep(bits: seq<bool>, signed: bool, i: nat)
    requires i < |bits| <= 64
    ensures var before := if i == 0 && signed && |bits| < 64 then -Pow2(|bits|) else Partial(bits, signed, i);
            Or(before, Shifted(|bits| - i - 1), 63) == before + Shifted(|bits| - i - 1)
  {
    hide Or, Partial, Pow2;
    var n, e := |bits|, |bits| - i - 1;
    PartialIsClear(bits, signed, i);
    var before := if i == 0 && signed && n < 64 then -Pow2(n) else Partial(bits, signed, i);
    if i == 0 && signed && n < 64 {
      MulMod(-1, Pow2(n));
      PowGrows(n, 63);
    }
    assert Shifted(e) == OneBitOf(e, 63);
    OrIsSum(before, e, 63);
  }

  /** The aligned fast paths, for a field of whole bytes. */
  lemma WholeBytes(s: seq<bv8>, bitoff: nat, n: nat, signed: bool)
    requires bitoff % 8 == 0 && bitoff + 8 * n <= 8 * |s| && 0 < n <= 8
    ensures bitoff / 8 + n <= |s|
    ensures Field(Bits(s, bitoff, 8 * n), signed) ==
            var x := BigEndian(s[bitoff / 8..bitoff / 8 + n]); if signed || n == 8 then Signed(x, 8 * n) else x
  {
    hide Value, Pow2, HasBit, BigEndian;
    var bytes := s[bitoff / 8..bitoff / 8 + n];
    BitsOfSlice(s, bitoff / 8, n);
    BytesValue(bytes);
    FieldIs(Bits(bytes, 0, 8 * n), signed);
  }

  /** A big-endian integer of n bytes at a byte boundary. */
  method ReadInteger(obj: array<bv8>, bitoff: nat, n: nat, signed: bool) returns (v: int)
    requires bitoff % 8 == 0 && bitoff + 8 * n <= 8 * obj.Length && 0 < n <= 8
    ensures v == Field(Bits(obj[..], bitoff, 8 * n), signed)
  {
    hide Bits, Field, BigEndian, Signed, Pow2, Value;
    var p := bitoff / 8;
    WholeBytes(obj[..], bitoff, n, signed);
    assert obj[p..p + n] == obj[..][p..p + n];
    var x := BigEndian(obj[p..p + n]);
    v := if signed || n == 8 then Signed(x, 8 * n) else x;
  }

  /**
   * getbitval: the field as an integer, whatever address the buffer is at.
   */
  method GetBitVal(obj: array<bv8>, address: nat, bitoff: nat, nbits: nat, signed: bool) returns (rval: int)
    requires nbits <= 64 && bitoff + nbits <= 8 * obj.Length
    ensures rval == Field(Bits(obj[..], bitoff, nbits), signed)
  {
    hide Field, Pow2, Shifted, Partial, Bit, Or, Fits;
    var p, bit := address + bitoff / 8, bitoff % 8;
    if nbits == 64 && p % 16 == 0 && bit == 0 {
      rval := ReadInteger(obj, bitoff, 8, signed);
      return;
    }
    if nbits == 32 && p % 8 == 0 && bit == 0 {
      rval := ReadInteger(obj, bitoff, 4, signed);
      return;
    }
    if nbits == 16 && p % 4 == 0 && bit == 0 {
      rval := ReadInteger(obj, bitoff, 2, signed);
      return;
    }
    if nbits == 8 && p % 2 == 0 && bit == 0 {
      rval := ReadInteger(obj, bitoff, 1, signed);
      return;
    }
    ghost var bits := Bits(obj[..], bitoff, nbits);
    PartialEnds(bits, signed);
    rval := 0;
    for i := 0 to nbits
      invariant rval == Partial(bits, signed, i)
    {
      PartialStep(bits, signed, i);
      OrIsStep(bits, signed, i);
      var on := GetBit(obj, bitoff + i);
      if on {
        if i == 0 && signed && nbits < 64 {
          rval := -Pow2(nbits);
        }
        rval := Or(rval, Shifted(nbits - i - 1), 63);
      }
    }
  }

  lemma PartialEnds(bits: seq<bool>, signed: bool)
    requires |bits| <= 64
    ensures Partial(bits, signed, 0) == 0 && Partial(bits, signed, |bits|) == Field(bits, signed)
  {
    assert bits[..0] == [] && bits[..|bits|] == bits;
  }

  /** How many bits setbitval writes: at a byte boundary, whole bytes only. */
  function Written(bitoff: nat, nbits: nat): nat {
    if nbits != 16 && nbits != 32 && nbits != 64 && bitoff % 8 == 0 then nbits / 8 * 8 else nbits
  }

  /** What it writes: an integer of the host is turned around. */
  function Source(input: seq<bv8>, nbits: nat): (s: seq<bv8>)
    requires nbits <= 8 * |input|
    ensures nbits <= 8 * |s|
  {
    if nbits == 16 || nbits == 32 || nbits == 64 then Swapped(input[..nbits / 8]) else input
  }

  /** The bits before `done` are written, and nothing outside has changed. */
  ghost predicate Progress(now: seq<bv8>, was: seq<bv8>, bitoff: nat, done: nat, source: seq<bv8>)
    requires done <= 8 * |source|
  {
    && SameOutside(now, was, bitoff, done) && bitoff + done <= 8 * |now|
    && forall k: nat :: k < done ==> Bit(now, bitoff + k) == Bit(source, k)
  }

  lemma ProgressStep(next: seq<bv8>, now: seq<bv8>, was: seq<bv8>, bitoff: nat, done: nat, source: seq<bv8>)
    requires done < 8 * |source| && bitoff + done < 8 * |now| && Progress(now, was, bitoff, done, source)
    requires SameOutside(next, now, bitoff + done, 1) && Bit(next, bitoff + done) == Bit(source, done)
    ensures Progress(next, was, bitoff, done + 1, source)
  {
    hide Bit;
  }

  method CopyBits(obuf: array<bv8>, bitoff: nat, nbits: nat, input: seq<bv8>)
    requires bitoff + nbits <= 8 * obuf.Length && nbits <= 8 * |input|
    modifies obuf
    ensures Progress(obuf[..], old(obuf[..]), bitoff, nbits, input)
  {
    hide Bit, SameOutside, Progress;
    ghost var was := obuf[..];
    NoProgress(was, bitoff, input);
    for bit := 0 to nbits
      invariant Progress(obuf[..], was, bitoff, bit, input)
    {
      ghost var now := obuf[..];
      SetBit(obuf, bit + bitoff, Bit(input, bit));
      ProgressStep(obuf[..], now, was, bitoff, bit, input);
    }
  }

  method CopyBytes(obuf: array<bv8>, at: nat, n: nat, input: seq<bv8>)
    requires at + n <= obuf.Length && n <= |input|
    modifies obuf
    ensures Progress(obuf[..], old(obuf[..]), 8 * at, 8 * n, input)
  {
    hide Progress;
    forall i | 0 <= i < n {
      obuf[at + i] := input[i];
    }
    BytesCopied(obuf[..], old(obuf[..]), at, n, input);
  }

  method SwapBits(obuf: array<bv8>, bitoff: nat, nbits: nat, input: seq<bv8>)
    requires bitoff + nbits <= 8 * obuf.Length && nbits <= 8 * |input| && nbits % 8 == 0 && nbits > 0
    modifies obuf
    ensures Progress(obuf[..], old(obuf[..]), bitoff, nbits, Swapped(input[..nbits / 8]))
  {
    hide Bit, SameOutside, Progress;
    ghost var was, source := obuf[..], Swapped(input[..nbits / 8]);
    NoProgress(was, bitoff, source);
    TurnedStart(nbits);
    hide Turned;
    var ibit: int := nbits - 8;
    for bit := 0 to nbits
      invariant ibit == Turned(nbits, bit)
      invariant Progress(obuf[..], was, bitoff, bit, source)
    {
      ghost var now := obuf[..];
      SwappedBit(input, nbits, bit);
      SetBit(obuf, bit + bitoff, Bit(input, ibit));
      ProgressStep(obuf[..], now, was, bitoff, bit, source);
      TurnedStep(nbits, bit);
      if ibit % 8 == 7 {
        ibit := ibit - 15;
      } else {
        ibit := ibit + 1;
      }
    }
  }

  /** setbitval: the bits of the field are the source's, and no others change. */
  method SetBitVal(obuf: array<bv8>, bitoff: nat, nbits: nat, input: seq<bv8>)
    requires bitoff + nbits <= 8 * obuf.Length && nbits <= 8 * |input|
    modifies obuf
    ensures var n := Written(bitoff, nbits);
            && SameOutside(obuf[..], old(obuf[..]), bitoff, n)
            && Bits(obuf[..], bitoff, n) == Bits(Source(input, nbits), 0, n)
  {
    hide Bit, SameOutside;
    if nbits != 16 && nbits != 32 && nbits != 64 {
      if bitoff % 8 != 0 {
        CopyBits(obuf, bitoff, nbits, input);
      } else {
        CopyBytes(obuf, bitoff / 8, nbits / 8, input);
      }
    } else {
      SwapBits(obuf, bitoff, nbits, input);
    }
  }

  lemma NoProgress(was: seq<bv8>, bitoff: nat, source: seq<bv8>)
    requires bitoff <= 8 * |was|
    ensures Progress(was, was, bitoff, 0, source)
  {}

  lemma BytesCopied(now: seq<bv8>, was: seq<bv8>, at: nat, n: nat, input: seq<bv8>)
    requires |now| == |was| && n <= |input| && at + n <= |now|
    requires forall i :: 0 <= i < n ==> now[at + i] == input[i]
    requires forall i :: 0 <= i < |now| && !(at <= i < at + n) ==> now[i] == was[i]
    ensures Progress(now, was, 8 * at, 8 * n, input)
  {
    hide HasBit;
    forall k: nat | k < 8 * n ensures Bit(now, 8 * at + k) == Bit(input, k) {
      assert now[at + k / 8] == input[k / 8];
    }
  }

  /** The bit of the input that goes to bit k of the output: the bytes in the other order. */
  function Turned(nbits: nat, k: nat): int { nbits - 8 - 8 * (k / 8) + k % 8 }

  lemma TurnedStart(nbits: nat)
    ensures Turned(nbits, 0) == nbits - 8
  {}

  lemma TurnedStep(nbits: nat, k: nat)
    requires nbits % 8 == 0
    ensures Turned(nbits, k + 1) == if Turned(nbits, k) % 8 == 7 then Turned(nbits, k) - 15 else Turned(nbits, k) + 1
  {}

  lemma SwappedBit(input: seq<bv8>, nbits: nat, bit: nat)
    requires nbits % 8 == 0 && bit < nbits <= 8 * |input|
    ensures var ibit := Turned(nbits, bit);
            0 <= ibit < nbits && Bit(input, ibit) == Bit(Swapped(input[..nbits / 8]), bit)
  {
    hide HasBit;
    var n := nbits / 8;
    assert input[..n][n - 1 - bit / 8] == input[n - 1 - bit / 8];
  }

  /** What is read back is the integer that was written. */
  lemma FieldOfInteger(input: seq<bv8>, signed: bool)
    requires 0 < |input| <= 8
    ensures Field(Bits(Swapped(input), 0, 8 * |input|), signed) ==
            var x := LittleEndian(input); if signed || |input| == 8 then Signed(x, 8 * |input|) else x
  {
    hide Value, Pow2, HasBit, BigEndian, LittleEndian;
    BytesValue(Swapped(input));
    SwappedNumber(input);
    FieldIs(Bits(Swapped(input), 0, 8 * |input|), signed);
  }

  /**
   * Writing an integer of 16, 32 or 64 bits at any bit offset and reading it back, with the buffer at any
   * address, gives the integer, extended by its sign if asked; all other bits are as they were.
   */
  method SetThenGet(buf: array<bv8>, address: nat, bitoff: nat, nbits: nat, input: seq<bv8>, signed: bool)
    returns (v: int)
    requires nbits == 16 || nbits == 32 || nbits == 64
    requires bitoff + nbits <= 8 * buf.Length && 8 * |input| == nbits
    modifies buf
    ensures v == if signed || nbits == 64 then Signed(LittleEndian(input), nbits) else LittleEndian(input)
    ensures SameOutside(buf[..], old(buf[..]), bitoff, nbits)
  {
    hide Field, Bits, LittleEndian, Signed, SameOutside, Swapped;
    FieldOfInteger(input, signed);
    assert input[..nbits / 8] == input;
    SetBitVal(buf, bitoff, nbits, input);
    v := GetBitVal(buf, address, bitoff, nbits, signed);
  }
}
