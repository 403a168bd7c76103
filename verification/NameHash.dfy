/** The directory and attribute name hash of XFS, as a recurrence and as the unrolled loop of libxfs. */
module NameHash {

  type Byte = bv8

  function Rol3(x: bv32): bv32 { (x << 3) | (x >> 29) }

  function Rol7(x: bv32): bv32 { (x << 7) | (x >> 25) }

  function Rol14(x: bv32): bv32 { (x << 14) | (x >> 18) }

  function Rol21(x: bv32): bv32 { (x << 21) | (x >> 11) }

  function Rol28(x: bv32): bv32 { (x << 28) | (x >> 4) }

  /** One step per byte: rotate what there is by seven bits and mix the byte in. */
  function HashName(name: seq<Byte>): bv32 {
    if name == [] then 0 else Mix(HashName(name[..|name| - 1]), name[|name| - 1])
  }

  function Mix(h: bv32, b: Byte): bv32 { (b as bv32) ^ Rol7(h) }

  lemma HashSnoc(name: seq<Byte>, b: Byte)
    ensures HashName(name + [b]) == Mix(HashName(name), b)
  {
    assert (name + [b])[..|name|] == name;
  }

  // The words the unrolled hash mixes in at one go.

  function Add1(h: bv32, a: Byte): bv32 { (a as bv32) ^ Rol7(h) }

  function Add2(h: bv32, a: Byte, b: Byte): bv32 {
    ((a as bv32) << 7) ^ (b as bv32) ^ Rol14(h)
  }

  function Add3(h: bv32, a: Byte, b: Byte, c: Byte): bv32 {
    ((a as bv32) << 14) ^ ((b as bv32) << 7) ^ (c as bv32) ^ Rol21(h)
  }

  function Add4(h: bv32, a: Byte, b: Byte, c: Byte, d: Byte): bv32 {
    ((a as bv32) << 21) ^ ((b as bv32) << 14) ^ ((c as bv32) << 7) ^ (d as bv32) ^ Rol28(h)
  }

  lemma Mix1(h: bv32, a: Byte)
    ensures Mix(h, a) == (a as bv32) ^ Rol7(h)
  {}

  lemma Add1IsMix(h: bv32, a: Byte)
    ensures Add1(h, a) == Mix(h, a)
  {
    hide Mix, Rol7, Rol14, Rol21, Rol28;
    Mix1(h, a);
  }

  lemma Mix2(h: bv32, a: Byte, b: Byte)
    ensures Mix(Mix(h, a), b) == ((a as bv32) << 7) ^ (b as bv32) ^ Rol14(h)
  {}

  lemma Add2IsMix(h: bv32, a: Byte, b: Byte)
    ensures Add2(h, a, b) == Mix(Mix(h, a), b)
  {
    hide Mix, Rol7, Rol14, Rol21, Rol28;
    Mix2(h, a, b);
  }

  lemma Mix3(h: bv32, a: Byte, b: Byte, c: Byte)
    ensures Mix(Mix(Mix(h, a), b), c) == ((a as bv32) << 14) ^ ((b as bv32) << 7) ^ (c as bv32) ^ Rol21(h)
  {}

  lemma Add3IsMix(h: bv32, a: Byte, b: Byte, c: Byte)
    ensures Add3(h, a, b, c) == Mix(Mix(Mix(h, a), b), c)
  {
    hide Mix, Rol7, Rol14, Rol21, Rol28;
    Mix3(h, a, b, c);
  }

  lemma Mix4(h: bv32, a: Byte, b: Byte, c: Byte, d: Byte)
    ensures Mix(Mix(Mix(Mix(h, a), b), c), d) ==
            ((a as bv32) << 21) ^ ((b as bv32) << 14) ^ ((c as bv32) << 7) ^ (d as bv32) ^ Rol28(h)
  {}

  lemma Add4IsMix(h: bv32, a: Byte, b: Byte, c: Byte, d: Byte)
    ensures Add4(h, a, b, c, d) == Mix(Mix(Mix(Mix(h, a), b), c), d)
  {
    hide Mix, Rol7, Rol14, Rol21, Rol28;
    Mix4(h, a, b, c, d);
  }

  /** The four-at-a-time loop with its tail cases computes the recurrence, for names of any length. */
  method DaHashname(name: seq<Byte>) returns (hash: bv32)
    ensures hash == HashName(name)
  {
    hash := 0;
    assert HashName(name[..0]) == hash;
    hide *;
    var i := 0;
    while |name| - i >= 4
      invariant 0 <= i <= |name|
      invariant hash == HashName(name[..i])
    {
      Add4IsMix(hash, name[i], name[i + 1], name[i + 2], name[i + 3]);
      hash := Add4(hash, name[i], name[i + 1], name[i + 2], name[i + 3]);
      HashNext(name, i); HashNext(name, i + 1); HashNext(name, i + 2); HashNext(name, i + 3);
      i := i + 4;
    }
    assert name[..|name|] == name;
    if |name| - i == 3 {
      Add3IsMix(hash, name[i], name[i + 1], name[i + 2]);
      hash := Add3(hash, name[i], name[i + 1], name[i + 2]);
      HashNext(name, i); HashNext(name, i + 1); HashNext(name, i + 2);
    } else if |name| - i == 2 {
      Add2IsMix(hash, name[i], name[i + 1]);
      hash := Add2(hash, name[i], name[i + 1]);
      HashNext(name, i); HashNext(name, i + 1);
    } else if |name| - i == 1 {
      Add1IsMix(hash, name[i]);
      hash := Add1(hash, name[i]);
      HashNext(name, i);
    }
  }

  lemma HashNext(name: seq<Byte>, i: nat)
    requires i < |name|
    ensures HashName(name[..i + 1]) == Mix(HashName(name[..i]), name[i])
  {
    assert name[..i + 1] == name[..i] + [name[i]];
    HashSnoc(name[..i], name[i]);
  }

  // --- how one changed byte moves the hash -------------------------------------------------

  /** The hash bits that mask m reaches when it is xored into the byte d places before the last one. */
  function Reach(m: Byte, d: nat): bv32 {
    if d == 0 then m as bv32 else Rol7(Reach(m, d - 1))
  }

  function FlipByte(b: Byte, m: Byte): Byte { b ^ m }

  function Xor(a: bv32, b: bv32): bv32 { a ^ b }

  lemma MixXorHashRaw(h: bv32, r: bv32, b: Byte)
    ensures Mix(h ^ r, b) == Mix(h, b) ^ Rol7(r)
  {}

  lemma MixXorHash(h: bv32, r: bv32, b: Byte)
    ensures Mix(Xor(h, r), b) == Xor(Mix(h, b), Rol7(r))
  {
    hide Mix, Rol7;
    MixXorHashRaw(h, r, b);
  }

  lemma MixXorByteRaw(h: bv32, b: Byte, m: Byte)
    ensures Mix(h, b ^ m) == Mix(h, b) ^ (m as bv32)
  {}

  lemma MixXorByte(h: bv32, b: Byte, m: Byte)
    ensures Mix(h, FlipByte(b, m)) == Xor(Mix(h, b), m as bv32)
  {
    hide Mix, Rol7;
    MixXorByteRaw(h, b, m);
  }

  /** Flip the bits of m in byte p. */
  function FlipAt(name: seq<Byte>, p: nat, m: Byte): (r: seq<Byte>)
    requires p < |name|
    ensures |r| == |name|
  {
    name[p := FlipByte(name[p], m)]
  }

  lemma FlipAtFront(name: seq<Byte>, p: nat, m: Byte)
    requires p < |name| - 1
    ensures FlipAt(name, p, m) == FlipAt(name[..|name| - 1], p, m) + [name[|name| - 1]]
  {}

  lemma FlipAtLast(name: seq<Byte>, m: Byte)
    requires |name| > 0
    ensures FlipAt(name, |name| - 1, m) == name[..|name| - 1] + [FlipByte(name[|name| - 1], m)]
  {}

  /** Xoring m into one byte xors Reach into the hash, whatever the rest of the name is. */
  lemma {:induction false} XorOneByte(name: seq<Byte>, p: nat, m: Byte)
    requires p < |name|
    ensures HashName(FlipAt(name, p, m)) == Xor(HashName(name), Reach(m, |name| - 1 - p))
    decreases |name|
  {
    hide *;
    var last := |name| - 1;
    var front := name[..last];
    assert name == front + [name[last]];
    HashSnoc(front, name[last]);
    if p == last {
      FlipAtLast(name, m);
      HashSnoc(front, FlipByte(name[last], m));
      MixXorByte(HashName(front), name[last], m);
      ReachHere(m);
    } else {
      FlipAtFront(name, p, m);
      HashSnoc(FlipAt(front, p, m), name[last]);
      XorOneByte(front, p, m);
      MixXorHash(HashName(front), Reach(m, last - 1 - p), name[last]);
      ReachBack(m, last - p);
    }
  }

  lemma ReachHere(m: Byte)
    ensures Reach(m, 0) == m as bv32
  {}

  lemma ReachBack(m: Byte, d: nat)
    requires d > 0
    ensures Reach(m, d) == Rol7(Reach(m, d - 1))
  {}

  /** What the bytes of a name reach in the hash, each by its distance from the last one. */
  function AllReach(name: seq<Byte>): bv32 {
    if name == [] then 0 else Xor(Reach(name[0], |name| - 1), AllReach(name[1..]))
  }

  /** The hash of a name is the xor of its bytes, each rotated by seven bits for every byte behind it. */
  lemma {:induction false} HashIsAllReach(name: seq<Byte>)
    ensures HashName(name) == AllReach(name)
    decreases |name|
  {
    if name != [] {
      var front, last := name[..|name| - 1], name[|name| - 1];
      HashIsAllReach(front);
      AllReachSnoc(front, last);
      MixIsXor(HashName(front), last);
      assert name == front + [last];
      hide *;
      HashSnoc(front, last);
    }
  }

  lemma {:induction false} AllReachSnoc(name: seq<Byte>, b: Byte)
    ensures AllReach(name + [b]) == Xor(Rol7(AllReach(name)), b as bv32)
    decreases |name|
  {
    hide Rol7, Xor, Reach;
    if name == [] {
      assert [b][1..] == [] && name + [b] == [b];
      ReachHere(b);
      NothingTurns(b as bv32);
    } else {
      assert (name + [b])[0] == name[0] && (name + [b])[1..] == name[1..] + [b];
      AllReachSnoc(name[1..], b);
      ReachBack(name[0], |name|);
      TurnXor(Reach(name[0], |name| - 1), AllReach(name[1..]), b as bv32);
    }
  }

  lemma MixIsXor(h: bv32, b: Byte)
    ensures Mix(h, b) == Xor(Rol7(h), b as bv32)
  {}

  lemma NothingTurns(b: bv32)
    ensures Xor(b, 0) == b == Xor(Rol7(0), b)
  {}

  lemma TurnXor(a: bv32, c: bv32, b: bv32)
    ensures Xor(Rol7(a), Xor(Rol7(c), b)) == Xor(Rol7(Xor(a, c)), b)
  {}

  lemma XorTwice(h: bv32, r: bv32)
    ensures Xor(Xor(h, r), r) == h
  {}

  /** Two masks that meet on the same hash bits still do d bytes further from the end. */
  lemma {:induction false} ReachTogether(m0: Byte, gap: nat, m1: Byte, d: nat)
    requires Reach(m0, gap) == m1 as bv32
    ensures Reach(m0, gap + d) == Reach(m1, d)
  {
    hide *;
    if d == 0 {
      ReachHere(m1);
    } else {
      ReachTogether(m0, gap, m1, d - 1);
      ReachBack(m0, gap + d);
      ReachBack(m1, d);
    }
  }

  /** Flipping overlapping bits of two bytes leaves the hash alone. */
  lemma FlipPairKeepsHash(name: seq<Byte>, p0: nat, m0: Byte, p1: nat, m1: Byte)
    requires p0 < p1 < |name|
    requires Reach(m0, p1 - p0) == m1 as bv32
    ensures HashName(FlipAt(FlipAt(name, p0, m0), p1, m1)) == HashName(name)
  {
    hide *;
    var d := |name| - 1 - p1;
    ReachTogether(m0, p1 - p0, m1, d);
    XorOneByte(name, p0, m0);
    XorOneByte(FlipAt(name, p0, m0), p1, m1);
    XorTwice(HashName(name), Reach(m1, d));
  }

  /** How far four and five bytes carry a mask: once round the hash, less four bits or plus three. */
  lemma ReachAcross(m: Byte)
    ensures Reach(m, 1) == Rol7(m as bv32)
    ensures Reach(m, 4) == Rol28(m as bv32)
    ensures Reach(m, 5) == Rol3(m as bv32)
  {
    Rol7Four(m as bv32);
    hide Rol7, Rol28, Rol3;
    ReachHere(m);
    ReachBack(m, 1); ReachBack(m, 2); ReachBack(m, 3); ReachBack(m, 4); ReachBack(m, 5);
  }

  lemma Rol7Four(x: bv32)
    ensures Rol7(Rol7(Rol7(Rol7(x)))) == Rol28(x)
    ensures Rol7(Rol28(x)) == Rol3(x)
  {}
}
