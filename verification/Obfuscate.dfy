/** Hash-preserving rewriting of names in a metadata dump. */
module Obfuscate {
  import opened NameHash

  predicate InvalidChar(c: Byte) { c == 0x2f || c == 0 }

  /** A slash and NUL. */
  lemma InvalidAre(c: Byte)
    ensures InvalidChar(c) <==> c as int == '/' as int || c as int == 0
  {}

  ghost predicate ValidName(name: seq<Byte>) {
    forall k :: 0 <= k < |name| ==> !InvalidChar(name[k])
  }

  // --- obfuscate_name ----------------------------------------------------------------------

  /** The characters of random_filename_char: letters, digits, '-' and '_'. */
  predicate InAlphabet(c: Byte) {
    0x41 <= c <= 0x5a || 0x61 <= c <= 0x7a || 0x30 <= c <= 0x39 || c == 0x2d || c == 0x5f
  }

  const UPPER := "ABCDEFGHIJKLMNOPQRSTUVWXYZ"
  const LOWER := "abcdefghijklmnopqrstuvwxyz"
  const ALPHABET := UPPER + LOWER + "0123456789-_"

  method RandomFilenameChar() returns (c: Byte)
    ensures InAlphabet(c)
  {
    assert InAlphabet(0x41);
    c :| InAlphabet(c);
  }

  /** The code of the k-th character. */
  function AlphabetCode(k: nat): nat
    requires k < 64
  {
    if k < 26 then 'A' as int + k
    else if k < 52 then 'a' as int + k - 26
    else if k < 62 then '0' as int + k - 52
    else if k == 62 then '-' as int else '_' as int
  }

  lemma Alphabet(k: nat)
    requires k < 64
    ensures |ALPHABET| == 64 && ALPHABET[k] as int == AlphabetCode(k) < 128
  {
    Letters(if k < 26 then k else 0);
    Letters(if 26 <= k < 52 then k - 26 else 0);
    if k >= 52 { Others(k - 52); }
  }

  lemma Letters(k: nat)
    requires k < 26
    ensures |UPPER| == |LOWER| == 26 && UPPER[k] as int == 'A' as int + k && LOWER[k] as int == 'a' as int + k
  {}

  lemma Others(k: nat)
    requires k < 12
    ensures "0123456789-_"[k] as int == AlphabetCode(52 + k)
  {}

  /** The characters of the table are these and no others. */
  lemma AlphabetIff(c: Byte)
    ensures InAlphabet(c) <==> exists k: nat :: k < |ALPHABET| && ALPHABET[k] as int == c as int
  {
    hide ALPHABET, InAlphabet;
    Alphabet(0);
    InAlphabetIs(c);
    var n := c as int;
    if k: nat :| k < |ALPHABET| && ALPHABET[k] as int == n { Alphabet(k); }
    if InAlphabet(c) {
      var k := if n == '-' as int then 62
               else if n == '_' as int then 63
               else if n <= '9' as int then n - '0' as int + 52
               else if n <= 'Z' as int then n - 'A' as int else n - 'a' as int + 26;
      Alphabet(k);
    }
  }

  lemma InAlphabetIs(c: Byte)
    ensures var n := c as int;
            InAlphabet(c) <==>
            || 'A' as int <= n <= 'Z' as int || 'a' as int <= n <= 'z' as int || '0' as int <= n <= '9' as int
            || n == '-' as int || n == '_' as int
  {
    Between(c, 0x41, 0x5a);
    Between(c, 0x61, 0x7a);
    Between(c, 0x30, 0x39);
    Between(c, 0x2d, 0x2d);
    Between(c, 0x5f, 0x5f);
  }

  lemma Between(c: Byte, a: Byte, b: Byte)
    ensures a <= c <= b <==> a as int <= c as int <= b as int
  {}

  /** The k-th of the five seven-bit groups of t, from the top; the first has four bits only. */
  function Group(t: bv32, k: nat): Byte
    requires k < 5
  {
    (match k
     case 0 => (t >> 28) & 0x7f
     case 1 => (t >> 21) & 0x7f
     case 2 => (t >> 14) & 0x7f
     case 3 => (t >> 7) & 0x7f
     case _ => t & 0x7f) as Byte
  }

  /** What the last five bytes have to add to a prefix hash p. */
  function Fill(p: bv32, hash: bv32): bv32 { Rol3(p) ^ hash }

  /** Appending the five groups of Fill(p, hash) takes the hash from p to hash. */
  lemma GroupsReachHash(p: bv32, hash: bv32)
    ensures var t := Fill(p, hash);
            Mix(Mix(Mix(Mix(Mix(p, Group(t, 0)), Group(t, 1)), Group(t, 2)), Group(t, 3)), Group(t, 4)) == hash
  {}

  // The three bits that obfuscate_name flips: bit 0 of a byte meets bit 7 of the next one in the
  // hash, and bit 4 of the first of five bytes meets bit 0 of the last.

  function LowBit(): Byte { 1 }

  function HighBit(): Byte { 0x80 }

  function WrapBit(): Byte { 0x10 }

  predicate Small(c: Byte) { c < 0x10 }

  lemma NeighbourMasksMeet()
    ensures Reach(LowBit(), 1) == HighBit() as bv32
    ensures Reach(WrapBit(), 4) == LowBit() as bv32
  {
    ReachAcross(1);
    ReachAcross(0x10);
  }

  lemma FirstGroupIsSmall(t: bv32)
    ensures Small(Group(t, 0))
  {}

  lemma FixedByteIsValid(c: Byte)
    requires InvalidChar(c)
    ensures !InvalidChar(FlipByte(c, LowBit()))
    ensures Small(c) ==> Small(FlipByte(c, LowBit()))
  {}

  lemma WrappedByteIsValid(c: Byte)
    requires Small(c)
    ensures !InvalidChar(FlipByte(c, WrapBit()))
  {}

  function GroupsOf(t: bv32): (r: seq<Byte>)
    ensures |r| == 5 && forall k :: 0 <= k < 5 ==> r[k] == Group(t, k)
  {
    [Group(t, 0), Group(t, 1), Group(t, 2), Group(t, 3), Group(t, 4)]
  }

  lemma GroupsOnName(prefix: seq<Byte>, hash: bv32, name: seq<Byte>)
    requires var t := Fill(HashName(prefix), hash);
             name == prefix + GroupsOf(t)
    ensures HashName(name) == hash
  {
    var p := HashName(prefix);
    var t := Fill(p, hash);
    GroupsReachHash(p, hash);
    hide *;
    var g0, g1, g2, g3, g4 := Group(t, 0), Group(t, 1), Group(t, 2), Group(t, 3), Group(t, 4);
    HashSnoc(prefix, g0);
    HashSnoc(prefix + [g0], g1);
    HashSnoc(prefix + [g0] + [g1], g2);
    HashSnoc(prefix + [g0] + [g1] + [g2], g3);
    HashSnoc(prefix + [g0] + [g1] + [g2] + [g3], g4);
    assert name == prefix + [g0] + [g1] + [g2] + [g3] + [g4];
  }

  ghost predicate AlphabetName(name: seq<Byte>) {
    forall k :: 0 <= k < |name| ==> InAlphabet(name[k])
  }

  lemma AlphabetSnoc(name: seq<Byte>, c: Byte)
    requires AlphabetName(name) && InAlphabet(c)
    ensures AlphabetName(name + [c])
  {
    hide InAlphabet;
  }

  lemma AlphabetIsValid(name: seq<Byte>)
    requires AlphabetName(name)
    ensures ValidName(name)
  {}

  /**
   * The name as it will be if no later byte needs fixing: the first k of the last five bytes are
   * final, the k-th still owes its high bit to the one before it if that one was flipped.
   */
  ghost predicate Pending(cur: seq<Byte>, k: nat, flipped: bool, t: bv32, hash: bv32)
    requires k <= 5 <= |cur|
  {
    var n := |cur| - 5;
    && (k == 0 ==> !flipped)
    && (forall j :: 0 <= j < n + k ==> !InvalidChar(cur[j]))
    && (k > 0 ==> Small(cur[n]))
    && (k < 5 ==> cur[n + k] == Owed(t, k, flipped))
    && (forall j {:trigger cur[j]} :: n + k < j < |cur| ==> cur[j] == Group(t, j - n))
    && HashName(if k == 5 && flipped then FlipAt(cur, n, WrapBit()) else cur) == hash
  }

  function Owed(t: bv32, k: nat, flipped: bool): Byte
    requires k < 5
  {
    if flipped then FlipByte(Group(t, k), HighBit()) else Group(t, k)
  }

  function Fixed(c: Byte): Byte { if InvalidChar(c) then FlipByte(c, LowBit()) else c }

  /** cur once byte k is settled. */
  ghost function Settle(cur: seq<Byte>, k: nat): (r: seq<Byte>)
    requires k < 5 <= |cur|
    ensures |r| == |cur|
  {
    var p := |cur| - 5 + k;
    if !InvalidChar(cur[p]) then cur
    else if k < 4 then FlipAt(FlipAt(cur, p, LowBit()), p + 1, HighBit())
    else FlipAt(cur, p, LowBit())
  }

  lemma SettleValid(cur: seq<Byte>, k: nat, flipped: bool, t: bv32, hash: bv32)
    requires k < 5 <= |cur| && Pending(cur, k, flipped, t, hash)
    requires !InvalidChar(cur[|cur| - 5 + k])
    ensures Pending(cur, k + 1, false, t, hash)
  {
    FirstGroupIsSmall(t);
    hide Mix, Rol7, Reach, HashName, Group, FlipByte, InvalidChar, Small, LowBit, HighBit, WrapBit, Fill;
  }

  lemma SettleMiddle(cur: seq<Byte>, k: nat, flipped: bool, t: bv32, hash: bv32)
    requires k < 4 && 5 <= |cur| && Pending(cur, k, flipped, t, hash)
    requires InvalidChar(cur[|cur| - 5 + k])
    ensures Pending(Settle(cur, k), k + 1, true, t, hash)
  {
    FirstGroupIsSmall(t);
    NeighbourMasksMeet();
    hide Mix, Rol7, Reach, HashName, Group, FlipByte, InvalidChar, Small, LowBit, HighBit, WrapBit, Fill;
    var p := |cur| - 5 + k;
    FixedByteIsValid(cur[p]);
    FlipPairKeepsHash(cur, p, LowBit(), p + 1, HighBit());
  }

  lemma SettleLast(cur: seq<Byte>, flipped: bool, t: bv32, hash: bv32)
    requires 5 <= |cur| && Pending(cur, 4, flipped, t, hash)
    requires InvalidChar(cur[|cur| - 1])
    ensures Pending(Settle(cur, 4), 5, true, t, hash)
  {
    NeighbourMasksMeet();
    hide Mix, Rol7, Reach, HashName, Group, FlipByte, InvalidChar, Small, LowBit, HighBit, WrapBit, Fill;
    var n := |cur| - 5;
    FixedByteIsValid(cur[n + 4]);
    FlipPairKeepsHash(cur, n, WrapBit(), n + 4, LowBit());
    assert FlipAt(FlipAt(cur, n, WrapBit()), n + 4, LowBit()) == FlipAt(FlipAt(cur, n + 4, LowBit()), n, WrapBit());
  }

  lemma SettleKeepsPending(cur: seq<Byte>, k: nat, flipped: bool, t: bv32, hash: bv32)
    requires k < 5 <= |cur| && Pending(cur, k, flipped, t, hash)
    ensures Pending(Settle(cur, k), k + 1, InvalidChar(cur[|cur| - 5 + k]), t, hash)
  {
    hide Pending, HashName, Group, FlipByte, InvalidChar, LowBit, HighBit;
    if !InvalidChar(cur[|cur| - 5 + k]) {
      SettleValid(cur, k, flipped, t, hash);
    } else if k < 4 {
      SettleMiddle(cur, k, flipped, t, hash);
    } else {
      SettleLast(cur, flipped, t, hash);
    }
  }

  lemma PendingDone(cur: seq<Byte>, flipped: bool, t: bv32, hash: bv32)
    requires 5 <= |cur| && Pending(cur, 5, flipped, t, hash)
    ensures var done := if flipped then FlipAt(cur, |cur| - 5, WrapBit()) else cur;
            HashName(done) == hash && ValidName(done)
  {
    hide Mix, Rol7, Reach, HashName, Group, FlipByte, InvalidChar, Small, LowBit, HighBit, WrapBit, Fill;
    WrappedByteIsValid(cur[|cur| - 5]);
  }

  lemma SettleByte(cur: seq<Byte>, k: nat, flipped: bool, t: bv32, hash: bv32)
    requires k < 5 <= |cur| && Pending(cur, k, flipped, t, hash)
    ensures cur[|cur| - 5 + k] == Owed(t, k, flipped)
    ensures |Settle(cur, k)| == |cur|
    ensures Settle(cur, k)[|cur| - 5 + k] == Fixed(Owed(t, k, flipped))
    ensures forall j :: 0 <= j < |cur| - 5 + k ==> Settle(cur, k)[j] == cur[j]
  {
    hide Mix, Rol7, Reach, HashName, Group, FlipByte, InvalidChar, Small, LowBit, HighBit, WrapBit, Fill;
  }

  lemma GroupsArePending(prefix: seq<Byte>, hash: bv32) returns (cur: seq<Byte>)
    requires ValidName(prefix)
    ensures |cur| == |prefix| + 5 && prefix == cur[..|prefix|]
    ensures Pending(cur, 0, false, Fill(HashName(prefix), hash), hash)
  {
    hide Mix, Rol7, Rol3, HashName, Group, InvalidChar, Small, Fill, GroupsOf, FlipByte, FlipAt, WrapBit;
    var t := Fill(HashName(prefix), hash);
    cur := prefix + GroupsOf(t);
    GroupsOnName(prefix, hash, cur);
  }

  /** The loop over the last five bytes; cur is the name once a flip of the last byte is wrapped round. */
  method SettleTail(name: array<Byte>, off: nat, len: nat, t: bv32, ghost hash: bv32)
    returns (flipped: bool, ghost cur: seq<Byte>)
    requires 5 <= len && off + len <= name.Length
    requires ValidName(name[off..off + len - 5])
    requires t == Fill(HashName(name[off..off + len - 5]), hash)
    modifies name
    ensures forall j :: 0 <= j < off + len - 5 || off + len <= j < name.Length ==> name[j] == old(name[j])
    ensures |cur| == len && Pending(cur, 5, flipped, t, hash) && name[off..off + len] == cur
  {
    hide *;
    var first := off + len - 5;
    ghost var was := name[..];
    cur := GroupsArePending(name[off..first], hash);
    assert forall j :: 0 <= j < len - 5 ==> cur[j] == name[off..first][j];
    flipped := false;
    for k := 0 to 5
      invariant forall j :: 0 <= j < first || off + len <= j < name.Length ==> name[j] == was[j]
      invariant |cur| == len && forall j :: 0 <= j < len - 5 + k ==> cur[j] == name[off + j]
      invariant Pending(cur, k, flipped, t, hash)
    {
      SettleKeepsPending(cur, k, flipped, t, hash);
      SettleByte(cur, k, flipped, t, hash);
      var c := Owed(t, k, flipped);
      flipped := InvalidChar(c);
      name[first + k] := Fixed(c);
      cur := Settle(cur, k);
    }
  }

  /** Random characters for everything but the last five bytes, and their hash. */
  method RandomPrefix(name: array<Byte>, off: nat, len: nat) returns (newHash: bv32)
    requires off + len <= name.Length
    modifies name
    ensures forall j :: 0 <= j < off || off + len <= j < name.Length ==> name[j] == old(name[j])
    ensures newHash == HashName(name[off..off + len]) && AlphabetName(name[off..off + len])
  {
    newHash := 0;
    assert HashName(name[off..off]) == newHash;
    assert AlphabetName(name[off..off]);
    hide *;
    ghost var was := name[..];
    for i := 0 to len
      invariant forall j :: 0 <= j < off || off + len <= j < name.Length ==> name[j] == was[j]
      invariant newHash == HashName(name[off..off + i]) && AlphabetName(name[off..off + i])
    {
      ghost var before := name[off..off + i];
      var c := RandomFilenameChar();
      AlphabetSnoc(before, c);
      name[off + i] := c;
      assert name[off..off + i + 1] == before + [c];
      HashSnoc(before, c);
      newHash := Mix(newHash, c);
    }
  }

  /**
   * Everything but the last five bytes becomes random; the last five are solved for. A byte that
   * comes out invalid has its low bit flipped, and the overlapping bit of its right neighbour with
   * it; the last byte's neighbour is the first of the five.
   */
  method ObfuscateName(name: array<Byte>, off: nat, len: nat, hash: bv32)
    requires off + len <= name.Length
    modifies name
    ensures forall j :: 0 <= j < off || off + len <= j < name.Length ==> name[j] == old(name[j])
    ensures len < 5 ==> name[..] == old(name[..])
    ensures len >= 5 ==> HashName(name[off..off + len]) == hash && ValidName(name[off..off + len])
    ensures len >= 5 ==> AlphabetName(name[off..off + len - 5])
  {
    hide *;
    if len < 5 {
      return;
    }
    var newHash := RandomPrefix(name, off, len - 5);
    AlphabetIsValid(name[off..off + len - 5]);
    ghost var prefix := name[off..off + len - 5];
    newHash := Fill(newHash, hash);
    var flipped, cur := SettleTail(name, off, len, newHash, hash);
    PendingDone(cur, flipped, newHash, hash);
    if flipped {
      FlipAtIs(cur, len - 5, WrapBit());
      name[off + len - 5] := FlipByte(name[off + len - 5], WrapBit());
      assert name[off..off + len] == FlipAt(cur, len - 5, WrapBit());
    }
    assert name[off..off + len - 5] == prefix;
  }

  lemma FlipAtIs(name: seq<Byte>, p: nat, m: Byte)
    requires p < |name|
    ensures FlipAt(name, p, m) == name[p := FlipByte(name[p], m)]
  {}
}
