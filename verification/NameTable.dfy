/** The table of names already used in a directory, and the generation of a fresh obfuscated name. */
module NameTable {
  import Basics
  import opened NameHash
  import opened Obfuscate
  import opened Alternates

  const NAME_TABLE_SIZE := 4096

  datatype NameEnt = NameEnt(hash: bv32, name: seq<Byte>)

  function Bucket(hash: bv32): (i: nat)
    ensures i < NAME_TABLE_SIZE
  {
    hash as nat % NAME_TABLE_SIZE
  }

  /** A name was given out: the name it replaces, and the name given. */
  datatype Record = Record(original: seq<Byte>, given: seq<Byte>)

  ghost predicate Sound(r: Record) {
    |r.given| == |r.original| && HashName(r.given) == HashName(r.original)
  }

  function Digit(d: nat): Byte
    requires d < 10
  {
    0x30 + d as bv8
  }

  function Decimal(n: nat): seq<Byte> {
    if n < 10 then [Digit(n)] else Decimal(n / 10) + [Digit(n % 10)]
  }

  /** What decimal digits stand for. */
  ghost function ValueOf(s: seq<Byte>): int {
    if s == [] then 0 else ValueOf(s[..|s| - 1]) * 10 + (s[|s| - 1] as int - '0' as int)
  }

  predicate IsDigit(c: Byte) { '0' as int <= c as int <= '9' as int }

  /** Digits without a leading zero; zero itself is one digit. */
  ghost predicate IsNumber(s: seq<Byte>) {
    s != [] && (forall c <- s :: IsDigit(c)) && (|s| > 1 ==> s[0] as int != '0' as int)
  }

  lemma DigitIs(d: nat)
    requires d < 10
    ensures Digit(d) as int == '0' as int + d && IsDigit(Digit(d))
  {
    match d
    case 0 => case 1 => case 2 => case 3 => case 4 => case 5 => case 6 => case 7 => case 8 => case 9 =>
  }

  /** The text of a number: the only one that stands for it. */
  lemma {:induction false} DecimalIff(s: seq<Byte>, n: nat)
    ensures s == Decimal(n) <==> IsNumber(s) && ValueOf(s) == n
    decreases |s|, n
  {
    hide Digit, IsDigit;
    DecimalIs(n);
    if IsNumber(s) && ValueOf(s) == n {
      var front, last := s[..|s| - 1], s[|s| - 1];
      assert s == front + [last] && last in s;
      LastDigit(last);
      if front == [] {
        assert s[0] == last;
      } else {
        assert IsNumber(front) by { assert front[0] == s[0]; }
        NumberIsPositive(front);
        var m := ValueOf(front);
        DecimalIff(front, m);
        assert n / 10 == m && n % 10 == last as int - '0' as int;
      }
    }
  }

  lemma LastDigit(c: Byte)
    requires IsDigit(c)
    ensures var d := c as int - '0' as int; 0 <= d < 10 && Digit(d) == c
  {
    var d := c as int - '0' as int;
    DigitIs(d);
    SameByte(c, Digit(d));
  }

  lemma SameByte(a: Byte, b: Byte)
    requires a as int == b as int
    ensures a == b
  {}

  /** A number of more than one digit is positive without its last one. */
  lemma {:induction false} NumberIsPositive(s: seq<Byte>)
    requires s != [] && (forall c <- s :: IsDigit(c))
    ensures ValueOf(s) >= 0 && (s[0] as int != '0' as int ==> ValueOf(s) > 0)
    decreases |s|
  {
    var front, last := s[..|s| - 1], s[|s| - 1];
    assert last in s;
    if front != [] {
      assert front[0] == s[0];
      NumberIsPositive(front);
    } else {
      assert s[0] == last;
    }
  }

  lemma {:induction false} DecimalIs(n: nat)
    ensures IsNumber(Decimal(n)) && ValueOf(Decimal(n)) == n
    ensures n > 0 ==> Decimal(n)[0] as int != '0' as int
    decreases n
  {
    hide Digit, IsDigit;
    var s := Decimal(n);
    DigitIs(n % 10);
    if n >= 10 {
      DecimalIs(n / 10);
      assert s[..|s| - 1] == Decimal(n / 10) && s[0] == Decimal(n / 10)[0];
    } else {
      assert s[..|s| - 1] == [];
    }
  }

  /** "lost+found" */
  const ORPHANAGE: seq<Byte> := [0x6c, 0x6f, 0x73, 0x74, 0x2b, 0x66, 0x6f, 0x75, 0x6e, 0x64]

  lemma Orphanage()
    ensures var s := "lost+found";
            |ORPHANAGE| == |s| && forall i :: 0 <= i < |s| ==> ORPHANAGE[i] as int == s[i] as int
  {}

  class Names {
    const table: array<seq<NameEnt>>
    const rootIno: nat
    var curIno: nat
    var orphanageIno: nat
    /** What has been given out since the last clear, oldest first. */
    ghost var records: seq<Record>

    /** Chain i holds sound entries of bucket i only, with no name twice; the chains hold what was given out. */
    ghost predicate Valid()
      reads this, table
    {
      && table.Length == NAME_TABLE_SIZE
      && (forall i, k :: 0 <= i < table.Length && 0 <= k < |table[i]| ==> InBucket(table[i][k], i))
      && (forall i :: 0 <= i < table.Length ==> NoRepeats(table[i]))
      && (forall n :: Has(n) <==> Given(records, n))
      && AllSound(records)
      && GivenOnce(records)
    }

    ghost predicate Has(n: seq<Byte>)
      requires table.Length == NAME_TABLE_SIZE
      reads this, table
    {
      InChain(table[Bucket(HashName(n))], n)
    }

    constructor (rootIno: nat)
      ensures Valid() && records == [] && orphanageIno == 0 && this.rootIno == rootIno && fresh(table)
    {
      table := new seq<NameEnt>[NAME_TABLE_SIZE](_ => []);
      this.rootIno := rootIno;
      curIno, orphanageIno, records := 0, 0, [];
    }

    method Clear()
      requires Valid()
      modifies this`records, table
      ensures Valid() && records == []
    {
      for i := 0 to table.Length
        invariant forall j :: 0 <= j < i ==> table[j] == []
      {
        while table[i] != []
          invariant forall j :: 0 <= j < i ==> table[j] == []
          decreases |table[i]|
        {
          table[i] := table[i][1..];
        }
      }
      records := [];
    }

    /** nametable_find: walks one chain only, and still knows about every name given out. */
    method Find(hash: bv32, name: seq<Byte>) returns (found: bool)
      requires Valid()
      ensures found <==> hash == HashName(name) && Given(records, name)
    {
      hide HashName, Bucket, NoRepeats, Given, AllSound, GivenOnce;
      var chain := table[Bucket(hash)];
      assert Has(name) <==> Given(records, name);
      for i := 0 to |chain|
        invariant forall k :: 0 <= k < i ==> !(chain[k].hash == hash && chain[k].name == name)
      {
        if chain[i].hash == hash && chain[i].name == name {
          assert InBucket(chain[i], Bucket(hash));
          return true;
        }
      }
      assert forall k :: 0 <= k < |chain| ==> InBucket(chain[k], Bucket(hash));
      return false;
    }

    /** nametable_add, for a name that is not in the table yet. */
    method Add(hash: bv32, name: seq<Byte>, ghost original: seq<Byte>)
      requires Valid() && !Given(records, name)
      requires hash == HashName(name) == HashName(original) && |name| == |original|
      modifies this`records, table
      ensures Valid() && records == old(records) + [Record(original, name)]
    {
      hide HashName, Bucket;
      var b := Bucket(hash);
      var ent := NameEnt(hash, name);
      assert !Has(name);
      ghost var was := table[b];
      table[b] := [ent] + table[b];
      records := records + [Record(original, name)];
      assert NoRepeats(table[b]);
      GivenMore(old(records), Record(original, name));
      forall n
        ensures Has(n) <==> Given(records, n)
      {
        assert Given(old(records), n) <==> old(Has(n));
        InChainMore(was, ent, n);
      }
    }

    /** Alternate number n of a name is a real name that has not been given out. */
    ghost predicate Fresh(name: seq<Byte>, n: nat)
      reads this
    {
      AlternateName(name, n).Alternate? && !Given(records, AlternateName(name, n).name)
    }

    /** The search of handle_duplicate_name, in a scratch copy of name[off..off + len]. */
    method SearchAlternates(hash: bv32, name: array<Byte>, off: nat, len: nat)
      returns (ok: bool, newName: array<Byte>, ghost tried: nat)
      requires Valid() && off + len <= name.Length
      requires hash == HashName(name[off..off + len])
      ensures fresh(newName) && newName.Length == len
      ensures 1 <= tried <= Basics.Pow2(Usable(len))
      ensures var was := name[off..off + len];
              forall n :: 1 <= n < tried ==> !Fresh(was, n)
      ensures ok ==> tried < Basics.Pow2(Usable(len)) && Fresh(name[off..off + len], tried)
                     && newName[..] == AlternateName(name[off..off + len], tried).name
      ensures !ok ==> tried == Basics.Pow2(Usable(len))
    {
      hide HashName, AlternateName, Usable, Given, Valid, Basics.Pow2;
      newName := new Byte[len];
      ghost var was := name[off..off + len];
      var n := 1;
      while true
        invariant 1 <= n <= Basics.Pow2(Usable(len))
        invariant name[off..off + len] == was
        invariant forall m :: 1 <= m < n ==> !Fresh(was, m)
        decreases Basics.Pow2(Usable(len)) - n
      {
        CopyName(newName, name, off);
        AlternateRange(was, n);
        var r := FindAlternate(newName, n);
        if r < 0 {
          return false, newName, n;
        }
        if r > 0 {
          AlternateKeepsHash(was, n);
          var taken := Find(hash, newName[..]);
          if !taken {
            return true, newName, n;
          }
        }
        n := n + 1;
      }
    }

    /**
     * handle_duplicate_name on name[off..off + len]. It fails only if the name and every alternate
     * the length allows, all Basics.Pow2(Usable(len)) - 1 of them, are taken or invalid; otherwise the
     * first that is not replaces the name.
     */
    method HandleDuplicateName(hash: bv32, name: array<Byte>, off: nat, len: nat)
      returns (ok: bool, ghost tried: nat)
      requires Valid() && off + len <= name.Length && name != table as object
      requires hash == HashName(name[off..off + len])
      modifies name
      ensures Valid()
      ensures forall j :: 0 <= j < off || off + len <= j < name.Length ==> name[j] == old(name[j])
      ensures var was := old(name[off..off + len]);
              && tried <= Basics.Pow2(Usable(len))
              && (forall n :: 1 <= n < tried ==> !Fresh(was, n))
              && (tried == 0 <==> !Given(records, was))
              && (tried == 0 ==> ok && name[off..off + len] == was)
              && (tried > 0 && ok ==> tried < Basics.Pow2(Usable(len)) && Fresh(was, tried)
                                      && name[off..off + len] == AlternateName(was, tried).name)
              && (!ok ==> tried == Basics.Pow2(Usable(len)) && name[..] == old(name[..]))
    {
      hide HashName, AlternateName, Usable, Given, Valid, Basics.Pow2;
      var found := Find(hash, name[off..off + len]);
      if !found {
        return true, 0;
      }
      var newName;
      ok, newName, tried := SearchAlternates(hash, name, off, len);
      if ok {
        CopyBack(name, off, newName);
      }
    }

    /** in_lost_found: the first "lost+found" seen in the root directory is remembered. */
    method InLostFound(ino: nat, name: seq<Byte>) returns (b: bool)
      requires Valid() && ino != 0
      modifies this`orphanageIno
      ensures Valid()
      ensures orphanageIno ==
              if old(orphanageIno) == 0 && curIno == rootIno && name == ORPHANAGE then ino else old(orphanageIno)
      ensures b <==> ino == orphanageIno || (curIno == orphanageIno && name == Decimal(ino))
    {
      if orphanageIno == 0 && curIno == rootIno && name == ORPHANAGE {
        orphanageIno := ino;
      }
      if ino == orphanageIno {
        return true;
      }
      if curIno != orphanageIno {
        return false;
      }
      return name == Decimal(ino);
    }

    /** What was a name is replaced: the outcome of generate_obfuscated_name for one that is not kept. */
    twostate predicate Replaced(name: array<Byte>, off: nat, len: nat, drawn: seq<Byte>)
      requires off + len <= name.Length
      reads this, name
    {
      var was, now := old(name[off..off + len]), name[off..off + len];
      && Sound(Record(was, now)) && (len >= 5 || ValidName(was) ==> ValidName(now))
      && Sound(Record(was, drawn))
      && (len < 5 ==> drawn == was) && (len >= 5 ==> AlphabetName(drawn[..len - 5]))
      && (!Given(old(records), drawn) ==> now == drawn)
      && (records == old(records) + [Record(was, now)]
          || (records == old(records) && now == drawn && Given(records, drawn)
              && forall n :: 1 <= n < Basics.Pow2(Usable(len)) ==> !Fresh(drawn, n)))
    }

    /** Obfuscate name[off..off + len], make it unlike any name given out, and record it. */
    method Replace(name: array<Byte>, off: nat, len: nat) returns (ghost drawn: seq<Byte>)
      requires Valid() && name != table as object && off + len <= name.Length
      modifies this`records, table, name
      ensures Valid()
      ensures forall j :: 0 <= j < off || off + len <= j < name.Length ==> name[j] == old(name[j])
      ensures Replaced(name, off, len, drawn)
    {
      hide HashName, AlternateName, Usable, Bucket, Given, AllSound, GivenOnce, NoRepeats, ValidName, AlphabetName,
           Basics.Pow2;
      ghost var was := name[off..off + len];
      var hash := DaHashname(name[off..off + len]);
      ObfuscateName(name, off, len, hash);
      drawn := name[off..off + len];
      if len >= 5 {
        assert drawn[..len - 5] == name[off..off + len - 5];
      }
      var ok, tried := HandleDuplicateName(hash, name, off, len);
      if tried > 0 && ok {
        AlternateKeepsHash(drawn, tried);
      }
      if ok {
        Add(hash, name[off..off + len], was);
      }
    }

    /**
     * generate_obfuscated_name. A kept name is untouched. Otherwise the bytes after a leading slash
     * become another name with the same hash; it is recorded unless it and all its alternates are
     * taken, and drawn is what obfuscate_name had made of it.
     */
    method Generate(ino: nat, name: array<Byte>, at: nat, len: nat)
      returns (ghost off: nat, ghost kept: bool, ghost drawn: seq<Byte>)
      requires Valid() && name != table as object
      requires at < name.Length && at + len <= name.Length && (name[at] == 0x2f ==> at + 1 + len <= name.Length)
      modifies this`records, this`orphanageIno, table, name
      ensures Valid()
      ensures orphanageIno ==
              if ino != 0 && old(orphanageIno) == 0 && curIno == rootIno && old(name[at..at + len]) == ORPHANAGE
              then ino else old(orphanageIno)
      ensures kept <==>
                ino != 0 && (ino == orphanageIno || (curIno == orphanageIno && old(name[at..at + len]) == Decimal(ino)))
      ensures off == (if old(name[at]) == 0x2f && !kept then at + 1 else at) && off + len <= name.Length
      ensures forall j :: 0 <= j < off || off + len <= j < name.Length ==> name[j] == old(name[j])
      ensures kept ==> name[..] == old(name[..]) && records == old(records)
      ensures !kept ==> Replaced(name, off, len, drawn)
    {
      hide Valid, Decimal, HashName, Given, AlternateName, ValidName, AlphabetName, Usable, Basics.Pow2;
      off, kept, drawn := at, false, [];
      if ino != 0 {
        var lost := InLostFound(ino, name[at..at + len]);
        if lost {
          kept := true;
          return;
        }
      }
      var start := if name[at] == 0x2f then at + 1 else at;
      off := start;
      drawn := Replace(name, start, len);
    }
  }

  method CopyName(dst: array<Byte>, src: array<Byte>, off: nat)
    requires dst != src && off + dst.Length <= src.Length
    modifies dst
    ensures dst[..] == src[off..off + dst.Length]
  {
    forall i | 0 <= i < dst.Length {
      dst[i] := src[off + i];
    }
  }

  method CopyBack(dst: array<Byte>, off: nat, src: array<Byte>)
    requires dst != src && off + src.Length <= dst.Length
    modifies dst
    ensures forall j :: 0 <= j < off || off + src.Length <= j < dst.Length ==> dst[j] == old(dst[j])
    ensures dst[off..off + src.Length] == src[..]
  {
    forall i | 0 <= i < src.Length {
      dst[off + i] := src[i];
    }
  }

  lemma AlternateRange(name: seq<Byte>, n: nat)
    ensures n < Basics.Pow2(Usable(|name|)) ==> !AlternateName(name, n).Beyond?
    ensures n == Basics.Pow2(Usable(|name|)) ==> AlternateName(name, n).Beyond?
  {
    hide AlternateFrom, Usable;
    AlternateFromRange(name, n, 0, Usable(|name|));
  }

  lemma AlternateKeepsHash(name: seq<Byte>, n: nat)
    requires AlternateName(name, n).Alternate?
    ensures var r := AlternateName(name, n).name;
            |r| == |name| && HashName(r) == HashName(name) && (ValidName(name) ==> ValidName(r))
  {
    hide AlternateFrom, HashName, ValidName;
    AlternateFromKeepsHash(name, n, 0);
  }


  ghost predicate InBucket(e: NameEnt, i: nat) { e.hash == HashName(e.name) && Bucket(e.hash) == i }

  ghost predicate NoRepeats(chain: seq<NameEnt>) {
    forall j, k :: 0 <= j < k < |chain| ==> chain[j].name != chain[k].name
  }

  ghost predicate InChain(chain: seq<NameEnt>, n: seq<Byte>) {
    exists k :: 0 <= k < |chain| && chain[k].name == n
  }

  lemma InChainMore(chain: seq<NameEnt>, e: NameEnt, n: seq<Byte>)
    ensures InChain([e] + chain, n) <==> e.name == n || InChain(chain, n)
  {
    if InChain(chain, n) {
      var k :| 0 <= k < |chain| && chain[k].name == n;
      assert ([e] + chain)[k + 1].name == n;
    }
    if e.name == n {
      assert ([e] + chain)[0].name == n;
    }
  }

  ghost predicate Given(records: seq<Record>, n: seq<Byte>) {
    exists k :: 0 <= k < |records| && records[k].given == n
  }

  ghost predicate AllSound(records: seq<Record>) {
    forall k :: 0 <= k < |records| ==> Sound(records[k])
  }

  /** No two records give out the same name. */
  ghost predicate GivenOnce(records: seq<Record>) {
    forall j, k :: 0 <= j < k < |records| ==> records[j].given != records[k].given
  }

  lemma GivenMore(records: seq<Record>, r: Record)
    ensures forall n :: Given(records + [r], n) <==> r.given == n || Given(records, n)
  {
    forall n
      ensures Given(records + [r], n) <==> r.given == n || Given(records, n)
    {
      if Given(records, n) {
        var k :| 0 <= k < |records| && records[k].given == n;
        assert (records + [r])[k].given == n;
      }
      if r.given == n {
        assert (records + [r])[|records|].given == n;
      }
    }
  }
}
