/** The checker's hash of directory entries: every data entry has its leaf entry, and the other way round. */
module DirHash {

  /** A name's hash and the data pointer of its entry. */
  datatype Key = Key(hash: bv32, address: nat)

  datatype Node = Node(key: Key, seen: bool)

  const SIZE := 1024

  function Bucket(k: Key): (i: nat)
    ensures i < SIZE
  {
    ((k.hash ^ ((k.address % 0x1_0000_0000) as bv32)) % 1024) as nat
  }

  /** The first node for a key, or the length of the chain. */
  function Find(chain: seq<Node>, k: Key): (i: nat)
    ensures i <= |chain|
    ensures i < |chain| ==> chain[i].key == k
    ensures forall j :: 0 <= j < i ==> chain[j].key != k
  {
    if chain == [] then 0 else if chain[0].key == k then 0 else 1 + Find(chain[1..], k)
  }

  /** The answer of dir_hash_see: found unseen, found seen, or not found. */
  function Answer(chain: seq<Node>, k: Key): int {
    var i := Find(chain, k);
    if i == |chain| then -1 else if chain[i].seen then 1 else 0
  }

  /** The chain after dir_hash_see. */
  function Marked(chain: seq<Node>, k: Key): (r: seq<Node>)
    ensures |r| == |chain|
  {
    var i := Find(chain, k);
    if i == |chain| then chain else chain[i := Node(k, true)]
  }

  function Unseen(chain: seq<Node>): nat {
    if chain == [] then 0 else (if chain[0].seen then 0 else 1) + Unseen(chain[1..])
  }

  /** The part of a list of nodes that hashes to bucket b. */
  function Part(nodes: seq<Node>, b: nat): seq<Node> {
    if nodes == [] then []
    else (if Bucket(nodes[0].key) == b then [nodes[0]] else []) + Part(nodes[1..], b)
  }

  lemma FindInRest(chain: seq<Node>, k: Key)
    requires chain != [] && chain[0].key != k
    ensures Answer(chain, k) == Answer(chain[1..], k)
    ensures Marked(chain, k) == [chain[0]] + Marked(chain[1..], k)
  {}

  /** Looking in the bucket gives the answer of looking through everything, and marks the same node. */
  lemma {:induction false} SeeInBucket(nodes: seq<Node>, k: Key, b: nat)
    ensures b == Bucket(k) ==> Answer(Part(nodes, b), k) == Answer(nodes, k)
    ensures Part(Marked(nodes, k), b) == if b == Bucket(k) then Marked(Part(nodes, b), k) else Part(nodes, b)
    decreases |nodes|
  {
    hide Bucket;
    if nodes != [] {
      var rest := nodes[1..];
      if nodes[0].key == k {
        assert Marked(nodes, k) == [Node(k, true)] + rest;
        if b == Bucket(k) {
          assert Part(nodes, b) == [nodes[0]] + Part(rest, b);
          assert Marked(Part(nodes, b), k) == [Node(k, true)] + Part(rest, b);
        }
      } else {
        SeeInBucket(rest, k, b);
        FindInRest(nodes, k);
        PartStep([nodes[0]] + Marked(rest, k), b);
        assert ([nodes[0]] + Marked(rest, k))[1..] == Marked(rest, k);
        if Bucket(nodes[0].key) == b {
          assert Part(nodes, b) == [nodes[0]] + Part(rest, b);
          assert Part(nodes, b)[1..] == Part(rest, b);
          FindInRest(Part(nodes, b), k);
        } else {
          assert Part(nodes, b) == Part(rest, b);
        }
      }
    }
  }

  lemma PartStep(nodes: seq<Node>, b: nat)
    requires nodes != []
    ensures Part(nodes, b) ==
            if Bucket(nodes[0].key) == b then [nodes[0]] + Part(nodes[1..], b) else Part(nodes[1..], b)
  {
    assert [] + Part(nodes[1..], b) == Part(nodes[1..], b);
  }

  /** Unseen nodes in the buckets from b on. */
  function UnseenFrom(nodes: seq<Node>, b: nat): nat
    decreases SIZE - b
  {
    if b >= SIZE then 0 else Unseen(Part(nodes, b)) + UnseenFrom(nodes, b + 1)
  }

  lemma {:induction false} UnseenFromStep(nodes: seq<Node>, b: nat)
    requires nodes != []
    ensures UnseenFrom(nodes, b) ==
            UnseenFrom(nodes[1..], b) + (if b <= Bucket(nodes[0].key) && !nodes[0].seen then 1 else 0)
    decreases SIZE - b
  {
    hide Bucket;
    if b < SIZE {
      UnseenFromStep(nodes, b + 1);
      PartStep(nodes, b);
      if Bucket(nodes[0].key) == b {
        assert Part(nodes, b)[1..] == Part(nodes[1..], b);
      }
    }
  }

  /** Going through the buckets counts every unseen node once. */
  lemma {:induction false} UnseenInBuckets(nodes: seq<Node>)
    ensures UnseenFrom(nodes, 0) == Unseen(nodes)
    decreases |nodes|
  {
    hide Bucket;
    if nodes == [] {
      NoneUnseen(0);
    } else {
      UnseenInBuckets(nodes[1..]);
      UnseenFromStep(nodes, 0);
    }
  }

  lemma {:induction false} NoneUnseen(b: nat)
    ensures UnseenFrom([], b) == 0
    decreases SIZE - b
  {
    if b < SIZE { NoneUnseen(b + 1); }
  }

  /** All nodes after adding the entries in order: the newest is first. */
  function Added(nodes: seq<Node>, entries: seq<Key>): seq<Node>
    decreases |entries|
  {
    if entries == [] then nodes
    else [Node(entries[|entries| - 1], false)] + Added(nodes, entries[..|entries| - 1])
  }

  /** How many of the keys, looked up in turn, are not found unseen. */
  function SeeErrors(nodes: seq<Node>, keys: seq<Key>): nat
    decreases |keys|
  {
    if keys == [] then 0
    else (if Answer(nodes, keys[0]) == 0 then 0 else 1) + SeeErrors(Marked(nodes, keys[0]), keys[1..])
  }

  function AfterSees(nodes: seq<Node>, keys: seq<Key>): (r: seq<Node>)
    ensures |r| == |nodes|
    decreases |keys|
  {
    if keys == [] then nodes else AfterSees(Marked(nodes, keys[0]), keys[1..])
  }

  /** Every error of adding the data entries, looking up the leaf entries and checking for leftovers. */
  function Errors(data: seq<Key>, leaf: seq<Key>): nat {
    var nodes := Added([], data);
    SeeErrors(nodes, leaf) + Unseen(AfterSees(nodes, leaf))
  }

  function UnseenKeys(nodes: seq<Node>): multiset<Key> {
    if nodes == [] then multiset{}
    else (if nodes[0].seen then multiset{} else multiset{nodes[0].key}) + UnseenKeys(nodes[1..])
  }

  ghost predicate Distinct(nodes: seq<Node>) {
    forall i, j :: 0 <= i < j < |nodes| ==> nodes[i].key != nodes[j].key
  }

  ghost predicate AllDifferent(keys: seq<Key>) {
    forall i, j :: 0 <= i < j < |keys| ==> keys[i] != keys[j]
  }

  lemma {:induction false} UnseenKeysCount(nodes: seq<Node>)
    ensures |UnseenKeys(nodes)| == Unseen(nodes)
    decreases |nodes|
  {
    if nodes != [] { UnseenKeysCount(nodes[1..]); }
  }

  lemma {:induction false} UnseenKeysAmong(nodes: seq<Node>, k: Key)
    requires k in UnseenKeys(nodes)
    ensures exists n <- nodes :: n.key == k
    decreases |nodes|
  {
    if nodes != [] && nodes[0].key != k {
      UnseenKeysAmong(nodes[1..], k);
      var n :| n in nodes[1..] && n.key == k;
      assert n in nodes;
    } else {
      assert nodes[0] in nodes;
    }
  }

  lemma AddedSnoc(nodes: seq<Node>, entries: seq<Key>, k: Key)
    ensures Added(nodes, entries + [k]) == [Node(k, false)] + Added(nodes, entries)
  {
    assert (entries + [k])[..|entries|] == entries;
  }

  /** With distinct keys, a key is found unseen exactly when it is among the unseen, and then no longer is. */
  lemma {:induction false} SeeTakesOne(nodes: seq<Node>, k: Key)
    requires Distinct(nodes)
    ensures Answer(nodes, k) == 0 <==> k in UnseenKeys(nodes)
    ensures Answer(nodes, k) == 0 ==> UnseenKeys(nodes) == UnseenKeys(Marked(nodes, k)) + multiset{k}
    ensures Answer(nodes, k) != 0 ==> Marked(nodes, k) == nodes
    ensures Distinct(Marked(nodes, k))
    decreases |nodes|
  {
    hide Answer, Marked, Find, UnseenKeys;
    if nodes == [] {
      NothingSeen(k);
    } else {
      var rest := nodes[1..];
      UnseenKeysStep(nodes);
      if nodes[0].key == k {
        HeadFound(nodes, k);
        if k in UnseenKeys(rest) { UnseenKeysAmong(rest, k); }
        UnseenKeysStep([Node(k, true)] + rest);
        assert ([Node(k, true)] + rest)[1..] == rest;
      } else {
        SeeTakesOne(rest, k);
        FindInRest(nodes, k);
        var marked := Marked(rest, k);
        UnseenKeysStep([nodes[0]] + marked);
        assert ([nodes[0]] + marked)[1..] == marked;
        MarkedKeys(nodes, k);
      }
    }
  }

  lemma NothingSeen(k: Key)
    ensures Answer([], k) == -1 && Marked([], k) == [] && UnseenKeys([]) == multiset{}
  {}

  lemma HeadFound(nodes: seq<Node>, k: Key)
    requires nodes != [] && nodes[0].key == k
    ensures Answer(nodes, k) == if nodes[0].seen then 1 else 0
    ensures Marked(nodes, k) == [Node(k, true)] + nodes[1..]
    ensures nodes[0].seen ==> Marked(nodes, k) == nodes
  {}

  lemma MarkedKeys(nodes: seq<Node>, k: Key)
    ensures forall i :: 0 <= i < |nodes| ==> Marked(nodes, k)[i].key == nodes[i].key
  {}

  lemma UnseenKeysStep(nodes: seq<Node>)
    requires nodes != []
    ensures UnseenKeys(nodes) ==
            if nodes[0].seen then UnseenKeys(nodes[1..]) else multiset{nodes[0].key} + UnseenKeys(nodes[1..])
  {}

  /** With distinct keys, no error means the keys looked up are those not seen before, in any order. */
  lemma {:induction false} NoErrorIff(nodes: seq<Node>, keys: seq<Key>)
    requires Distinct(nodes)
    ensures SeeErrors(nodes, keys) + Unseen(AfterSees(nodes, keys)) == 0 <==> multiset(keys) == UnseenKeys(nodes)
    decreases |keys|
  {
    hide Answer, Marked, Distinct;
    if keys == [] {
      UnseenKeysCount(nodes);
    } else {
      var k, rest := keys[0], keys[1..];
      assert keys == [k] + rest;
      SeeTakesOne(nodes, k);
      NoErrorIff(Marked(nodes, k), rest);
      if Answer(nodes, k) != 0 {
        assert k in multiset(keys);
      } else if multiset(keys) == UnseenKeys(nodes) {
        assert multiset(rest) == multiset(keys) - multiset{k} == UnseenKeys(Marked(nodes, k));
      }
    }
  }

  /** A node behind another of the same key is never marked. */
  lemma {:induction false} HiddenStaysUnseen(nodes: seq<Node>, keys: seq<Key>, i: nat, j: nat)
    requires i < j < |nodes| && nodes[i].key == nodes[j].key && !nodes[j].seen
    ensures Unseen(AfterSees(nodes, keys)) > 0
    decreases |keys|
  {
    if keys == [] {
      UnseenAt(nodes, j);
    } else {
      HiddenStaysUnseen(Marked(nodes, keys[0]), keys[1..], i, j);
    }
  }

  lemma {:induction false} UnseenAt(nodes: seq<Node>, j: nat)
    requires j < |nodes| && !nodes[j].seen
    ensures Unseen(nodes) > 0
    decreases |nodes|
  {
    if j > 0 { UnseenAt(nodes[1..], j - 1); }
  }

  lemma {:induction false} AddedIs(data: seq<Key>)
    ensures |Added([], data)| == |data|
    ensures forall i :: 0 <= i < |data| ==> Added([], data)[i] == Node(data[|data| - 1 - i], false)
    ensures UnseenKeys(Added([], data)) == multiset(data)
    decreases |data|
  {
    if data != [] {
      var front, last := data[..|data| - 1], data[|data| - 1];
      AddedIs(front);
      assert data == front + [last];
      assert Added([], data)[1..] == Added([], front);
    }
  }

  /**
   * No error is counted exactly when no data entry comes twice and the leaf entries are the data entries,
   * in some order.
   */
  lemma NoErrorsIff(data: seq<Key>, leaf: seq<Key>)
    ensures Errors(data, leaf) == 0 <==> AllDifferent(data) && multiset(leaf) == multiset(data)
  {
    var nodes := Added([], data);
    AddedIs(data);
    if AllDifferent(data) {
      NoErrorIff(nodes, leaf);
    } else {
      var i, j :| 0 <= i < j < |data| && data[i] == data[j];
      HiddenStaysUnseen(nodes, leaf, |data| - 1 - j, |data| - 1 - i);
    }
  }

  // --- blocks whose entries are added, and keys looked up, in turns -----------------------------

  /** The keys of the nodes are these, the newest first. */
  ghost predicate HasKeys(nodes: seq<Node>, all: seq<Key>) {
    |nodes| == |all| && forall i :: 0 <= i < |nodes| ==> nodes[i].key == all[|all| - 1 - i]
  }

  lemma KeysDistinct(nodes: seq<Node>, all: seq<Key>)
    requires HasKeys(nodes, all) && AllDifferent(all)
    ensures Distinct(nodes)
  {}

  lemma {:induction false} AddedKeys(nodes: seq<Node>, all: seq<Key>, entries: seq<Key>)
    requires HasKeys(nodes, all)
    ensures HasKeys(Added(nodes, entries), all + entries)
    ensures UnseenKeys(Added(nodes, entries)) == UnseenKeys(nodes) + multiset(entries)
    decreases |entries|
  {
    hide UnseenKeys;
    if entries == [] {
      assert all + entries == all;
    } else {
      var front, last := entries[..|entries| - 1], entries[|entries| - 1];
      AddedKeys(nodes, all, front);
      assert entries == front + [last] && all + entries == (all + front) + [last];
      UnseenKeysStep(Added(nodes, entries));
      assert Added(nodes, entries)[1..] == Added(nodes, front);
    }
  }

  lemma {:induction false} SeesKeepKeys(nodes: seq<Node>, keys: seq<Key>)
    ensures forall i :: 0 <= i < |nodes| ==> AfterSees(nodes, keys)[i].key == nodes[i].key
    decreases |keys|
  {
    hide Marked;
    if keys != [] {
      MarkedKeys(nodes, keys[0]);
      SeesKeepKeys(Marked(nodes, keys[0]), keys[1..]);
    }
  }

  lemma Cancel(a: multiset<Key>, b: multiset<Key>, c: multiset<Key>)
    ensures a + c <= b + c <==> a <= b
    ensures a + c == b + c <==> a == b
  {
    if a + c <= b + c {
      forall k ensures a[k] <= b[k] {
        assert (a + c)[k] <= (b + c)[k];
      }
    }
    if a + c == b + c {
      forall k ensures a[k] == b[k] {
        assert (a + c)[k] == (b + c)[k];
      }
    }
  }

  /** With distinct keys, all keys looked up are found unseen exactly when they are among the unseen. */
  lemma {:induction false} SeesIff(nodes: seq<Node>, keys: seq<Key>)
    requires Distinct(nodes)
    ensures SeeErrors(nodes, keys) == 0 <==> multiset(keys) <= UnseenKeys(nodes)
    ensures SeeErrors(nodes, keys) == 0 ==> UnseenKeys(AfterSees(nodes, keys)) + multiset(keys) == UnseenKeys(nodes)
    decreases |keys|
  {
    hide Answer, Marked, Distinct, UnseenKeys;
    if keys != [] {
      var k, rest := keys[0], keys[1..];
      assert keys == [k] + rest;
      SeeTakesOne(nodes, k);
      SeesIff(Marked(nodes, k), rest);
      if Answer(nodes, k) != 0 {
        assert multiset(keys)[k] > 0;
      } else {
        Cancel(multiset(rest), UnseenKeys(Marked(nodes, k)), multiset{k});
        assert multiset(keys) == multiset(rest) + multiset{k};
      }
    }
  }

  /** All keys are those of the nodes, and those that are unseen have not been looked up. */
  ghost predicate Stands(nodes: seq<Node>, all: seq<Key>, seen: seq<Key>) {
    HasKeys(nodes, all) && UnseenKeys(nodes) + multiset(seen) == multiset(all)
  }

  /** Some more entries are added, and then some more keys looked up. */
  lemma StandsStep(nodes: seq<Node>, all: seq<Key>, seen: seq<Key>, entries: seq<Key>, keys: seq<Key>)
    requires Stands(nodes, all, seen) && AllDifferent(all + entries)
    ensures SeeErrors(Added(nodes, entries), keys) == 0 <==> multiset(seen + keys) <= multiset(all + entries)
    ensures SeeErrors(Added(nodes, entries), keys) == 0 ==>
              Stands(AfterSees(Added(nodes, entries), keys), all + entries, seen + keys)
  {
    hide Added, SeeErrors, AfterSees, UnseenKeys, AllDifferent, Distinct;
    var added := Added(nodes, entries);
    AddedKeys(nodes, all, entries);
    KeysDistinct(added, all + entries);
    SeesIff(added, keys);
    SeesKeepKeys(added, keys);
    Cancel(multiset(keys), UnseenKeys(added), multiset(seen));
    assert multiset(keys) + multiset(seen) == multiset(seen + keys);
    assert UnseenKeys(added) + multiset(seen) == multiset(all + entries);
  }

  /** What is looked up at last is what is left, exactly if all that was looked up is all there is. */
  lemma StandsAtLast(nodes: seq<Node>, all: seq<Key>, seen: seq<Key>, keys: seq<Key>)
    requires Stands(nodes, all, seen) && AllDifferent(all)
    ensures SeeErrors(nodes, keys) + Unseen(AfterSees(nodes, keys)) == 0 <==> multiset(seen + keys) == multiset(all)
  {
    hide SeeErrors, AfterSees, UnseenKeys, Unseen, AllDifferent, Distinct;
    KeysDistinct(nodes, all);
    NoErrorIff(nodes, keys);
    Cancel(multiset(keys), UnseenKeys(nodes), multiset(seen));
    assert multiset(keys) + multiset(seen) == multiset(seen + keys);
  }

  /** A leaf block: its entries, and how many of them its header says are stale. */
  datatype Leaf = Leaf(entries: seq<Key>, stale: nat)

  /** A stale entry has a null data pointer. */
  predicate IsStale(k: Key) { k.address == 0 }

  function Live(entries: seq<Key>): seq<Key> {
    if entries == [] then [] else (if IsStale(entries[0]) then [] else [entries[0]]) + Live(entries[1..])
  }

  /** Of the entries, those with a data pointer are live, as often as they occur. */
  lemma {:induction false} LiveCounts(entries: seq<Key>, k: Key)
    ensures multiset(Live(entries))[k] == if k.address == 0 then 0 else multiset(entries)[k]
    decreases |entries|
  {
    if entries != [] {
      LiveCounts(entries[1..], k);
      assert entries == [entries[0]] + entries[1..];
    }
  }

  /** A directory whose leaf entries are exactly the keys of its entries: none is stale. */
  lemma {:induction false} NoneStale(entries: seq<Key>)
    requires forall k <- entries :: k.address != 0
    ensures Live(entries) == entries
    decreases |entries|
  {
    if entries != [] {
      NoneStale(entries[1..]);
      assert entries == [entries[0]] + entries[1..];
    }
  }

  function LiveOf(leaves: seq<Leaf>): seq<Key> {
    if leaves == [] then [] else Live(leaves[0].entries) + LiveOf(leaves[1..])
  }

  function StaleErrors(leaves: seq<Leaf>): nat {
    if leaves == [] then 0
    else
      (if leaves[0].stale == |leaves[0].entries| - |Live(leaves[0].entries)| then 0 else 1) + StaleErrors(leaves[1..])
  }

  function EntriesIn(leaves: seq<Leaf>): seq<Key> {
    if leaves == [] then [] else leaves[0].entries + EntriesIn(leaves[1..])
  }

  /** Leaf blocks whose entries all have a data pointer, and which count none as stale, are right. */
  lemma {:induction false} NoneStaleIn(leaves: seq<Leaf>)
    requires (forall k <- EntriesIn(leaves) :: k.address != 0) && (forall leaf <- leaves :: leaf.stale == 0)
    ensures LiveOf(leaves) == EntriesIn(leaves) && StaleErrors(leaves) == 0
    decreases |leaves|
  {
    hide Live;
    if leaves != [] {
      var first, rest := leaves[0].entries, EntriesIn(leaves[1..]);
      assert forall k <- first :: k in first + rest;
      assert forall k <- rest :: k in first + rest;
      NoneStale(first);
      NoneStaleIn(leaves[1..]);
    }
  }

  lemma OneLeaf(leaf: Leaf)
    ensures StaleErrors([leaf]) == if leaf.stale == |leaf.entries| - |Live(leaf.entries)| then 0 else 1
  {
    assert [leaf][1..] == [];
  }

  lemma {:induction false} SeeConcat(nodes: seq<Node>, a: seq<Key>, b: seq<Key>)
    ensures SeeErrors(nodes, a + b) == SeeErrors(nodes, a) + SeeErrors(AfterSees(nodes, a), b)
    ensures AfterSees(nodes, a + b) == AfterSees(AfterSees(nodes, a), b)
    decreases |a|
  {
    hide Answer, Marked;
    if a == [] {
      assert a + b == b;
    } else {
      assert (a + b)[0] == a[0] && (a + b)[1..] == a[1..] + b;
      SeeConcat(Marked(nodes, a[0]), a[1..], b);
    }
  }

  class DirHash {
    const dirhash: array<seq<Node>>
    var error: nat
    /** All nodes, newest first, as if there were one chain. */
    ghost var nodes: seq<Node>

    ghost predicate Valid()
      reads `nodes, dirhash
    {
      dirhash.Length == SIZE && forall b :: 0 <= b < SIZE ==> dirhash[b] == Part(nodes, b)
    }

    constructor ()
      ensures Valid() && fresh(dirhash) && nodes == [] && error == 0
    {
      dirhash := new seq<Node>[SIZE](_ => []);
      error, nodes := 0, [];
    }

    /** dir_hash_add */
    method Add(k: Key)
      requires Valid()
      modifies `nodes, dirhash
      ensures Valid() && nodes == [Node(k, false)] + old(nodes)
    {
      hide Bucket;
      var i := Bucket(k);
      dirhash[i] := [Node(k, false)] + dirhash[i];
      nodes := [Node(k, false)] + nodes;
      assert nodes[1..] == old(nodes);
    }

    /** dir_hash_see */
    method See(k: Key) returns (answer: int)
      requires Valid()
      modifies `nodes, dirhash
      ensures Valid() && nodes == Marked(old(nodes), k) && answer == Answer(old(nodes), k)
    {
      var i := Bucket(k);
      var chain, p := dirhash[i], 0;
      ghost var all := nodes;
      forall b: nat | b < SIZE
        ensures Part(Marked(all, k), b) == if b == i then Marked(chain, k) else dirhash[b]
      {
        SeeInBucket(all, k, b);
      }
      SeeInBucket(all, k, i);
      nodes := Marked(nodes, k);
      hide Bucket, Part, Find;
      while p < |chain| && chain[p].key != k
        invariant p <= |chain| && forall j :: 0 <= j < p ==> chain[j].key != k
      {
        p := p + 1;
      }
      assert p == Find(chain, k);
      if p == |chain| {
        answer := -1;
      } else if chain[p].seen {
        assert Marked(chain, k) == chain;
        answer := 1;
      } else {
        dirhash[i] := chain[p := Node(k, true)];
        answer := 0;
      }
    }

    /** dir_hash_check: how many entries no leaf entry was seen for, each of them an error. */
    method Check() returns (missing: nat)
      requires Valid()
      ensures missing == Unseen(nodes)
    {
      hide Part;
      UnseenInBuckets(nodes);
      missing := 0;
      for i := 0 to SIZE
        invariant missing + UnseenFrom(nodes, i) == UnseenFrom(nodes, 0)
      {
        var chain, p := dirhash[i], 0;
        ghost var before := missing;
        assert chain[0..] == chain;
        while p < |chain|
          invariant p <= |chain|
          invariant missing + Unseen(chain[p..]) == before + Unseen(chain)
        {
          assert chain[p..][1..] == chain[p + 1..];
          if !chain[p].seen {
            missing := missing + 1;
          }
          p := p + 1;
        }
      }
    }

    /** The entries of one leaf block. */
    method SeeLeaf(leaf: Leaf)
      requires Valid()
      modifies `error, `nodes, dirhash
      ensures Valid() && nodes == AfterSees(old(nodes), Live(leaf.entries))
      ensures error == old(error) + SeeErrors(old(nodes), Live(leaf.entries)) + StaleErrors([leaf])
    {
      hide Valid, Answer, Marked;
      var entries, i, stale := leaf.entries, 0, 0;
      ghost var start := nodes;
      assert entries[0..] == entries;
      while i < |entries|
        invariant i <= |entries| && Valid()
        invariant stale == i - (|Live(entries)| - |Live(entries[i..])|)
        invariant AfterSees(nodes, Live(entries[i..])) == AfterSees(start, Live(entries))
        invariant error + SeeErrors(nodes, Live(entries[i..])) == old(error) + SeeErrors(start, Live(entries))
      {
        assert entries[i..][0] == entries[i] && entries[i..][1..] == entries[i + 1..];
        ghost var left := Live(entries[i + 1..]);
        if IsStale(entries[i]) {
          assert Live(entries[i..]) == left;
          stale := stale + 1;
        } else {
          assert Live(entries[i..]) == [entries[i]] + left;
          assert Live(entries[i..])[1..] == left;
          var answer := See(entries[i]);
          if answer != 0 {
            error := error + 1;
          }
        }
        i := i + 1;
      }
      if stale != leaf.stale {
        error := error + 1;
      }
    }

    /**
     * A whole directory: the entries of its data blocks, then its leaf blocks, then the check. No error is
     * added exactly when the live leaf entries are the data entries, each once, and the stale counts agree.
     */
    method CheckDirectory(data: seq<Key>, leaves: seq<Leaf>)
      requires Valid() && nodes == []
      modifies `error, `nodes, dirhash
      ensures Valid()
      ensures error == old(error) + Errors(data, LiveOf(leaves)) + StaleErrors(leaves)
      ensures error == old(error) <==>
              AllDifferent(data) && multiset(LiveOf(leaves)) == multiset(data) && StaleErrors(leaves) == 0
    {
      hide Valid, Answer, Marked, AllDifferent, Live;
      NoErrorsIff(data, LiveOf(leaves));
      for i := 0 to |data|
        invariant Valid() && nodes == Added([], data[..i]) && error == old(error)
      {
        assert data[..i + 1][..i] == data[..i];
        Add(data[i]);
      }
      assert data[..|data|] == data;
      ghost var start := nodes;
      assert leaves[0..] == leaves;
      for i := 0 to |leaves|
        invariant Valid()
        invariant AfterSees(nodes, LiveOf(leaves[i..])) == AfterSees(start, LiveOf(leaves))
        invariant error + SeeErrors(nodes, LiveOf(leaves[i..])) + StaleErrors(leaves[i..]) ==
                  old(error) + SeeErrors(start, LiveOf(leaves)) + StaleErrors(leaves)
      {
        assert leaves[i..][1..] == leaves[i + 1..];
        SeeConcat(nodes, Live(leaves[i].entries), LiveOf(leaves[i + 1..]));
        SeeLeaf(leaves[i]);
      }
      var missing := Check();
      error := error + missing;
    }
  }
}
