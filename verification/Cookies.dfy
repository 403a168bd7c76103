/** Listing a directory in several calls, each going on from the cookie the last one returned. */
module Cookies {

  import opened Basics

  /** A directory entry as it is handed to the caller; its cookie is where to go on if it is refused. */
  datatype Dirent = Dirent(name: seq<bv8>, ino: nat, cookie: nat)

  /** The caller's filldir: it takes as many entries as it has room for, and refuses the next. */
  class Receiver {
    var taken: seq<Dirent>
    var room: nat

    constructor (room: nat)
      ensures this.room == room && taken == []
    {
      this.room, taken := room, [];
    }

    method Filldir(d: Dirent) returns (refused: bool)
      modifies this
      ensures refused <==> old(room) == 0
      ensures taken == if refused then old(taken) else old(taken) + [d]
      ensures room == if refused then 0 else old(room) - 1
    {
      refused := room == 0;
      if !refused {
        taken := taken + [d];
        room := room - 1;
      }
    }
  }

  /** Cookies go up. */
  ghost predicate Ascending(all: seq<Dirent>) {
    forall i, j :: 0 <= i < j < |all| ==> all[i].cookie < all[j].cookie
  }

  lemma AscendingConcat(a: seq<Dirent>, b: seq<Dirent>, middle: nat)
    requires Ascending(a) && Ascending(b)
    requires (forall d <- a :: d.cookie < middle) && (forall d <- b :: d.cookie >= middle)
    ensures Ascending(a + b)
  {}

  /** The entries from a cookie on. */
  function From(all: seq<Dirent>, cookie: nat): seq<Dirent> {
    if all == [] then []
    else (if all[0].cookie >= cookie then [all[0]] else []) + From(all[1..], cookie)
  }

  lemma {:induction false} FromAll(all: seq<Dirent>, cookie: nat)
    ensures (forall d <- all :: d.cookie >= cookie) ==> From(all, cookie) == all
    ensures (forall d <- all :: d.cookie < cookie) ==> From(all, cookie) == []
    decreases |all|
  {
    if all != [] {
      FromAll(all[1..], cookie);
      assert all[0] in all && all == [all[0]] + all[1..];
    }
  }

  lemma {:induction false} FromConcat(a: seq<Dirent>, b: seq<Dirent>, cookie: nat)
    ensures From(a + b, cookie) == From(a, cookie) + From(b, cookie)
    decreases |a|
  {
    if a == [] {
      assert a + b == b;
    } else {
      assert (a + b)[1..] == a[1..] + b;
      FromConcat(a[1..], b, cookie);
    }
  }

  /** The entries before a cookie. */
  function Below(all: seq<Dirent>, cookie: nat): seq<Dirent> {
    if all == [] then []
    else (if all[0].cookie < cookie then [all[0]] else []) + Below(all[1..], cookie)
  }

  lemma {:induction false} BelowAll(all: seq<Dirent>, cookie: nat)
    ensures (forall d <- all :: d.cookie < cookie) ==> Below(all, cookie) == all
    ensures (forall d <- all :: d.cookie >= cookie) ==> Below(all, cookie) == []
    decreases |all|
  {
    if all != [] {
      BelowAll(all[1..], cookie);
      assert all[0] in all && all == [all[0]] + all[1..];
    }
  }

  lemma BelowStep(d: Dirent, rest: seq<Dirent>, cookie: nat)
    ensures Below([d] + rest, cookie) == if d.cookie < cookie then [d] + Below(rest, cookie) else Below(rest, cookie)
  {
    assert ([d] + rest)[1..] == rest;
    assert [] + Below(rest, cookie) == Below(rest, cookie);
  }

  lemma {:induction false} FromBelow(all: seq<Dirent>, cookie: nat, end: nat)
    ensures From(Below(all, end), cookie) == Below(From(all, cookie), end)
    decreases |all|
  {
    if all != [] {
      var d, rest := all[0], all[1..];
      FromBelow(rest, cookie, end);
      assert all == [d] + rest;
      BelowStep(d, rest, end);
      BelowStep(d, From(rest, cookie), end);
      FromOne(d, rest, cookie);
      FromOne(d, Below(rest, end), cookie);
    }
  }

  lemma FromOne(d: Dirent, rest: seq<Dirent>, cookie: nat)
    ensures From([d] + rest, cookie) == if d.cookie >= cookie then [d] + From(rest, cookie) else From(rest, cookie)
  {
    assert ([d] + rest)[1..] == rest;
    assert [] + From(rest, cookie) == From(rest, cookie);
  }

  /** From the cookie of an entry on: that entry and those after it. */
  lemma FromEntry(all: seq<Dirent>, i: nat)
    requires Ascending(all) && i < |all|
    ensures From(all, all[i].cookie) == all[i..]
  {
    var c := all[i].cookie;
    assert all == all[..i] + all[i..];
    FromConcat(all[..i], all[i..], c);
    FromAll(all[..i], c);
    FromAll(all[i..], c);
  }

  /** One call: the entries it delivers and the cookie it returns. */
  function Call(all: seq<Dirent>, end: nat, cookie: nat, room: nat): (seq<Dirent>, nat) {
    var rest := From(all, cookie);
    if |rest| <= room then (rest, end) else (rest[..room], rest[room].cookie)
  }

  /** A series of calls: everything they deliver, and the last cookie. */
  function Calls(all: seq<Dirent>, end: nat, cookie: nat, rooms: seq<nat>): (seq<Dirent>, nat)
    decreases |rooms|
  {
    if rooms == [] then ([], cookie)
    else
      var first := Call(all, end, cookie, rooms[0]);
      var rest := Calls(all, end, first.1, rooms[1..]);
      (first.0 + rest.0, rest.1)
  }

  function Sum(rooms: seq<nat>): nat { if rooms == [] then 0 else rooms[0] + Sum(rooms[1..]) }

  /** The cookie of the i-th entry, or the end. */
  function CookieOf(all: seq<Dirent>, end: nat, i: nat): nat { if i < |all| then all[i].cookie else end }

  ghost predicate Before(all: seq<Dirent>, end: nat) { forall d <- all :: d.cookie < end }

  lemma CallAt(all: seq<Dirent>, end: nat, i: nat, room: nat)
    requires Ascending(all) && Before(all, end) && i <= |all|
    ensures var j := Min(i + room, |all|);
            Call(all, end, CookieOf(all, end, i), room) ==
            (all[i..j], if i + room >= |all| then end else CookieOf(all, end, j))
  {
    hide From;
    if i < |all| {
      FromEntry(all, i);
      assert all[i..|all|] == all[i..];
      assert i + room < |all| ==> all[i..][..room] == all[i..i + room];
    } else {
      FromAll(all, end);
      assert all[i..i] == [];
    }
  }

  lemma CallsStep(all: seq<Dirent>, end: nat, cookie: nat, rooms: seq<nat>)
    requires rooms != []
    ensures var first := Call(all, end, cookie, rooms[0]);
            var rest := Calls(all, end, first.1, rooms[1..]);
            Calls(all, end, cookie, rooms) == (first.0 + rest.0, rest.1)
  {}

  /** After the end, nothing more is delivered. */
  lemma {:induction false} EndStays(all: seq<Dirent>, end: nat, rooms: seq<nat>)
    requires Before(all, end)
    ensures Calls(all, end, end, rooms) == ([], end)
    decreases |rooms|
  {
    if rooms != [] {
      FromAll(all, end);
      assert Call(all, end, end, rooms[0]) == ([], end);
      EndStays(all, end, rooms[1..]);
      CallsStep(all, end, end, rooms);
      var nothing: seq<Dirent> := [];
      assert nothing + nothing == nothing;
    }
  }

  /** From the i-th entry on, a series of calls delivers as many entries as there was room for. */
  lemma {:induction false} CallsFrom(all: seq<Dirent>, end: nat, i: nat, rooms: seq<nat>)
    requires Ascending(all) && Before(all, end) && i <= |all|
    ensures Calls(all, end, CookieOf(all, end, i), rooms).0 == all[i..Min(i + Sum(rooms), |all|)]
    ensures rooms != [] && i + Sum(rooms) >= |all| ==> Calls(all, end, CookieOf(all, end, i), rooms).1 == end
    decreases |rooms|
  {
    hide Call, Calls, Ascending, Before, CookieOf;
    if rooms == [] {
      NoCalls(all, end, CookieOf(all, end, i));
      assert all[i..i] == [];
    } else {
      CallsStep(all, end, CookieOf(all, end, i), rooms);
      CallAt(all, end, i, rooms[0]);
      var j := Min(i + rooms[0], |all|);
      if i + rooms[0] >= |all| {
        EndStays(all, end, rooms[1..]);
        assert all[i..j] + [] == all[i..j];
      } else {
        CallsFrom(all, end, j, rooms[1..]);
        assert all[i..j] + all[j..Min(j + Sum(rooms[1..]), |all|)] == all[i..Min(i + Sum(rooms), |all|)];
      }
    }
  }

  lemma NoCalls(all: seq<Dirent>, end: nat, cookie: nat)
    ensures Calls(all, end, cookie, []) == ([], cookie)
  {}

  /** Cookie zero and the cookie of the first entry ask for the same. */
  lemma FromStart(all: seq<Dirent>, end: nat, rooms: seq<nat>)
    requires Ascending(all) && Before(all, end) && rooms != []
    ensures Calls(all, end, 0, rooms) == Calls(all, end, CookieOf(all, end, 0), rooms)
  {
    FromAll(all, 0);
    FromAll(all, CookieOf(all, end, 0));
  }

  /**
   * However the caller refuses, a series of calls from the start delivers the entries in order, each once,
   * as many as there was room for. With room for all of them the end is reached, and from there on nothing
   * is delivered.
   */
  lemma EachOnce(all: seq<Dirent>, end: nat, rooms: seq<nat>, more: seq<nat>)
    requires Ascending(all) && Before(all, end) && rooms != []
    ensures Calls(all, end, 0, rooms).0 == all[..Min(Sum(rooms), |all|)]
    ensures Sum(rooms) >= |all| ==>
              Calls(all, end, 0, rooms) == (all, end) && Calls(all, end, end, more) == ([], end)
  {
    hide Call, Calls, Ascending, Before, CookieOf, Sum;
    FromStart(all, end, rooms);
    CallsFrom(all, end, 0, rooms);
    EndStays(all, end, more);
    assert all[0..Min(Sum(rooms), |all|)] == all[..Min(Sum(rooms), |all|)];
    assert all[..|all|] == all;
  }
}
