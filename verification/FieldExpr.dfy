/** Field expressions: the tokenizer and parser, and the printer they undo. */
module FieldExpr {

  import opened Basics

  datatype Kind = Name | Num | String | Lb | Rb | Dash | Dot

  datatype Token = Token(kind: Kind, text: string)

  predicate Letter(c: char) { 'a' <= c <= 'z' }

  predicate Digit(c: char) { '0' <= c <= '9' }

  predicate IdChar(c: char) { Letter(c) || Digit(c) || c == '_' }

  predicate NumChar(c: char) { Digit(c) || c == 'x' || c == 'X' }

  const LETTERS := "abcdefghijklmnopqrstuvwxyz"
  const DIGITS := "0123456789"

  /** The characters of names and numbers, one by one. */
  lemma Characters(c: char)
    ensures (Letter(c) <==> c in LETTERS) && (Digit(c) <==> c in DIGITS)
    ensures IdChar(c) <==> c in LETTERS || c in DIGITS || c == '_'
    ensures NumChar(c) <==> c in DIGITS || c == 'x' || c == 'X'
  {
    hide LETTERS, DIGITS;
    LettersAre(c);
    TenDigits(c);
  }

  lemma LettersAre(c: char)
    ensures Letter(c) <==> c in LETTERS
  {
    if Letter(c) { assert LETTERS[c as int - 'a' as int] == c; }
  }

  lemma TenDigits(c: char)
    ensures Digit(c) <==> c in DIGITS
  {
    if Digit(c) { assert DIGITS[c as int - '0' as int] == c; }
  }

  /** The length of the longest prefix of identifier characters, and of number characters. */
  function IdSpan(s: string): (n: nat)
    ensures n <= |s| && (forall i :: 0 <= i < n ==> IdChar(s[i])) && (n < |s| ==> !IdChar(s[n]))
  {
    if s == [] || !IdChar(s[0]) then 0 else 1 + IdSpan(s[1..])
  }

  function NumSpan(s: string): (n: nat)
    ensures n <= |s| && (forall i :: 0 <= i < n ==> NumChar(s[i])) && (n < |s| ==> !NumChar(s[n]))
  {
    if s == [] || !NumChar(s[0]) then 0 else 1 + NumSpan(s[1..])
  }

  /** The position of the last double quote, or the length if there is none. */
  function LastQuote(s: string): (n: nat)
    ensures n <= |s| && (n < |s| ==> s[n] == '\"') && forall i :: n < i < |s| ==> s[i] != '\"'
    ensures n == |s| ==> '\"' !in s
    decreases |s|
  {
    if s == [] then 0
    else if s[|s| - 1] == '\"' then |s| - 1
    else
      var n := LastQuote(s[..|s| - 1]);
      if n == |s| - 1 then |s| else n
  }

  function Punctuation(c: char): Option<Kind> {
    match c
    case '[' => Some(Lb)
    case '-' => Some(Dash)
    case ']' => Some(Rb)
    case '.' => Some(Dot)
    case _ => None
  }

  /** The first token of a text, and how many characters it takes up. */
  function Next(s: string): (r: Option<(Token, nat)>)
    requires s != []
    ensures r.Some? ==> 0 < r.value.1 <= |s|
  {
    if s[0] == '\"' then
      var rest := s[1..];
      var a := LastQuote(rest);
      if a == |rest| then None else Some((Token(String, rest[..a]), a + 2))
    else if Letter(s[0]) then
      var l := IdSpan(s);
      Some((Token(Name, s[..l]), l))
    else if Digit(s[0]) then
      var l := NumSpan(s);
      Some((Token(Num, s[..l]), l))
    else
      var k := Punctuation(s[0]);
      if k.None? then None else Some((Token(k.value, s[..1]), 1))
  }

  /** The tokens of a text, or None if it has a bad character or a quote is not closed. */
  function Split(s: string): Option<seq<Token>>
    decreases |s|
  {
    if s == [] then Some([])
    else
      var first := Next(s);
      if first.None? then None else Prepend([first.value.0], Split(s[first.value.1..]))
  }

  /** Put what is already read in front. */
  function Prepend<T>(a: seq<T>, r: Option<seq<T>>): Option<seq<T>> {
    if r.None? then None else Some(a + r.value)
  }

  lemma Prepends<T>(a: seq<T>, b: seq<T>, r: Option<seq<T>>)
    ensures Prepend([], r) == r && Prepend(a, Some([])) == Some(a) && Prepend(a, None) == None
    ensures Prepend(a, Prepend(b, r)) == Prepend(a + b, r)
  {
    if r.Some? {
      assert [] + r.value == r.value && a + (b + r.value) == a + b + r.value;
    }
    assert a + [] == a;
  }

  /** flist_split. Each turn takes at least one character, so it ends. */
  method FlistSplit(name: string) returns (v: Option<seq<Token>>)
    ensures v == Split(name)
  {
    hide Next, Prepend;
    var s, toks := name, [];
    Prepends(toks, [], Split(s));
    while s != []
      invariant Prepend(toks, Split(s)) == Split(name)
      decreases |s|
    {
      var first := Next(s);
      if first.None? {
        Prepends(toks, [], None);
        return None;
      }
      Prepends(toks, [first.value.0], Split(s[first.value.1..]));
      toks := toks + [first.value.0];
      s := s[first.value.1..];
    }
    Prepends(toks, [], None);
    v := Some(toks);
  }

  const ULONG_MAX := 0xffff_ffff_ffff_ffff

  predicate DigitOf(c: char, base: nat) { Digit(c) && c as int - '0' as int < base }

  /** The digits at the front of a text as a number, and how many there are. */
  function Digits(s: string, base: nat, sofar: nat): (nat, nat)
    decreases |s|
  {
    if s == [] || !DigitOf(s[0], base) then (sofar, 0)
    else
      var r := Digits(s[1..], base, sofar * base + (s[0] as int - '0' as int));
      (r.0, r.1 + 1)
  }

  /** strtoul with base 0, on a token of number characters: None if it stops before the end. */
  function Strtoul(tok: string): Option<nat> {
    var hex := |tok| > 2 && tok[0] == '0' && (tok[1] == 'x' || tok[1] == 'X') && Digit(tok[2]);
    var skip := if hex then 2 else 0;
    var base := if hex then 16 else if tok != [] && tok[0] == '0' then 8 else 10;
    var r := Digits(tok[skip..], base, 0);
    if skip + r.1 < |tok| then None else Some(if r.0 > ULONG_MAX then ULONG_MAX else r.0)
  }

  /** The cast to int. */
  function ToInt(x: nat): int {
    var y := x % 0x1_0000_0000;
    if y >= 0x8000_0000 then y - 0x1_0000_0000 else y
  }

  lemma IntOf(x: nat)
    ensures -0x8000_0000 <= ToInt(x) < 0x8000_0000 && (x - ToInt(x)) % 0x1_0000_0000 == 0
  {}

  /** A node of a scanned chain; high is zero unless it is given. */
  datatype Scanned = Scanned(name: string, okLow: bool, low: int, okHigh: bool, high: int)

  predicate Is(toks: seq<Token>, p: nat, k: Kind) { p < |toks| && toks[p].kind == k }

  function NumAt(toks: seq<Token>, p: nat): Option<int> {
    if !Is(toks, p, Num) then None
    else
      var x := Strtoul(toks[p].text);
      if x.None? then None else Some(ToInt(x.value))
  }

  /** The index range at position p, if there is one, and the position after it. */
  function ScanIndex(toks: seq<Token>, p: nat, name: string): (r: Option<(Scanned, nat)>)
    ensures r.Some? && p <= |toks| ==> p <= r.value.1 <= |toks|
  {
    if !Is(toks, p, Lb) then Some((Scanned(name, false, 0, false, 0), p))
    else
      var low := NumAt(toks, p + 1);
      if low.None? then None
      else if !Is(toks, p + 2, Dash) then
        if Is(toks, p + 2, Rb) then Some((Scanned(name, true, low.value, false, 0), p + 3)) else None
      else
        var high := NumAt(toks, p + 3);
        if high.None? || !Is(toks, p + 4, Rb) then None
        else Some((Scanned(name, true, low.value, true, high.value), p + 5))
  }

  /** One step of the chain: a name, perhaps an index range, perhaps a dot that something must follow. */
  function ScanStep(toks: seq<Token>, p: nat): (r: Option<(Scanned, nat)>)
    requires p < |toks|
    ensures r.Some? ==> p < r.value.1 <= |toks|
  {
    if toks[p].kind != Name then None
    else
      var r := ScanIndex(toks, p + 1, toks[p].text);
      if r.None? then None
      else if Is(toks, r.value.1, Dot) then
        if r.value.1 + 1 == |toks| then None else Some((r.value.0, r.value.1 + 1))
      else r
  }

  function ScanFrom(toks: seq<Token>, p: nat): Option<seq<Scanned>>
    requires p <= |toks|
    decreases |toks| - p
  {
    if p == |toks| then Some([])
    else
      var r := ScanStep(toks, p);
      if r.None? then None else Prepend([r.value.0], ScanFrom(toks, r.value.1))
  }

  /** The chain of nodes of a field expression. */
  function Scan(name: string): Option<seq<Scanned>> {
    var v := Split(name);
    if v.None? then None else ScanFrom(v.value, 0)
  }

  /** The loop body of flist_scan: one node, and the position after it. */
  method FlistStep(toks: seq<Token>, start: nat) returns (ok: bool, node: Scanned, p: nat)
    requires start < |toks|
    ensures if ok then ScanStep(toks, start) == Some((node, p)) else ScanStep(toks, start) == None
  {
    hide Strtoul;
    ok, p, node := false, start, Scanned(toks[start].text, false, 0, false, 0);
    if toks[p].kind != Name { return; }
    p := p + 1;
    if Is(toks, p, Lb) {
      p := p + 1;
      if !Is(toks, p, Num) { return; }
      var num := Strtoul(toks[p].text);
      if num.None? { return; }
      node := node.(okLow := true, low := ToInt(num.value));
      p := p + 1;
      if Is(toks, p, Dash) {
        p := p + 1;
        if !Is(toks, p, Num) { return; }
        num := Strtoul(toks[p].text);
        if num.None? { return; }
        node := node.(okHigh := true, high := ToInt(num.value));
        p := p + 1;
      }
      if !Is(toks, p, Rb) { return; }
      p := p + 1;
    }
    if Is(toks, p, Dot) {
      p := p + 1;
      if p == |toks| { return; }
    }
    ok := true;
  }

  /** flist_scan: the chain, each node the child of the one before, or None for bad syntax. */
  method FlistScan(name: string) returns (chain: Option<seq<Scanned>>)
    ensures chain == Scan(name)
  {
    hide Split, ScanStep, Prepend;
    var v := FlistSplit(name);
    if v.None? { return None; }
    var toks, p, nodes := v.value, 0, [];
    Prepends(nodes, [], ScanFrom(toks, 0));
    while p < |toks|
      invariant p <= |toks|
      invariant Prepend(nodes, ScanFrom(toks, p)) == ScanFrom(toks, 0)
    {
      var ok, node, next := FlistStep(toks, p);
      if !ok {
        Prepends(nodes, [], None);
        return None;
      }
      Prepends(nodes, [node], ScanFrom(toks, next));
      nodes := nodes + [node];
      p := next;
    }
    Prepends(nodes, [], None);
    chain := Some(nodes);
  }

  /** A node of a field list to be printed, with the list of its children. */
  datatype Fl = Fl(name: string, okLow: bool, low: nat, high: nat, children: seq<Fl>)

  /** A number printed with %d. */
  function Decimal(n: nat): (s: string)
    ensures s != [] && forall c <- s :: Digit(c)
  {
    var last := [('0' as int + n % 10) as char];
    if n < 10 then last else Decimal(n / 10) + last
  }

  /** What a node adds to the prefix. */
  function Strings(f: Fl): seq<string> {
    (if f.name != "" then [f.name] else [])
    + (if f.okLow then ["[", Decimal(f.low)] + (if f.low != f.high then ["-", Decimal(f.high)] else []) + ["]"] else [])
    + (if f.children != [] && f.name != "" then ["."] else [])
  }

  /** The prefixes printed for the leaves of a list. */
  function Prefixes(fs: seq<Fl>, prefix: seq<string>): seq<seq<string>>
    decreases fs
  {
    if fs == [] then []
    else
      var mine := prefix + Strings(fs[0]);
      (if fs[0].children == [] then [mine] else Prefixes(fs[0].children, mine)) + Prefixes(fs[1..], prefix)
  }

  method AddStrings(fl: Fl, prefix: seq<string>) returns (pfx: seq<string>)
    ensures pfx == prefix + Strings(fl)
  {
    hide Decimal;
    pfx := prefix;
    if fl.name != "" {
      pfx := pfx + [fl.name];
    }
    if fl.okLow {
      pfx := pfx + ["["];
      pfx := pfx + [Decimal(fl.low)];
      if fl.low != fl.high {
        pfx := pfx + ["-"];
        pfx := pfx + [Decimal(fl.high)];
      }
      pfx := pfx + ["]"];
    }
    if fl.children != [] && fl.name != "" {
      pfx := pfx + ["."];
    }
  }

  /** print_flist_1: the prefix of every leaf, in order. */
  method PrintFlist(fs: seq<Fl>, prefix: seq<string>) returns (out: seq<seq<string>>)
    ensures out == Prefixes(fs, prefix)
    decreases fs
  {
    hide Strings, Prefixes;
    out := [];
    var i := 0;
    assert fs[0..] == fs && [] + Prefixes(fs, prefix) == Prefixes(fs, prefix);
    while i < |fs|
      invariant i <= |fs| && out + Prefixes(fs[i..], prefix) == Prefixes(fs, prefix)
    {
      ghost var rest := Prefixes(fs[i + 1..], prefix);
      var pfx := AddStrings(fs[i], prefix);
      var got := [pfx];
      if fs[i].children != [] {
        got := PrintFlist(fs[i].children, pfx);
      }
      PrefixesStep(fs, i, prefix);
      Associate(out, got, rest);
      out := out + got;
      i := i + 1;
    }
    NoPrefixes(fs[i..], prefix);
    assert out + [] == out;
  }

  lemma PrefixesStep(fs: seq<Fl>, i: nat, prefix: seq<string>)
    requires i < |fs|
    ensures var mine := prefix + Strings(fs[i]);
            Prefixes(fs[i..], prefix) ==
            (if fs[i].children == [] then [mine] else Prefixes(fs[i].children, mine)) + Prefixes(fs[i + 1..], prefix)
  {
    hide Strings;
    assert fs[i..][0] == fs[i] && fs[i..][1..] == fs[i + 1..];
  }

  lemma NoPrefixes(fs: seq<Fl>, prefix: seq<string>)
    ensures fs == [] ==> Prefixes(fs, prefix) == []
  {}

  /** The nodes from the root to each leaf. */
  function Paths(fs: seq<Fl>): seq<seq<Fl>>
    decreases fs
  {
    if fs == [] then []
    else (if fs[0].children == [] then [[fs[0]]] else Under(fs[0], Paths(fs[0].children))) + Paths(fs[1..])
  }

  function Under(f: Fl, paths: seq<seq<Fl>>): (r: seq<seq<Fl>>)
    ensures |r| == |paths| && forall i :: 0 <= i < |paths| ==> r[i] == [f] + paths[i]
  {
    seq(|paths|, i requires 0 <= i < |paths| => [f] + paths[i])
  }

  function PathStrings(path: seq<Fl>): seq<string> {
    if path == [] then [] else Strings(path[0]) + PathStrings(path[1..])
  }

  /** Every node but the last of a path has children. */
  predicate IsPath(path: seq<Fl>) {
    path != [] && forall i :: 0 <= i < |path| ==> (path[i].children == [] <==> i == |path| - 1)
  }

  ghost predicate Follows(outs: seq<seq<string>>, paths: seq<seq<Fl>>, prefix: seq<string>) {
    |outs| == |paths| && forall i :: 0 <= i < |paths| ==> outs[i] == prefix + PathStrings(paths[i]) && IsPath(paths[i])
  }

  lemma FollowsConcat(a: seq<seq<string>>, b: seq<seq<string>>, p: seq<seq<Fl>>, q: seq<seq<Fl>>, prefix: seq<string>)
    requires Follows(a, p, prefix) && Follows(b, q, prefix)
    ensures Follows(a + b, p + q, prefix)
  {
    hide PathStrings, IsPath;
  }

  lemma FollowsLeaf(f: Fl, prefix: seq<string>)
    requires f.children == []
    ensures Follows([prefix + Strings(f)], [[f]], prefix)
  {
    hide Strings;
    var path := [f];
    assert path[1..] == [];
    assert PathStrings(path) == Strings(f) + PathStrings(path[1..]);
    assert Strings(f) + [] == Strings(f);
  }

  lemma FollowsUnder(f: Fl, outs: seq<seq<string>>, paths: seq<seq<Fl>>, prefix: seq<string>)
    requires f.children != [] && Follows(outs, paths, prefix + Strings(f))
    ensures Follows(outs, Under(f, paths), prefix)
  {
    hide Strings;
    forall i | 0 <= i < |paths|
      ensures outs[i] == prefix + PathStrings([f] + paths[i]) && IsPath([f] + paths[i])
    {
      assert ([f] + paths[i])[1..] == paths[i];
      Associate(prefix, Strings(f), PathStrings(paths[i]));
    }
  }

  /** One prefix is printed for each leaf, made of what the nodes of its path add. */
  lemma {:induction false} PrefixesFollowPaths(fs: seq<Fl>, prefix: seq<string>)
    ensures Follows(Prefixes(fs, prefix), Paths(fs), prefix)
    decreases fs
  {
    hide Strings, Follows, Under, PathStrings;
    if fs == [] {
      FollowsNothing(prefix);
    } else {
      var f, mine := fs[0], prefix + Strings(fs[0]);
      PrefixesFollowPaths(fs[1..], prefix);
      var rest, paths := Prefixes(fs[1..], prefix), Paths(fs[1..]);
      if f.children == [] {
        FollowsLeaf(f, prefix);
        FollowsConcat([mine], rest, [[f]], paths, prefix);
      } else {
        PrefixesFollowPaths(f.children, mine);
        FollowsUnder(f, Prefixes(f.children, mine), Paths(f.children), prefix);
        FollowsConcat(Prefixes(f.children, mine), rest, Under(f, Paths(f.children)), paths, prefix);
      }
    }
  }

  lemma FollowsNothing(prefix: seq<string>)
    ensures Follows([], [], prefix)
  {}

  function Join(strs: seq<string>): string {
    if strs == [] then "" else strs[0] + Join(strs[1..])
  }

  predicate ValidName(t: string) { t != "" && Letter(t[0]) && forall c <- t :: IdChar(c) }

  predicate IsNumber(t: string) { t != "" && forall c <- t :: Digit(c) }

  predicate IsPunctuation(t: string) { |t| == 1 && Punctuation(t[0]).Some? }

  /** Texts that the tokenizer gives back: names and numbers are followed by punctuation or nothing. */
  predicate Lexemes(strs: seq<string>) {
    forall i: nat :: i < |strs| ==> LexemeAt(strs, i)
  }

  predicate LexemeAt(strs: seq<string>, i: nat)
    requires i < |strs|
  {
    || IsPunctuation(strs[i])
    || ((ValidName(strs[i]) || IsNumber(strs[i])) && (i + 1 < |strs| ==> IsPunctuation(strs[i + 1])))
  }

  function TokenOf(t: string): Token {
    Token(if t == "" then String else if Letter(t[0]) then Name else if Digit(t[0]) then Num
          else if Punctuation(t[0]).Some? then Punctuation(t[0]).value else String, t)
  }

  function TokensOf(strs: seq<string>): (toks: seq<Token>)
    requires Lexemes(strs)
    ensures |toks| == |strs|
  {
    seq(|strs|, i requires 0 <= i < |strs| => TokenOf(strs[i]))
  }

  lemma {:induction false} Spans(t: string, rest: string)
    requires rest == "" || Punctuation(rest[0]).Some?
    ensures (forall c <- t :: IdChar(c)) ==> IdSpan(t + rest) == |t|
    ensures (forall c <- t :: Digit(c)) ==> NumSpan(t + rest) == |t|
    decreases |t|
  {
    if t == "" {
      assert t + rest == rest;
    } else {
      Spans(t[1..], rest);
      assert (t + rest)[0] == t[0] && (t + rest)[1..] == t[1..] + rest;
      assert t[0] in t;
    }
  }

  /** The first token of a lexeme and what follows it is the lexeme. */
  lemma NextIs(t: string, rest: string)
    requires IsPunctuation(t) || ValidName(t) || IsNumber(t)
    requires !IsPunctuation(t) ==> rest == "" || Punctuation(rest[0]).Some?
    ensures Next(t + rest) == Some((TokenOf(t), |t|)) && (t + rest)[|t|..] == rest
  {
    if !IsPunctuation(t) { Spans(t, rest); }
    assert (t + rest)[..|t|] == t && (t + rest)[0] == t[0];
    assert t[0] in t;
  }

  /** A text in quotes goes up to the last quote there is; it may hold others. */
  lemma QuotedText(text: string, rest: string)
    requires '\"' !in rest
    ensures Next("\"" + text + "\"" + rest) == Some((Token(String, text), |text| + 2))
  {
    var s := "\"" + text + "\"" + rest;
    var inside := s[1..];
    assert inside == text + "\"" + rest && inside[|text|] == '\"';
    assert forall i :: |text| < i < |inside| ==> inside[i] == rest[i - |text| - 1];
    assert inside[..|text|] == text;
  }

  lemma OpenQuote(text: string)
    requires '\"' !in text
    ensures Next("\"" + text) == None
  {
    assert ("\"" + text)[1..] == text;
  }

  lemma JoinStarts(strs: seq<string>)
    ensures strs == [] ==> Join(strs) == ""
    ensures strs != [] && strs[0] != "" ==> Join(strs) != "" && Join(strs)[0] == strs[0][0]
  {}

  /** Lexemes written one after another are split into exactly themselves. */
  lemma {:induction false} SplitOfJoin(strs: seq<string>)
    requires Lexemes(strs)
    ensures Split(Join(strs)) == Some(TokensOf(strs))
    decreases |strs|
  {
    if strs != [] {
      var t, rest := strs[0], strs[1..];
      hide Next, Punctuation, Letter, IdChar, Digit, TokenOf, ValidName, IsNumber;
      forall i: nat | i < |rest| ensures LexemeAt(rest, i) {
        assert LexemeAt(strs, i + 1);
      }
      SplitOfJoin(rest);
      assert LexemeAt(strs, 0);
      JoinStarts(rest);
      NextIs(t, Join(rest));
      assert TokensOf(strs) == [TokenOf(t)] + TokensOf(rest);
    }
  }

  lemma {:induction false} DigitsSnoc(s: string, c: char, base: nat, sofar: nat)
    requires Digits(s, base, sofar).1 == |s| && DigitOf(c, base)
    ensures Digits(s + [c], base, sofar) == (Digits(s, base, sofar).0 * base + (c as int - '0' as int), |s| + 1)
    decreases |s|
  {
    if s == "" {
      assert "" + [c] == [c] && [c][1..] == "";
    } else {
      assert (s + [c])[0] == s[0] && (s + [c])[1..] == s[1..] + [c];
      DigitsSnoc(s[1..], c, base, sofar * base + (s[0] as int - '0' as int));
    }
  }

  /** A printed number starts with a zero only if it is zero, and its digits give it back. */
  lemma {:induction false} DecimalDigits(n: nat)
    ensures Digits(Decimal(n), 10, 0) == (n, |Decimal(n)|)
    ensures Decimal(n)[0] == '0' ==> Decimal(n) == "0"
  {
    var c := ('0' as int + n % 10) as char;
    if n < 10 {
      assert [c][1..] == "";
    } else {
      DecimalDigits(n / 10);
      DigitsSnoc(Decimal(n / 10), c, 10, 0);
      assert Decimal(n)[0] == Decimal(n / 10)[0];
    }
  }

  // --- the bases of a number ---------------------------------------------------------------------

  /** The value of digits in a base, the last digit counting once. */
  ghost function Value(s: string, base: nat): nat
    requires forall c <- s :: Digit(c)
  {
    if s == "" then 0
    else
      assert Digit(s[|s| - 1]);
      Value(s[..|s| - 1], base) * base + (s[|s| - 1] as int - '0' as int)
  }

  function Capped(n: nat): nat { if n > 0xffff_ffff_ffff_ffff then 0xffff_ffff_ffff_ffff else n }

  lemma {:induction false} DigitsAre(s: string, base: nat)
    requires forall c <- s :: Digit(c) && DigitOf(c, base)
    ensures Digits(s, base, 0) == (Value(s, base), |s|)
    decreases |s|
  {
    if s != "" {
      var front, last := s[..|s| - 1], s[|s| - 1];
      assert s == front + [last] && last in s;
      DigitsAre(front, base);
      DigitsSnoc(front, last, base, 0);
    }
  }

  lemma {:induction false} DigitsStop(s: string, base: nat, sofar: nat, k: nat)
    requires k < |s| && !DigitOf(s[k], base)
    ensures Digits(s, base, sofar).1 <= k
    decreases |s|
  {
    if k > 0 && DigitOf(s[0], base) {
      DigitsStop(s[1..], base, sofar * base + (s[0] as int - '0' as int), k - 1);
    }
  }

  /** Sixteen after 0x or 0X, eight after another leading zero, and otherwise ten; at most what 64 bits hold. */
  lemma BaseOfNumber(s: string)
    requires s != "" && forall c <- s :: Digit(c)
    ensures Strtoul("0x" + s) == Strtoul("0X" + s) == Some(Capped(Value(s, 16)))
    ensures Strtoul("0" + s) ==
            if forall c <- s :: '0' <= c <= '7' then Some(Capped(Value("0" + s, 8))) else None
    ensures s[0] != '0' ==> Strtoul(s) == Some(Capped(Value(s, 10)))
  {
    hide Digits, Value;
    HexNumber("0x" + s, s);
    HexNumber("0X" + s, s);
    OctalNumber(s);
    if s[0] != '0' {
      DigitsAre(s, 10);
      assert s[0..] == s;
    }
  }

  lemma HexNumber(tok: string, s: string)
    requires s != "" && forall c <- s :: Digit(c)
    requires tok == "0x" + s || tok == "0X" + s
    ensures Strtoul(tok) == Some(Capped(Value(s, 16)))
  {
    hide Digits, Value;
    DigitsAre(s, 16);
    assert tok[2..] == s && tok[2] == s[0];
  }

  lemma OctalNumber(s: string)
    requires s != "" && forall c <- s :: Digit(c)
    ensures Strtoul("0" + s) ==
            if forall c <- s :: '0' <= c <= '7' then Some(Capped(Value("0" + s, 8))) else None
  {
    hide Digits, Value;
    var tok := "0" + s;
    assert tok[0..] == tok && tok[1] == s[0] && Digit(tok[1]);
    if forall c <- s :: '0' <= c <= '7' {
      DigitsAre(tok, 8);
    } else {
      var k: nat :| k < |s| && !('0' <= s[k] <= '7');
      assert tok[k + 1] == s[k] && Digit(s[k]);
      DigitsStop(tok, 8, 0, k + 1);
    }
  }

  /** An x is part of a number only in second place, between a zero and a digit. */
  lemma MisplacedX(tok: string, k: nat)
    requires k < |tok| && (tok[k] == 'x' || tok[k] == 'X')
    requires !(k == 1 && tok[0] == '0' && |tok| > 2 && Digit(tok[2]))
    ensures Strtoul(tok) == None
  {
    hide Digits;
    var hex := |tok| > 2 && tok[0] == '0' && (tok[1] == 'x' || tok[1] == 'X') && Digit(tok[2]);
    if hex {
      assert k >= 2 && tok[2..][k - 2] == tok[k];
      DigitsStop(tok[2..], 16, 0, k - 2);
    } else {
      assert tok[0..] == tok;
      DigitsStop(tok, if tok[0] == '0' then 8 else 10, 0, k);
    }
  }

  lemma PrintedNumber(n: nat)
    requires n < 0x8000_0000
    ensures Strtoul(Decimal(n)) == Some(n) && ToInt(n) == n
  {
    hide Digits, Decimal;
    DecimalDigits(n);
    OctalZero();
    var t := Decimal(n);
    assert t[0..] == t;
  }

  lemma OctalZero()
    ensures Digits("0", 8, 0) == (0, 1) && Digits("0", 10, 0) == (0, 1)
  {
    assert "0"[1..] == "";
  }

  /** A node whose printed form can be read: a field name, and indices that are ints. */
  predicate Printable(f: Fl) {
    ValidName(f.name) && (f.okLow ==> f.low < 0x8000_0000 && f.high < 0x8000_0000)
  }

  function RangeRead(s: Scanned): Option<(int, int)> {
    if s.okLow then Some((s.low, if s.okHigh then s.high else s.low)) else None
  }

  function RangeOf(f: Fl): Option<(int, int)> { if f.okLow then Some((f.low, f.high)) else None }

  /** The same name and the same indices; one index read alone stands for a range of one. */
  predicate Reads(s: Scanned, f: Fl) { s.name == f.name && RangeRead(s) == RangeOf(f) }

  lemma Kinds(f: Fl)
    requires Printable(f)
    ensures TokenOf("[").kind == Lb && TokenOf("-").kind == Dash && TokenOf("]").kind == Rb && TokenOf(".").kind == Dot
    ensures TokenOf(f.name).kind == Name
    ensures TokenOf(Decimal(f.low)).kind == Num && TokenOf(Decimal(f.high)).kind == Num
  {
    assert Decimal(f.low)[0] in Decimal(f.low) && Decimal(f.high)[0] in Decimal(f.high);
    hide Decimal;
  }

  /** The tokens from p on are those of the texts. */
  ghost predicate Shows(toks: seq<Token>, p: nat, strs: seq<string>) {
    p + |strs| <= |toks| && forall i: nat :: i < |strs| ==> toks[p + i] == TokenOf(strs[i])
  }

  lemma ShowsConcat(toks: seq<Token>, p: nat, a: seq<string>, b: seq<string>)
    ensures Shows(toks, p, a + b) <==> Shows(toks, p, a) && Shows(toks, p + |a|, b)
  {
    hide TokenOf;
    if Shows(toks, p, a + b) {
      forall i: nat | i < |a| ensures toks[p + i] == TokenOf(a[i]) {
        assert (a + b)[i] == a[i];
      }
      forall i: nat | i < |b| ensures toks[p + |a| + i] == TokenOf(b[i]) {
        assert (a + b)[|a| + i] == b[i];
      }
    }
    if Shows(toks, p, a) && Shows(toks, p + |a|, b) {
      forall i: nat | i < |a + b| ensures toks[p + i] == TokenOf((a + b)[i]) {
        if i >= |a| { assert toks[p + |a| + (i - |a|)] == TokenOf(b[i - |a|]); }
      }
    }
  }

  function IndexStrings(f: Fl): seq<string> {
    if !f.okLow then []
    else if f.low == f.high then ["[", Decimal(f.low), "]"]
    else ["[", Decimal(f.low), "-", Decimal(f.high), "]"]
  }

  function DotStrings(f: Fl): seq<string> { if f.children == [] then [] else ["."] }

  lemma StringsAre(f: Fl)
    requires Printable(f)
    ensures Strings(f) == [f.name] + (IndexStrings(f) + DotStrings(f))
  {
    hide Decimal;
  }

  /** The index range of a node is read back. */
  lemma ScanIndexIs(toks: seq<Token>, p: nat, f: Fl)
    requires Printable(f) && Shows(toks, p, IndexStrings(f)) && !Is(toks, p + |IndexStrings(f)|, Lb)
    ensures var r := ScanIndex(toks, p, f.name);
            r.Some? && Reads(r.value.0, f) && r.value.1 == p + |IndexStrings(f)|
  {
    if f.okLow {
      Kinds(f);
      PrintedNumber(f.low);
      PrintedNumber(f.high);
      hide TokenOf, Decimal, Strtoul, ToInt, ValidName;
      var strs := IndexStrings(f);
      assert toks[p + 0] == TokenOf(strs[0]) && toks[p + 1] == TokenOf(strs[1]);
      assert toks[p + 2] == TokenOf(strs[2]);
      TextOf(strs[1]);
      if f.low != f.high {
        assert toks[p + 3] == TokenOf(strs[3]) && toks[p + 4] == TokenOf(strs[4]);
        TextOf(strs[3]);
      }
    }
  }

  lemma TextOf(t: string)
    ensures TokenOf(t).text == t
  {}

  /** The printed form of one node, scanned from position p. */
  lemma ScanNode(toks: seq<Token>, p: nat, f: Fl)
    requires Printable(f) && Shows(toks, p, Strings(f))
    requires f.children == [] <==> p + |Strings(f)| == |toks|
    ensures ScanStep(toks, p).Some?
    ensures Reads(ScanStep(toks, p).value.0, f) && ScanStep(toks, p).value.1 == p + |Strings(f)|
  {
    hide TokenOf, Strings, IndexStrings, ScanIndex, Printable, Reads;
    var index, dot := IndexStrings(f), DotStrings(f);
    StringsAre(f);
    ShowsConcat(toks, p, [f.name], index + dot);
    ShowsConcat(toks, p + 1, index, dot);
    Kinds(f);
    TextOf(f.name);
    assert toks[p + 0] == TokenOf([f.name][0]);
    assert dot != [] ==> toks[p + 1 + |index| + 0] == TokenOf(dot[0]);
    ScanIndexIs(toks, p + 1, f);
  }

  /** A whole path, scanned from position p to the end. */
  lemma {:induction false} ScanPath(toks: seq<Token>, p: nat, path: seq<Fl>)
    requires IsPath(path) && (forall f <- path :: Printable(f)) && Shows(toks, p, PathStrings(path))
    requires p + |PathStrings(path)| == |toks|
    ensures ScanFrom(toks, p).Some? && Agree(ScanFrom(toks, p).value, path)
    decreases |path|
  {
    hide TokenOf, Strings, ScanStep, Printable, Reads, Shows;
    var f, rest := path[0], path[1..];
    ShowsConcat(toks, p, Strings(f), PathStrings(rest));
    if rest == [] {
      ScanNode(toks, p, f);
    } else {
      SomeStrings(rest[0]);
      ScanNode(toks, p, f);
      ScanPath(toks, p + |Strings(f)|, rest);
    }
  }

  lemma SomeStrings(f: Fl)
    requires Printable(f)
    ensures Strings(f) != []
  {}

  /** The chain has the names and the indices of the path. */
  predicate Agree(chain: seq<Scanned>, path: seq<Fl>) {
    |chain| == |path| && forall i :: 0 <= i < |path| ==> Reads(chain[i], path[i])
  }

  /** A root without a name or an index is not printed. */
  function Visible(path: seq<Fl>): seq<Fl> {
    if path != [] && path[0].name == "" && !path[0].okLow then path[1..] else path
  }

  lemma LexemesConcat(a: seq<string>, b: seq<string>)
    requires Lexemes(a) && Lexemes(b) && (a == [] || IsPunctuation(a[|a| - 1]) || b == [])
    ensures Lexemes(a + b)
  {
    hide IsPunctuation, ValidName, IsNumber;
    var all := a + b;
    forall i: nat | i < |all| ensures LexemeAt(all, i) {
      if i < |a| {
        assert LexemeAt(a, i);
        assert all[i] == a[i] && (i + 1 < |a| ==> all[i + 1] == a[i + 1]);
      } else {
        assert LexemeAt(b, i - |a|);
        assert all[i] == b[i - |a|] && (i + 1 < |all| ==> all[i + 1] == b[i + 1 - |a|]);
      }
    }
  }

  lemma StringsAreLexemes(f: Fl)
    requires Printable(f)
    ensures Lexemes(Strings(f)) && (f.children != [] ==> IsPunctuation(Strings(f)[|Strings(f)| - 1]))
  {
    StringsAre(f);
    assert IsPunctuation("[") && IsPunctuation("-") && IsPunctuation("]") && IsPunctuation(".");
    assert IsNumber(Decimal(f.low)) && IsNumber(Decimal(f.high)) && ValidName(f.name);
    hide Decimal, IsPunctuation, IsNumber, ValidName, Strings;
  }

  lemma {:induction false} PathLexemes(path: seq<Fl>)
    requires (path == [] || IsPath(path)) && forall f <- path :: Printable(f)
    ensures Lexemes(PathStrings(path))
    decreases |path|
  {
    hide Strings, Printable, Lexemes, IsPunctuation;
    if path != [] {
      StringsAreLexemes(path[0]);
      PathLexemes(path[1..]);
      assert |path| == 1 ==> PathStrings(path[1..]) == [];
      LexemesConcat(Strings(path[0]), PathStrings(path[1..]));
    } else {
      NoLexemes();
    }
  }

  lemma NoLexemes()
    ensures Lexemes([])
  {}

  lemma ShowsTokens(strs: seq<string>)
    requires Lexemes(strs)
    ensures Shows(TokensOf(strs), 0, strs)
  {
    hide TokenOf;
  }

  /** What is printed for a path is split into what was printed, and scans to the same names and indices. */
  lemma ScanPrinted(path: seq<Fl>)
    requires IsPath(path) && forall f <- Visible(path) :: Printable(f)
    ensures Lexemes(PathStrings(path)) && Split(Join(PathStrings(path))) == Some(TokensOf(PathStrings(path)))
    ensures Scan(Join(PathStrings(path))).Some?
    ensures Agree(Scan(Join(PathStrings(path))).value, Visible(path))
  {
    var shown := Visible(path);
    VisibleStrings(path);
    hide Printable, Lexemes, Shows, Split, Visible, Strings;
    var strs := PathStrings(shown);
    PathLexemes(shown);
    SplitOfJoin(strs);
    ShowsTokens(strs);
    if shown != [] {
      ScanPath(TokensOf(strs), 0, shown);
    }
  }

  lemma VisibleStrings(path: seq<Fl>)
    requires IsPath(path)
    ensures PathStrings(Visible(path)) == PathStrings(path) && (Visible(path) == [] || IsPath(Visible(path)))
  {
    if Visible(path) != path {
      assert Strings(path[0]) == [];
      assert [] + PathStrings(path[1..]) == PathStrings(path[1..]);
    }
  }

  /** Every prefix that is printed for a list of fields scans to the names and indices on the way to its leaf. */
  lemma ScanPrefixes(fs: seq<Fl>)
    requires forall path <- Paths(fs), f <- Visible(path) :: Printable(f)
    ensures |Prefixes(fs, [])| == |Paths(fs)|
    ensures forall i :: 0 <= i < |Paths(fs)| ==>
              var chain := Scan(Join(Prefixes(fs, [])[i]));
              chain.Some? && Agree(chain.value, Visible(Paths(fs)[i]))
  {
    hide Printable, Scan, Agree, Visible, Lexemes, Split, Join, Strings, PathStrings, IsPath;
    PrefixesFollowPaths(fs, []);
    forall i | 0 <= i < |Paths(fs)|
      ensures var chain := Scan(Join(Prefixes(fs, [])[i]));
              chain.Some? && Agree(chain.value, Visible(Paths(fs)[i]))
    {
      var path := Paths(fs)[i];
      assert path in Paths(fs);
      assert [] + PathStrings(path) == PathStrings(path);
      ScanPrinted(path);
    }
  }
}
