/**
 * How xfs_copy hands one buffer to all its target threads: the main thread fills it, unlocks one
 * mutex for each target, and waits for the last of them to unlock a mutex for it. Mutexes are locked
 * and unlocked by different threads, so each is just a flag. Threads interleave step by step.
 */
module CopyProtocol {

  import opened Basics

  /** The main thread: filling the buffer, the two loops of write_wbuf, and the wait at its end. */
  datatype Main = Filling | Counting(i: nat) | Releasing(i: nat) | Waiting

  /** A target thread; it holds the counter's mutex from Deciding to Unlocking. */
  datatype Pc = AtWait | Writing | AtMutex(failed: bool) | Deciding(failed: bool) | Signalling(last: bool, failed: bool)
              | Unlocking(failed: bool) | Exited

  /** released: the target's wait mutex is open. written: the rounds it has written, oldest first. */
  datatype Target = Target(pc: Pc, active: bool, released: bool, written: seq<nat>)

  /**
   * round: the round under way, or the next one. wbuf: the round whose data the buffer holds.
   * signals: how often mainwait has been unlocked. live: the targets that were active when the round began.
   */
  datatype State = State(round: nat, main: Main, wbuf: nat, working: int, mainOpen: bool, signals: nat,
                         live: nat, holder: Option<nat>, ts: seq<Target>)

  /** Any thread may move next; ok says whether a write succeeds. */
  datatype Step = MainMoves | TargetMoves(t: nat, ok: bool)

  /** Locking a mutex waits for it to be open; everything else can be done at once. */
  predicate Enabled(s: State, st: Step) {
    match st
    case MainMoves => s.main.Waiting? ==> s.mainOpen
    case TargetMoves(t, _) =>
      t < |s.ts| &&
      match s.ts[t].pc
      case AtWait => s.ts[t].released
      case AtMutex(_) => s.holder.None?
      case Exited => false
      case _ => true
  }

  function MainStep(s: State): State {
    match s.main
    case Filling => s.(main := Counting(0), wbuf := s.round, live := ActiveFrom(s.ts, 0))
    case Counting(i) =>
      if i < |s.ts| then s.(main := Counting(i + 1), working := s.working + if s.ts[i].active then 1 else 0)
      else s.(main := Releasing(0))
    case Releasing(i) =>
      if i < |s.ts| then
        s.(main := Releasing(i + 1), ts := s.ts[i := if s.ts[i].active then s.ts[i].(released := true) else s.ts[i]])
      else s.(main := Waiting)
    case Waiting => s.(main := Filling, mainOpen := false, round := s.round + 1)
  }

  /** What a target's step makes of the target itself. */
  function Moved(x: Target, ok: bool, wbuf: nat, working: int): Target {
    match x.pc
    case AtWait => x.(pc := Writing, released := false)
    case Writing => if ok then x.(pc := AtMutex(false), written := x.written + [wbuf]) else x.(pc := AtMutex(true))
    case AtMutex(f) => x.(pc := Deciding(f))
    case Deciding(f) => x.(pc := Signalling(working - 1 == 0, f), active := x.active && !f)
    case Signalling(_, f) => x.(pc := Unlocking(f))
    case Unlocking(f) => x.(pc := if f then Exited else AtWait)
    case Exited => x
  }

  function TargetStep(s: State, t: nat, ok: bool): State
    requires t < |s.ts|
  {
    var s' := s.(ts := s.ts[t := Moved(s.ts[t], ok, s.wbuf, s.working)]);
    match s.ts[t].pc
    case AtMutex(_) => s'.(holder := Some(t))
    case Deciding(_) => s'.(working := s.working - 1)
    case Signalling(last, _) => if last then s'.(mainOpen := true, signals := s.signals + 1) else s'
    case Unlocking(_) => s'.(holder := None)
    case _ => s'
  }

  function Next(s: State, st: Step): State
    requires Enabled(s, st)
  {
    match st
    case MainMoves => MainStep(s)
    case TargetMoves(t, ok) => TargetStep(s, t, ok)
  }

  /** All targets active and every mutex of the protocol closed. */
  function Init(n: nat): State {
    State(0, Filling, 0, 0, false, 0, 0, None, seq(n, _ => Target(AtWait, true, false, [])))
  }

  // --- counting targets --------------------------------------------------------------------

  /** Released for the round under way, and its write not yet taken off the counter. */
  predicate Owes(x: Target) { x.released || x.pc.Writing? || x.pc.AtMutex? || x.pc.Deciding? }

  function ActiveFrom(ts: seq<Target>, i: nat): nat
    decreases |ts| - i
  {
    if i >= |ts| then 0 else (if ts[i].active then 1 else 0) + ActiveFrom(ts, i + 1)
  }

  function OweCount(ts: seq<Target>): nat {
    if ts == [] then 0 else OweCount(ts[..|ts| - 1]) + if Owes(ts[|ts| - 1]) then 1 else 0
  }

  lemma {:induction false} OweUpdate(ts: seq<Target>, t: nat, x: Target)
    requires t < |ts|
    ensures OweCount(ts[t := x]) == OweCount(ts) - (if Owes(ts[t]) then 1 else 0) + if Owes(x) then 1 else 0
    decreases |ts|
  {
    var n := |ts| - 1;
    if t == n {
      assert ts[t := x][..n] == ts[..n];
    } else {
      assert ts[t := x][..n] == ts[..n][t := x];
      OweUpdate(ts[..n], t, x);
    }
  }

  lemma {:induction false} NobodyOwes(ts: seq<Target>)
    ensures (OweCount(ts) == 0) <==> forall t :: 0 <= t < |ts| ==> !Owes(ts[t])
    decreases |ts|
  {
    if ts != [] {
      NobodyOwes(ts[..|ts| - 1]);
    }
  }

  lemma {:induction false} ActiveUpdate(ts: seq<Target>, t: nat, x: Target, i: nat)
    requires t < |ts|
    ensures ActiveFrom(ts[t := x], i)
         == ActiveFrom(ts, i) - (if i <= t && ts[t].active then 1 else 0) + if i <= t && x.active then 1 else 0
    decreases |ts| - i
  {
    if i < |ts| {
      ActiveUpdate(ts, t, x, i + 1);
    }
  }

  // --- the invariant -----------------------------------------------------------------------

  function UpTo(r: nat): seq<nat> { seq(r, k => k) }

  /** The target's write of this round is behind it, or was not due. */
  predicate Holds(pc: Pc) { pc.Deciding? || pc.Signalling? || pc.Unlocking? }

  predicate Failed(pc: Pc) {
    match pc
    case AtMutex(f) => f
    case Deciding(f) => f
    case Signalling(_, f) => f
    case Unlocking(f) => f
    case Exited => true
    case _ => false
  }

  /** Whether the main thread has come past target t in the round under way. */
  predicate Passed(s: State, t: nat) {
    match s.main
    case Releasing(i) => t < i
    case Waiting => true
    case _ => false
  }

  /** What a target's own state says about its writes in this round and before. */
  ghost predicate LocalOk(x: Target, passed: bool, round: nat) {
    && (x.active <==> !(Failed(x.pc) && !x.pc.AtMutex? && !x.pc.Deciding?))
    && (x.released ==> x.active && !x.pc.Writing? && !x.pc.AtMutex? && !x.pc.Deciding?)
    && (Owes(x) ==> passed)
    && |x.written| <= round + 1 && x.written == UpTo(|x.written|)
    && (x.active && !Failed(x.pc) ==>
          |x.written| == if !passed || x.released || x.pc.Writing? then round else round + 1)
    && (x.pc.AtMutex? || x.pc.Deciding? ==> Failed(x.pc) ==> |x.written| == round)
  }

  /** Only the last to finish signals, and only once. */
  ghost predicate LastOk(s: State, pc: Pc) {
    pc.Signalling? && pc.last ==> s.working == 0 && !s.mainOpen && (s.main.Releasing? || s.main.Waiting?) && s.live > 0
  }

  ghost predicate TargetOk(s: State, t: nat)
    requires t < |s.ts|
  {
    && (s.holder == Some(t) <==> Holds(s.ts[t].pc))
    && LocalOk(s.ts[t], Passed(s, t), s.round)
    && LastOk(s, s.ts[t].pc)
  }

  ghost predicate MainOk(s: State) {
    && (s.holder.Some? ==> s.holder.value < |s.ts|)
    && s.signals == s.round + (if s.mainOpen then 1 else 0)
    && (s.mainOpen ==> s.working == 0 && (s.main.Releasing? || s.main.Waiting?) && s.live > 0)
    && match s.main
       case Filling => s.working == 0
       case Counting(i) => i <= |s.ts| && s.wbuf == s.round
                           && s.working + ActiveFrom(s.ts, i) == ActiveFrom(s.ts, 0) == s.live
       case Releasing(i) => i <= |s.ts| && s.wbuf == s.round &&
         s.working == OweCount(s.ts) + ActiveFrom(s.ts, i) <= s.live
       case Waiting => s.wbuf == s.round && s.working == OweCount(s.ts) <= s.live
  }

  /** With the last write of a round taken off the counter, the signal is given or about to be given. */
  ghost predicate SignalOk(s: State) {
    (s.main.Releasing? || s.main.Waiting?) && s.working == 0 && s.live > 0 ==>
      s.mainOpen || exists t :: 0 <= t < |s.ts| && s.ts[t].pc.Signalling? && s.ts[t].pc.last
  }

  ghost predicate Inv(s: State) {
    MainOk(s) && SignalOk(s) && forall t :: 0 <= t < |s.ts| ==> TargetOk(s, t)
  }

  lemma InitInv(n: nat)
    ensures Inv(Init(n))
  {
    var s := Init(n);
    assert UpTo(0) == [];
    assert forall t :: 0 <= t < n ==> TargetOk(s, t);
  }

  lemma FillKeepsInv(s: State)
    requires Inv(s) && s.main.Filling?
    ensures Inv(MainStep(s))
  {
    hide LocalOk;
    var s' := MainStep(s);
    assert forall t :: 0 <= t < |s.ts| ==> TargetOk(s, t) ==> TargetOk(s', t);
  }

  /** Nobody works on a round before the main thread has released it. */
  lemma Idle(s: State)
    requires Inv(s) && (s.main.Filling? || s.main.Counting?)
    ensures OweCount(s.ts) == 0 && forall t :: 0 <= t < |s.ts| ==> !Owes(s.ts[t])
  {
    NobodyOwes(s.ts);
    assert forall t :: 0 <= t < |s.ts| ==> TargetOk(s, t) ==> !Owes(s.ts[t]);
  }

  lemma CountKeepsInv(s: State)
    requires Inv(s) && s.main.Counting?
    ensures Inv(MainStep(s))
  {
    Idle(s);
    hide LocalOk, Owes;
    var s' := MainStep(s);
    assert forall t :: 0 <= t < |s.ts| ==> TargetOk(s, t) ==> TargetOk(s', t);
    assert s.main.i == |s.ts| ==> ActiveFrom(s.ts, s.main.i) == 0;
  }

  lemma ReleaseLocal(x: Target, round: nat)
    requires LocalOk(x, false, round)
    ensures !Owes(x)
    ensures LocalOk(if x.active then x.(released := true) else x, true, round)
  {}

  lemma ReleaseKeepsInv(s: State)
    requires Inv(s) && s.main.Releasing?
    ensures Inv(MainStep(s))
  {
    hide LocalOk, OweCount;
    var i := s.main.i;
    var s' := MainStep(s);
    if i == |s.ts| {
      assert forall t :: 0 <= t < |s.ts| ==> TargetOk(s, t) ==> TargetOk(s', t);
      assert ActiveFrom(s.ts, i) == 0;
    } else {
      assert TargetOk(s, i);
      ReleaseLocal(s.ts[i], s.round);
      OweUpdate(s.ts, i, s'.ts[i]);
      ActiveUpdate(s.ts, i, s'.ts[i], i + 1);
      forall t | 0 <= t < |s.ts|
        ensures TargetOk(s', t) && s'.ts[t].pc == s.ts[t].pc
      {
        assert TargetOk(s, t);
      }
      hide TargetOk, Owes;
      SignalCarries(s, s');
    }
  }

  lemma SignalCarries(s: State, s': State)
    requires SignalOk(s) && |s'.ts| == |s.ts| && forall t :: 0 <= t < |s.ts| ==> s'.ts[t].pc == s.ts[t].pc
    requires s'.working == s.working && s'.live == s.live && s'.mainOpen == s.mainOpen
    requires s.main.Releasing? || s.main.Waiting?
    ensures SignalOk(s')
  {
    if s.working == 0 && s.live > 0 && !s.mainOpen {
      var t :| 0 <= t < |s.ts| && s.ts[t].pc.Signalling? && s.ts[t].pc.last;
      assert s'.ts[t].pc == s.ts[t].pc;
    }
  }

  lemma WakeLocal(x: Target, round: nat)
    requires LocalOk(x, true, round) && !Owes(x)
    ensures LocalOk(x, false, round + 1)
  {}

  lemma WakeKeepsInv(s: State)
    requires Inv(s) && s.main.Waiting? && s.mainOpen
    ensures Inv(MainStep(s))
  {
    hide LocalOk, Owes;
    var s' := MainStep(s);
    NobodyOwes(s.ts);
    forall t | 0 <= t < |s.ts|
      ensures TargetOk(s', t)
    {
      assert TargetOk(s, t);
      WakeLocal(s.ts[t], s.round);
    }
  }

  lemma MainKeepsInv(s: State)
    requires Inv(s) && Enabled(s, MainMoves)
    ensures Inv(MainStep(s))
  {
    hide Inv;
    match s.main
    case Filling => FillKeepsInv(s);
    case Counting(_) => CountKeepsInv(s);
    case Releasing(_) => ReleaseKeepsInv(s);
    case Waiting => WakeKeepsInv(s);
  }

  lemma MovedLocal(x: Target, ok: bool, passed: bool, round: nat, working: int)
    requires LocalOk(x, passed, round) && !x.pc.Exited? && (x.pc.AtWait? ==> x.released)
    ensures LocalOk(Moved(x, ok, round, working), passed, round)
  {
    assert UpTo(round) + [round] == UpTo(round + 1);
  }

  lemma OweCountPositive(ts: seq<Target>, t: nat)
    requires t < |ts|
    ensures Owes(ts[t]) ==> OweCount(ts) > 0
  {
    NobodyOwes(ts);
  }

  /** A target that can move has been released for this round, or is finishing its part of the last one. */
  lemma MoverFacts(s: State, t: nat, ok: bool)
    requires Inv(s) && Enabled(s, TargetMoves(t, ok))
    ensures !s.ts[t].pc.Exited? && (s.ts[t].pc.AtWait? ==> s.ts[t].released)
    ensures Owes(s.ts[t]) ==> (s.main.Releasing? || s.main.Waiting?) && s.wbuf == s.round && s.working > 0 && s.live > 0
    ensures Owes(s.ts[t]) && s.main.Releasing? ==> t < s.main.i
    ensures Holds(s.ts[t].pc) ==> s.holder == Some(t)
    ensures LastOk(s, s.ts[t].pc) && LocalOk(s.ts[t], Passed(s, t), s.round)
  {
    assert TargetOk(s, t);
    OweCountPositive(s.ts, t);
  }

  lemma MovedTargetOk(s: State, t: nat, ok: bool)
    requires Inv(s) && Enabled(s, TargetMoves(t, ok))
    ensures TargetOk(TargetStep(s, t, ok), t)
  {
    MoverFacts(s, t, ok);
    MovedLocal(s.ts[t], ok, Passed(s, t), s.round, s.working);
    assert TargetOk(s, t);
    hide Inv, LocalOk;
    if s.ts[t].pc.Writing? {
    } else {
      MovedIgnores(s.ts[t], ok, s.wbuf, s.round, s.working);
    }
  }

  lemma MovedIgnores(x: Target, ok: bool, a: nat, b: nat, working: int)
    requires !x.pc.Writing?
    ensures Moved(x, ok, a, working) == Moved(x, ok, b, working)
  {}

  lemma OtherTargetOk(s: State, t: nat, ok: bool, u: nat)
    requires Inv(s) && Enabled(s, TargetMoves(t, ok)) && u < |s.ts| && u != t
    ensures TargetOk(TargetStep(s, t, ok), u)
  {
    MoverFacts(s, t, ok);
    assert TargetOk(s, u);
    hide Inv, LocalOk;
  }

  lemma CounterStaysRightIdle(s: State, t: nat, ok: bool)
    requires Inv(s) && Enabled(s, TargetMoves(t, ok)) && (s.main.Filling? || s.main.Counting?)
    ensures MainOk(TargetStep(s, t, ok))
  {
    MoverFacts(s, t, ok);
    assert MainOk(s);
    MovedActive(s.ts[t], ok, Passed(s, t), s.round, s.working);
    var s' := TargetStep(s, t, ok);
    if s.main.Counting? {
      ActiveUpdate(s.ts, t, s'.ts[t], s.main.i);
      ActiveUpdate(s.ts, t, s'.ts[t], 0);
    }
    hide Inv, LocalOk, SignalOk, TargetOk, ActiveFrom, LastOk, Holds, Failed;
  }

  lemma CounterStaysRightBusy(s: State, t: nat, ok: bool)
    requires Inv(s) && Enabled(s, TargetMoves(t, ok)) && (s.main.Releasing? || s.main.Waiting?)
    ensures MainOk(TargetStep(s, t, ok))
  {
    hide OweCount, ActiveFrom, LocalOk, Holds, Failed;
    MoverFacts(s, t, ok);
    assert MainOk(s);
    hide Inv, SignalOk, TargetOk;
    var x := Moved(s.ts[t], ok, s.wbuf, s.working);
    OweUpdate(s.ts, t, x);
    MovedActive(s.ts[t], ok, Passed(s, t), s.round, s.working);
    MovedSame(s.ts[t], ok, s.wbuf, s.round, s.working);
    if s.main.Releasing? {
      ActiveUpdate(s.ts, t, x, s.main.i);
    }
    hide Moved, Owes;
  }

  lemma MovedSame(x: Target, ok: bool, a: nat, b: nat, working: int)
    ensures Moved(x, ok, a, working).active == Moved(x, ok, b, working).active
    ensures Owes(Moved(x, ok, a, working)) == Owes(Moved(x, ok, b, working))
  {}

  lemma CounterStaysRight(s: State, t: nat, ok: bool)
    requires Inv(s) && Enabled(s, TargetMoves(t, ok))
    ensures MainOk(TargetStep(s, t, ok))
  {
    hide Inv, MainOk, TargetStep;
    if s.main.Filling? || s.main.Counting? {
      CounterStaysRightIdle(s, t, ok);
    } else {
      CounterStaysRightBusy(s, t, ok);
    }
  }

  /** Deciding is the step that pays what the target owes, and the only one that makes it inactive. */
  lemma MovedActive(x: Target, ok: bool, passed: bool, round: nat, working: int)
    requires LocalOk(x, passed, round) && !x.pc.Exited? && (x.pc.AtWait? ==> x.released)
    ensures !x.pc.Deciding? ==> Moved(x, ok, round, working).active == x.active
    ensures Owes(Moved(x, ok, round, working)) <==> Owes(x) && !x.pc.Deciding?
  {}

  lemma SignalStaysRight(s: State, t: nat, ok: bool)
    requires Inv(s) && Enabled(s, TargetMoves(t, ok))
    ensures SignalOk(TargetStep(s, t, ok))
  {
    MoverFacts(s, t, ok);
    var s' := TargetStep(s, t, ok);
    if (s.main.Releasing? || s.main.Waiting?) && s.live > 0 && !s.mainOpen {
      if s.working == 0 {
        var u :| 0 <= u < |s.ts| && s.ts[u].pc.Signalling? && s.ts[u].pc.last;
        assert TargetOk(s, u);
      } else if s.ts[t].pc.Deciding? {
        assert s'.ts[t].pc.Signalling?;
      }
    }
  }

  lemma TargetKeepsInv(s: State, t: nat, ok: bool)
    requires Inv(s) && Enabled(s, TargetMoves(t, ok))
    ensures Inv(TargetStep(s, t, ok))
  {
    CounterStaysRight(s, t, ok);
    SignalStaysRight(s, t, ok);
    MovedTargetOk(s, t, ok);
    forall u | 0 <= u < |s.ts| && u != t
      ensures TargetOk(TargetStep(s, t, ok), u)
    {
      OtherTargetOk(s, t, ok, u);
    }
    hide TargetOk, MainOk, SignalOk;
  }

  // --- safety over all runs ----------------------------------------------------------------

  ghost predicate StepsTo(s: State, s': State) {
    exists st :: Enabled(s, st) && s' == Next(s, st)
  }

  /** Any interleaving, of any length. */
  ghost predicate Run(states: seq<State>) {
    |states| > 0 && forall i :: 0 <= i < |states| - 1 ==> StepsTo(states[i], states[i + 1])
  }

  lemma StepKeepsInv(s: State, s': State)
    requires Inv(s) && StepsTo(s, s')
    ensures Inv(s') && |s'.ts| == |s.ts|
  {
    hide Inv;
    var st :| Enabled(s, st) && s' == Next(s, st);
    match st
    case MainMoves => MainKeepsInv(s);
    case TargetMoves(t, ok) => TargetKeepsInv(s, t, ok);
  }

  lemma {:induction false} RunKeepsInv(states: seq<State>, n: nat, i: nat)
    requires Run(states) && states[0] == Init(n) && i < |states|
    ensures Inv(states[i]) && |states[i].ts| == n
    decreases i
  {
    hide Inv;
    if i == 0 {
      InitInv(n);
    } else {
      RunKeepsInv(states, n, i - 1);
      assert StepsTo(states[i - 1], states[i]);
      StepKeepsInv(states[i - 1], states[i]);
    }
  }

  /**
   * In every state of every run: while the buffer is filled nobody reads it, and each target still
   * active has written the rounds so far, each once, in order; no target ever does otherwise than
   * write a prefix of the rounds; the counter is the number of targets that owe it something, and
   * mainwait has been opened once for each round.
   */
  lemma Safety(states: seq<State>, n: nat, i: nat)
    requires Run(states) && states[0] == Init(n) && i < |states|
    ensures var s := states[i];
            && |s.ts| == n
            && (forall t :: 0 <= t < n ==> SafeTarget(s, t))
            && (s.main.Waiting? || s.main.Filling? ==> s.working == OweCount(s.ts))
            && s.signals == s.round + (if s.mainOpen then 1 else 0)
  {
    RunKeepsInv(states, n, i);
    var s := states[i];
    if s.main.Filling? {
      Idle(s);
    }
    forall t | 0 <= t < n
      ensures SafeTarget(s, t)
    {
      assert TargetOk(s, t);
    }
  }

  ghost predicate SafeTarget(s: State, t: nat)
    requires t < |s.ts|
  {
    var x := s.ts[t];
    && (s.main.Filling? ==> !x.pc.Writing? && !x.released && (x.active ==> x.written == UpTo(s.round)))
    && (x.pc.Writing? ==> s.wbuf == s.round && x.written == UpTo(s.round))
    && |x.written| <= s.round + 1 && x.written == UpTo(|x.written|)
    && (Holds(x.pc) ==> s.holder == Some(t))
  }

  // --- what a target has written, and why it stopped ---------------------------------------

  /** A run with the steps that were taken. */
  ghost predicate Traced(states: seq<State>, steps: seq<Step>) {
    && |states| == |steps| + 1
    && forall i :: 0 <= i < |steps| ==> Enabled(states[i], steps[i]) && states[i + 1] == Next(states[i], steps[i])
  }

  lemma TracedRun(states: seq<State>, steps: seq<Step>)
    requires Traced(states, steps)
    ensures Run(states)
  {
    hide Enabled, Next;
    forall i | 0 <= i < |states| - 1 ensures StepsTo(states[i], states[i + 1]) {
      assert Enabled(states[i], steps[i]) && states[i + 1] == Next(states[i], steps[i]);
    }
  }

  /** Step i was a write of target t, with the outcome ok. */
  predicate Writes(states: seq<State>, steps: seq<Step>, t: nat, i: nat, ok: bool)
    requires i < |steps| < |states|
  {
    steps[i] == TargetMoves(t, ok) && t < |states[i].ts| && states[i].ts[t].pc.Writing?
  }

  ghost predicate HasFailed(states: seq<State>, steps: seq<Step>, t: nat, k: nat)
    requires k <= |steps| < |states|
  {
    exists i: nat :: i < k && Writes(states, steps, t, i, false)
  }

  /** The rounds of the buffers that target t has successfully written in the first k steps. */
  function Copied(states: seq<State>, steps: seq<Step>, t: nat, k: nat): seq<nat>
    requires k <= |steps| < |states|
  {
    if k == 0 then []
    else
      Copied(states, steps, t, k - 1) + if Writes(states, steps, t, k - 1, true) then [states[k - 1].wbuf] else []
  }

  lemma OneWrite(s: State, st: Step, t: nat)
    requires Enabled(s, st) && t < |s.ts|
    ensures var s' := Next(s, st);
            && |s'.ts| == |s.ts|
            && s'.ts[t].written == s.ts[t].written +
                 (if st == TargetMoves(t, true) && s.ts[t].pc.Writing? then [s.wbuf] else [])
            && (Failed(s'.ts[t].pc) <==>
                  Failed(s.ts[t].pc) || (st == TargetMoves(t, false) && s.ts[t].pc.Writing?))
  {}

  /** A target has failed if and only if a write of its own has; and what it has written is what it wrote. */
  lemma {:induction false} WhatIsWritten(states: seq<State>, steps: seq<Step>, n: nat, t: nat, k: nat)
    requires Traced(states, steps) && states[0] == Init(n) && t < n && k <= |steps|
    ensures |states[k].ts| == n && states[k].ts[t].written == Copied(states, steps, t, k)
    ensures Failed(states[k].ts[t].pc) <==> HasFailed(states, steps, t, k)
    decreases k
  {
    hide Enabled, Next, Failed;
    if k == 0 {
      NotFailed();
    } else {
      WhatIsWritten(states, steps, n, t, k - 1);
      assert Enabled(states[k - 1], steps[k - 1]) && states[k] == Next(states[k - 1], steps[k - 1]);
      OneWrite(states[k - 1], steps[k - 1], t);
      if Writes(states, steps, t, k - 1, false) { assert HasFailed(states, steps, t, k); }
      assert HasFailed(states, steps, t, k) <==>
             HasFailed(states, steps, t, k - 1) || Writes(states, steps, t, k - 1, false);
    }
  }

  lemma NotFailed()
    ensures !Failed(AtWait)
  {}

  /**
   * In any run a target is given up only after a write of its own failed. As long as none has, it is active, and
   * has written every round that is over, once and in order.
   */
  lemma OnlyFailureStops(states: seq<State>, steps: seq<Step>, n: nat, t: nat, k: nat)
    requires Traced(states, steps) && states[0] == Init(n) && t < n && k <= |steps|
    ensures var s := states[k];
            && |s.ts| == n
            && var x := s.ts[t];
               && (!x.active ==> HasFailed(states, steps, t, k))
               && (HasFailed(states, steps, t, k) && !x.pc.AtMutex? && !x.pc.Deciding? ==> !x.active)
               && (!HasFailed(states, steps, t, k) && s.main.Filling? ==>
                     Copied(states, steps, t, k) == UpTo(s.round) == x.written)
               && (s.round <= |Copied(states, steps, t, k)| <= s.round + 1 || HasFailed(states, steps, t, k))
  {
    TracedRun(states, steps);
    RunKeepsInv(states, n, k);
    WhatIsWritten(states, steps, n, t, k);
    Safety(states, n, k);
    var s := states[k];
    assert TargetOk(s, t) && SafeTarget(s, t);
    hide Run, Traced, Init, HasFailed, Copied, OweCount;
  }

  // --- progress ----------------------------------------------------------------------------

  /** A round that began with an active target never gets stuck. */
  lemma NoDeadlock(s: State)
    requires Inv(s) && (s.main.Filling? || s.main.Counting? || s.live > 0)
    ensures exists st :: Enabled(s, st)
  {
    if !s.main.Waiting? || s.mainOpen {
      assert Enabled(s, MainMoves);
    } else if s.working == 0 {
      var t :| 0 <= t < |s.ts| && s.ts[t].pc.Signalling? && s.ts[t].pc.last;
      assert Enabled(s, TargetMoves(t, true));
    } else {
      NobodyOwes(s.ts);
      var t :| 0 <= t < |s.ts| && Owes(s.ts[t]);
      assert TargetOk(s, t);
      if s.ts[t].pc.AtMutex? && s.holder.Some? {
        assert TargetOk(s, s.holder.value);
        assert Enabled(s, TargetMoves(s.holder.value, true));
      } else {
        assert Enabled(s, TargetMoves(t, true));
      }
    }
  }

  /** A round that began with no active target is never over: nobody will open mainwait. */
  lemma NoTargetsNoWake(states: seq<State>, n: nat, i: nat)
    requires Run(states) && states[0] == Init(n) && i < |states|
    requires states[i].main.Waiting? && states[i].live == 0
    ensures !Enabled(states[i], MainMoves)
  {
    RunKeepsInv(states, n, i);
  }

  function PcWork(pc: Pc): nat {
    match pc
    case Writing => 5
    case AtMutex(_) => 4
    case Deciding(_) => 3
    case Signalling(_, _) => 2
    case Unlocking(_) => 1
    case _ => 0
  }

  function Work(x: Target): nat { PcWork(x.pc) + if x.released then 6 else 0 }

  function AllWork(ts: seq<Target>): nat {
    if ts == [] then 0 else AllWork(ts[..|ts| - 1]) + Work(ts[|ts| - 1])
  }

  lemma {:induction false} WorkUpdate(ts: seq<Target>, t: nat, x: Target)
    requires t < |ts|
    ensures AllWork(ts[t := x]) == AllWork(ts) - Work(ts[t]) + Work(x)
    decreases |ts|
  {
    var n := |ts| - 1;
    if t == n {
      assert ts[t := x][..n] == ts[..n];
    } else {
      assert ts[t := x][..n] == ts[..n][t := x];
      WorkUpdate(ts[..n], t, x);
    }
  }

  function MainWork(main: Main, n: nat): int {
    match main
    case Filling => 0
    case Counting(i) => 7 * n + 3 + (n - i)
    case Releasing(i) => 7 * (n - i) + 2
    case Waiting => 1
  }

  /** The steps that can still happen before the buffer is filled again are fewer than this. */
  function WorkLeft(s: State): int { MainWork(s.main, |s.ts|) + AllWork(s.ts) }

  lemma MainUsesUpWork(s: State)
    requires Inv(s) && Enabled(s, MainMoves) && !s.main.Filling?
    ensures WorkLeft(MainStep(s)) < WorkLeft(s)
  {
    assert MainOk(s);
    hide Inv, AllWork;
    if s.main.Releasing? && s.main.i < |s.ts| {
      WorkUpdate(s.ts, s.main.i, MainStep(s).ts[s.main.i]);
    }
  }

  lemma TargetUsesUpWork(s: State, t: nat, ok: bool)
    requires Inv(s) && Enabled(s, TargetMoves(t, ok))
    ensures WorkLeft(TargetStep(s, t, ok)) < WorkLeft(s)
  {
    hide AllWork;
    MoverFacts(s, t, ok);
    assert TargetOk(s, t);
    hide Inv;
    WorkUpdate(s.ts, t, TargetStep(s, t, ok).ts[t]);
  }

  lemma WorkIsCount(s: State)
    requires Inv(s)
    ensures WorkLeft(s) >= 0
  {
    assert MainOk(s);
  }

  /** Every step but the one that starts a round leaves less to do. */
  lemma StepsUseUpWork(s: State, st: Step)
    requires Inv(s) && Enabled(s, st) && !(s.main.Filling? && st.MainMoves?)
    ensures 0 <= WorkLeft(Next(s, st)) < WorkLeft(s)
  {
    hide Inv, WorkLeft;
    match st
    case MainMoves =>
      MainUsesUpWork(s);
      MainKeepsInv(s);
      WorkIsCount(MainStep(s));
    case TargetMoves(t, ok) =>
      TargetUsesUpWork(s, t, ok);
      TargetKeepsInv(s, t, ok);
      WorkIsCount(TargetStep(s, t, ok));
  }

  lemma RunTail(states: seq<State>)
    requires Run(states) && |states| > 1
    ensures StepsTo(states[0], states[1]) && Run(states[1..])
  {
    hide StepsTo;
    forall i | 0 <= i < |states[1..]| - 1
      ensures StepsTo(states[1..][i], states[1..][i + 1])
    {
      assert StepsTo(states[i + 1], states[i + 2]);
    }
  }

  /** However the threads interleave, a round is over after WorkLeft steps. */
  lemma {:induction false} RoundEnds(states: seq<State>)
    requires Run(states) && Inv(states[0])
    requires forall i :: 0 <= i < |states| - 1 ==> !states[i].main.Filling?
    ensures |states| - 1 <= WorkLeft(states[0])
    decreases |states|
  {
    hide Inv, WorkLeft, Run;
    if |states| > 1 {
      RunTail(states);
      var st :| Enabled(states[0], st) && states[1] == Next(states[0], st);
      StepsUseUpWork(states[0], st);
      StepKeepsInv(states[0], states[1]);
      RoundEnds(states[1..]);
    } else {
      RunNonEmpty(states);
      WorkIsCount(states[0]);
    }
  }

  lemma RunNonEmpty(states: seq<State>)
    requires Run(states)
    ensures |states| > 0
  {}
}
