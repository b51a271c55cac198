/** The counter shared by `async_scope` and `when_all`: work in progress plus one, the
    one being given up by the waiter when it arrives. */
module Counting {
  /** The waiter is elsewhere, has found the counter non-zero, has stored its handle, is
      suspended, or has gone on. */
  datatype Waiter = Away | Checked | Stored | Suspended | GoneOn

  /** `m_count` and `m_continuation`; starters that have looked at the counter and have yet
      to add to it; work not yet finished; finishers whose decrement reached zero and that
      are about to resume; how often the waiter has gone on. `asserting` says whether the
      program was built with its assertions. */
  datatype State = State(
    asserting: bool,
    count: int,
    continuation: bool,
    waiter: Waiter,
    loaded: set<nat>,
    unfinished: set<nat>,
    resuming: set<nat>,
    started: nat,
    gone: nat)

  /** The numbers below `n`. */
  function Ids(n: nat): (s: set<nat>)
    ensures |s| == n && forall i :: i in s <==> 0 <= i < n
  {
    if n == 0 then {} else Ids(n - 1) + {n - 1}
  }

  /** A counter over `n` tasks: none for a scope, all of them for `when_all`. */
  function Init(n: nat, asserting: bool): State {
    State(asserting, n + 1, false, Away, {}, Ids(n), {}, n, 0)
  }

  /** `on_work_started` is `Load`, the look that its assertion takes, and `Add`. */
  datatype Step =
    | Load
    | Add(id: nat)
    | Finish(id: nat)
    | Resume(id: nat)
    | CheckReady
    | Store
    | Subtract

  predicate Enabled(s: State, a: Step) {
    match a
    case Load => s.asserting ==> s.count != 0
    case Add(id) => id in s.loaded
    case Finish(id) => id in s.unfinished
    case Resume(id) => id in s.resuming
    case CheckReady => s.waiter == Away
    case Store => s.waiter == Checked
    case Subtract => s.waiter == Stored
  }

  function Do(s: State, a: Step): State
    requires Enabled(s, a)
  {
    match a
    case Load => s.(loaded := s.loaded + {s.started}, started := s.started + 1)
    case Add(id) =>
      s.(count := s.count + 1, loaded := s.loaded - {id}, unfinished := s.unfinished + {id})
    case Finish(id) =>
      var t := s.(count := s.count - 1, unfinished := s.unfinished - {id});
      if s.count == 1 then t.(resuming := s.resuming + {id}) else t
    case Resume(id) =>
      s.(resuming := s.resuming - {id}, waiter := GoneOn, gone := s.gone + 1)
    case CheckReady =>
      if s.count == 0 then s.(waiter := GoneOn, gone := s.gone + 1) else s.(waiter := Checked)
    case Store => s.(continuation := true, waiter := Stored)
    case Subtract =>
      var t := s.(count := s.count - 1);
      if s.count > 1 then t.(waiter := Suspended) else t.(waiter := GoneOn, gone := s.gone + 1)
  }

  predicate Arrived(s: State) {
    s.waiter == Suspended || s.waiter == GoneOn
  }

  function Next(s: State, a: Step): State {
    if Enabled(s, a) then Do(s, a) else s
  }

  /** A run: disabled steps are skipped, so every sequence of steps is one. */
  function Run(s: State, steps: seq<Step>): State
    decreases |steps|
  {
    if steps == [] then s else Run(Next(s, steps[0]), steps[1..])
  }

  // ---------------------------------------------------------------------------
  // What the counter is for
  // ---------------------------------------------------------------------------

  /** The counter is the unfinished work plus one until the waiter arrives; the waiter goes
      on at most once, and only with no work left; at most one finisher is about to resume
      it, with no work left and a stored handle. */
  predicate Waited(s: State) {
    && s.count == |s.unfinished| + (if Arrived(s) then 0 else 1)
    && s.gone <= 1 && |s.resuming| <= 1
    && (s.gone == 1 ==> s.unfinished == {} && s.count == 0 && s.resuming == {})
    && (s.resuming != {} ==> s.continuation && s.waiter == Suspended && s.unfinished == {})
  }

  /** Some starter adds to a counter that is zero. */
  predicate AddsToZero(s: State, steps: seq<Step>)
    decreases |steps|
  {
    steps != [] && ((steps[0].Add? && Enabled(s, steps[0]) && s.count == 0) || AddsToZero(Next(s, steps[0]), steps[1..]))
  }

  /** As a caller can arrange it: every start adds before the waiter's subtraction, or
      while other work is unfinished. */
  predicate StartsInTime(s: State, steps: seq<Step>)
    decreases |steps|
  {
    steps == [] || ((steps[0].Add? && Enabled(s, steps[0]) ==> !Arrived(s) || s.unfinished != {}) && StartsInTime(Next(s, steps[0]), steps[1..]))
  }

  // ---------------------------------------------------------------------------
  // What every step keeps
  // ---------------------------------------------------------------------------

  predicate Below(ids: set<nat>, n: nat) {
    forall id :: id in ids ==> id < n
  }

  /** Holds in every run. */
  predicate Counted(s: State) {
    && s.count == |s.unfinished| + (if Arrived(s) then 0 else 1)
    && Below(s.loaded, s.started) && Below(s.unfinished, s.started) && Below(s.resuming, s.started)
    && s.loaded !! s.unfinished && s.loaded !! s.resuming && s.unfinished !! s.resuming
    && (s.waiter == Stored || s.waiter == Suspended ==> s.continuation)
    && (s.waiter == GoneOn <==> s.gone > 0)
    && (!Arrived(s) ==> s.resuming == {})
  }

  /** How often the waiter was let go, by not suspending or by a finisher. */
  function LetGo(s: State): nat {
    s.gone + |s.resuming|
  }

  predicate AllDone(s: State) {
    Arrived(s) && s.unfinished == {}
  }

  /** The waiter has been let go exactly as often as it should. */
  predicate InOrder(s: State) {
    Counted(s) && LetGo(s) == if AllDone(s) then 1 else 0
  }

  /** It has been let go once too often. */
  predicate Overrun(s: State) {
    Counted(s) && Arrived(s) && LetGo(s) >= if AllDone(s) then 2 else 1
  }

  lemma InitInOrder(n: nat, asserting: bool)
    ensures InOrder(Init(n, asserting))
  {
    assert n == 0 <==> Ids(n) == {};
  }

  lemma Removed(s: set<nat>, id: nat)
    requires id in s
    ensures |s - {id}| == |s| - 1 && (|s| == 1 <==> s - {id} == {})
  {
    assert |s - {id}| == |s| - 1;
    if |s| == 1 { assert s - {id} == {}; }
  }

  lemma AddEffect(s: State, id: nat)
    requires Counted(s) && Enabled(s, Add(id))
    ensures var t := Do(s, Add(id));
      Counted(t) && Arrived(t) == Arrived(s) && !AllDone(t) && LetGo(t) == LetGo(s)
  {
  }

  lemma FinishEffect(s: State, id: nat)
    requires Counted(s) && Enabled(s, Finish(id))
    ensures var t := Do(s, Finish(id));
      Counted(t) && Arrived(t) == Arrived(s) && !AllDone(s) && LetGo(t) == LetGo(s) + (if AllDone(t) then 1 else 0)
  {
    Removed(s.unfinished, id);
    assert id !in s.resuming;
    assert |s.resuming + {id}| == |s.resuming| + 1;
  }

  lemma ResumeEffect(s: State, id: nat)
    requires Counted(s) && Enabled(s, Resume(id))
    ensures var t := Do(s, Resume(id));
      Counted(t) && Arrived(s) && Arrived(t) && AllDone(t) == AllDone(s) && LetGo(t) == LetGo(s)
  {
    Removed(s.resuming, id);
  }

  lemma WaiterEffect(s: State, a: Step)
    requires Counted(s) && Enabled(s, a) && (a == CheckReady || a == Store || a == Subtract)
    ensures var t := Do(s, a);
      Counted(t) && !Arrived(s) && LetGo(s) == 0 && LetGo(t) == if AllDone(t) then 1 else 0
  {
    assert |s.unfinished| == 0 <==> s.unfinished == {};
  }

  /** Each step keeps the order, unless it adds to a counter that is zero; and an overrun
      is never made good. */
  lemma StepKeeps(s: State, a: Step)
    requires Counted(s) && Enabled(s, a)
    ensures InOrder(s) && !(a.Add? && s.count == 0) ==> InOrder(Do(s, a))
    ensures InOrder(s) && a.Add? && s.count == 0 ==> Overrun(Do(s, a))
    ensures Overrun(s) ==> Overrun(Do(s, a))
  {
    ZeroMeansDone(s);
    match a
    case Load =>
    case Add(id) => AddEffect(s, id);
    case Finish(id) => FinishEffect(s, id);
    case Resume(id) => ResumeEffect(s, id);
    case _ => WaiterEffect(s, a);
  }

  lemma ZeroMeansDone(s: State)
    requires Counted(s)
    ensures s.count == 0 <==> AllDone(s)
  {
  }

  lemma {:induction false} OverrunStays(s: State, steps: seq<Step>)
    requires Overrun(s)
    ensures Overrun(Run(s, steps))
    decreases |steps|
  {
    if steps != [] {
      if Enabled(s, steps[0]) { StepKeeps(s, steps[0]); }
      OverrunStays(Next(s, steps[0]), steps[1..]);
    }
  }

  lemma {:induction false} RunDecides(s: State, steps: seq<Step>)
    requires InOrder(s)
    ensures if AddsToZero(s, steps) then Overrun(Run(s, steps)) else InOrder(Run(s, steps))
    ensures AddsToZero(s, steps) <==> !StartsInTime(s, steps)
    decreases |steps|
  {
    if steps != [] {
      var a := steps[0];
      ZeroMeansDone(s);
      if Enabled(s, a) { StepKeeps(s, a); }
      if a.Add? && Enabled(s, a) && s.count == 0 {
        OverrunStays(Do(s, a), steps[1..]);
      } else {
        RunDecides(Next(s, a), steps[1..]);
      }
    }
  }

  lemma OrderMeansWaited(s: State)
    ensures InOrder(s) ==> Waited(s)
    ensures Overrun(s) ==> !Waited(s)
  {
    assert |s.resuming| == 0 <==> s.resuming == {};
  }

  /** In every interleaving the waiter waits for all work, and goes on at most once, if and
      only if no starter adds to a counter that is zero. */
  lemma WaitsForAll(n: nat, asserting: bool, steps: seq<Step>)
    ensures Waited(Run(Init(n, asserting), steps)) <==> !AddsToZero(Init(n, asserting), steps)
  {
    InitInOrder(n, asserting);
    RunDecides(Init(n, asserting), steps);
    OrderMeansWaited(Run(Init(n, asserting), steps));
  }

  /** The same, in terms of what a caller can arrange. */
  lemma WaitsForTimelyStarts(n: nat, asserting: bool, steps: seq<Step>)
    ensures Waited(Run(Init(n, asserting), steps)) <==> StartsInTime(Init(n, asserting), steps)
  {
    WaitsForAll(n, asserting, steps);
    InitInOrder(n, asserting);
    RunDecides(Init(n, asserting), steps);
  }

  // ---------------------------------------------------------------------------
  // The run that the assertion does not catch
  // ---------------------------------------------------------------------------

  lemma RunMore(s: State, a: Step, steps: seq<Step>)
    requires Enabled(s, a)
    ensures Run(s, [a] + steps) == Run(Do(s, a), steps)
  {
    assert ([a] + steps)[1..] == steps;
  }

  /** A starter looks at the counter before the waiter subtracts and adds to it after: the
      waiter goes on with the work unfinished, and goes on again when it finishes. */
  lemma LateStart()
    ensures var s := Run(Init(0, true), [Load, CheckReady, Store, Subtract, Add(0)]);
      s.gone == 1 && s.unfinished == {0}
    ensures Run(Init(0, true), [Load, CheckReady, Store, Subtract, Add(0), Finish(0), Resume(0)]).gone == 2
  {
    var s0 := Init(0, true);
    var s4 := s0.(count := 0, continuation := true, waiter := GoneOn, gone := 1, loaded := {0}, started := 1);
    var late := s4.(count := 1, loaded := {}, unfinished := {0});
    var tail := [Finish(0), Resume(0)];
    ToSubtraction(s0, [Add(0)]);
    ToSubtraction(s0, [Add(0)] + tail);
    assert Do(s4, Add(0)) == late;
    RunMore(s4, Add(0), []);
    RunMore(s4, Add(0), tail);
    assert [Add(0)] + [] == [Add(0)];
    RunMore(late, Finish(0), [Resume(0)]);
    RunMore(Do(late, Finish(0)), Resume(0), []);
    assert [Finish(0)] + [Resume(0)] == tail && [Resume(0)] + [] == [Resume(0)];
    assert [Load, CheckReady, Store, Subtract] + [Add(0)] == [Load, CheckReady, Store, Subtract, Add(0)];
    assert [Load, CheckReady, Store, Subtract] + ([Add(0)] + tail)
        == [Load, CheckReady, Store, Subtract, Add(0), Finish(0), Resume(0)];
  }

  lemma ToSubtraction(s: State, rest: seq<Step>)
    requires s == Init(0, true)
    ensures Run(s, [Load, CheckReady, Store, Subtract] + rest)
         == Run(s.(count := 0, continuation := true, waiter := GoneOn, gone := 1, loaded := {0}, started := 1), rest)
  {
    var s1 := Do(s, Load);
    var s2 := Do(s1, CheckReady);
    var s3 := Do(s2, Store);
    RunMore(s, Load, [CheckReady, Store, Subtract] + rest);
    RunMore(s1, CheckReady, [Store, Subtract] + rest);
    RunMore(s2, Store, [Subtract] + rest);
    RunMore(s3, Subtract, rest);
    assert [Load] + ([CheckReady, Store, Subtract] + rest) == [Load, CheckReady, Store, Subtract] + rest;
    assert [CheckReady] + ([Store, Subtract] + rest) == [CheckReady, Store, Subtract] + rest;
    assert [Store] + ([Subtract] + rest) == [Store, Subtract] + rest;
    assert {} + {s.started} == {0};
  }

  // ---------------------------------------------------------------------------
  // The waiter is not stranded
  // ---------------------------------------------------------------------------

  /** Nothing but a new start can still happen. */
  ghost predicate Settled(s: State) {
    forall a: Step :: a == Load || !Enabled(s, a)
  }

  /** A run that cannot go further has let the waiter go on, and once only if and only if
      no starter added to a counter that was zero. */
  lemma SettledHasGoneOn(n: nat, asserting: bool, steps: seq<Step>)
    requires Settled(Run(Init(n, asserting), steps))
    ensures var s := Run(Init(n, asserting), steps);
      s.gone >= 1 && (s.gone == 1 <==> !AddsToZero(Init(n, asserting), steps))
  {
    InitInOrder(n, asserting);
    RunDecides(Init(n, asserting), steps);
    SettledHasArrived(Run(Init(n, asserting), steps));
  }

  lemma SettledHasArrived(s: State)
    requires Counted(s) && Settled(s)
    ensures Arrived(s) && s.unfinished == {} && s.resuming == {} && s.loaded == {}
  {
    assert !Enabled(s, CheckReady) && !Enabled(s, Store) && !Enabled(s, Subtract);
    if id :| id in s.unfinished { assert Enabled(s, Finish(id)); }
    if id :| id in s.resuming { assert Enabled(s, Resume(id)); }
    if id :| id in s.loaded { assert Enabled(s, Add(id)); }
  }

  /** Whatever is left to do comes to an end: every step but `Load` uses some of it up. */
  function Left(s: State): int {
    3 * |s.loaded| + 2 * |s.unfinished| + |s.resuming|
    + match s.waiter { case Away => 3 case Checked => 2 case Stored => 1 case Suspended => 0 case GoneOn => 0 }
  }

  lemma StepsAreFew(s: State, a: Step)
    requires Counted(s) && Enabled(s, a) && a != Load
    ensures 0 <= Left(Do(s, a)) < Left(s)
  {
    match a
    case Add(id) =>
      Removed(s.loaded, id);
      AddEffect(s, id);
    case Finish(id) =>
      Removed(s.unfinished, id);
      FinishEffect(s, id);
    case Resume(id) => Removed(s.resuming, id);
    case _ =>
  }
}

/** `when_all_ready_awaitable::try_await`: the waiter starts every task, each of which may
    finish at once or later, and only then gives up its one. */
module WhenAll {
  import opened Counting

  datatype Group = Group(counter: Counting.State, launched: nat, tasks: nat)

  function Begin(n: nat): Group {
    Group(Counting.Init(n, true), 0, n)
  }

  datatype Move = Launch | Count(step: Counting.Step)

  /** Only launched tasks finish; the waiter subtracts when all are launched. */
  predicate Allowed(g: Group, m: Move) {
    match m
    case Launch => g.counter.waiter == Checked && g.launched < g.tasks
    case Count(a) =>
      && Counting.Enabled(g.counter, a) && !a.Load? && !a.Add?
      && (a.Finish? ==> a.id < g.launched)
      && (a == Store ==> g.launched == g.tasks)
  }

  function Moved(g: Group, m: Move): Group
    requires Allowed(g, m)
  {
    match m
    case Launch => g.(launched := g.launched + 1)
    case Count(a) => g.(counter := Counting.Do(g.counter, a))
  }

  function Play(g: Group, moves: seq<Move>): Group
    decreases |moves|
  {
    if moves == [] then g
    else Play(if Allowed(g, moves[0]) then Moved(g, moves[0]) else g, moves[1..])
  }

  /** Tasks not launched are not finished, and all are launched before the handle is stored. */
  predicate Launching(g: Group) {
    && g.launched <= g.tasks == g.counter.started && Counting.InOrder(g.counter) && g.counter.loaded == {}
    && (forall i :: g.launched <= i < g.tasks ==> i in g.counter.unfinished)
    && (g.counter.waiter == Stored || Arrived(g.counter) ==> g.launched == g.tasks)
  }

  lemma MoveKeeps(g: Group, m: Move)
    requires Launching(g) && Allowed(g, m)
    ensures Launching(Moved(g, m)) && Moved(g, m).tasks == g.tasks
  {
    if m.Count? { Counting.StepKeeps(g.counter, m.step); }
  }

  lemma {:induction false} PlayKeeps(g: Group, moves: seq<Move>)
    requires Launching(g)
    ensures Launching(Play(g, moves)) && Play(g, moves).tasks == g.tasks
    decreases |moves|
  {
    if moves != [] {
      if Allowed(g, moves[0]) { MoveKeeps(g, moves[0]); }
      PlayKeeps(if Allowed(g, moves[0]) then Moved(g, moves[0]) else g, moves[1..]);
    }
  }

  ghost predicate Stuck(g: Group) {
    forall m: Move :: !Allowed(g, m)
  }

  /** For every number of tasks and every interleaving: the awaiting coroutine goes on at
      most once, then with all tasks launched and finished; and a run that can go no
      further has let it go on. */
  lemma GoesOnExactlyOnce(n: nat, moves: seq<Move>)
    ensures var g := Play(Begin(n), moves);
      && g.counter.gone <= 1
      && (g.counter.gone == 1 ==> g.launched == n && g.counter.unfinished == {})
      && (Stuck(g) ==> g.counter.gone == 1)
  {
    Counting.InitInOrder(n, true);
    PlayKeeps(Begin(n), moves);
    var g := Play(Begin(n), moves);
    if Stuck(g) { StuckHasGoneOn(g); }
  }

  lemma StuckHasGoneOn(g: Group)
    requires Launching(g) && Stuck(g)
    ensures g.counter.gone == 1
  {
    var c := g.counter;
    assert !Allowed(g, Launch) && !Allowed(g, Count(CheckReady)) && !Allowed(g, Count(Store)) && !Allowed(g, Count(Subtract));
    if c.waiter == Suspended {
      if c.unfinished == {} {
        var id :| id in c.resuming;
        assert Allowed(g, Count(Resume(id)));
      } else {
        var id :| id in c.unfinished;
        assert Allowed(g, Count(Finish(id)));
      }
    }
  }
}
