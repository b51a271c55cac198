/** Whole runs of the timer loop on its pointer structure, against the state machine. */
module TimerRuns {
  import opened SkipList
  import opened SkipListRuns
  import opened TimerSpec
  import opened Timer
  import Event = AutoResetEvent

  /** What happens to a context: its timer loop is started, a coroutine registers a timeout
      (the height is what `random_level` returned), the kernel's timeout fires, with what the
      coroutines it resumes register, or the context is stopped. */
  datatype Act =
    | StartLoop
    | RegisterTimer(cont: nat, now: int, timeout: int, level: nat)
    | KernelTimeout(now: int, first: nat -> seq<Insertion>, second: nat -> seq<Insertion>, registers: bool, stops: bool)
    | StopLoop

  ghost function StepOf(s: State, act: Act): Step {
    match act
    case StartLoop => Start
    case RegisterTimer(cont, now, timeout, level) => Register(now, timeout)
    case KernelTimeout(now, first, second, registers, stops) =>
      Fire(now, FirstPlan(s.queue, now, first), SecondPlan(s.queue, now, first, second), stops)
    case StopLoop => Stop
  }

  ghost function Next(s: State, step: Step): State {
    if Enabled(s, step) then Do(s, step) else s
  }

  /** Keys stay below the sentinel, heights are legal, and handles are numbered in the order
      of registration. */
  ghost predicate Legal(s: State, act: Act, maxKey: int) {
    match act
    case StartLoop => true
    case RegisterTimer(cont, now, timeout, level) =>
      cont == |s.registered| && now + timeout <= maxKey && 1 <= level <= MAX_LEVEL
    case KernelTimeout(now, first, second, registers, stops) =>
      && now < maxKey && (forall c :: LegalInsertions(first(c), maxKey) && LegalInsertions(second(c), maxKey))
      && (s.loop == Armed ==> PlanFits(s.queue, now, first, second, |s.registered|, registers))
    case StopLoop => true
  }

  ghost predicate LegalRun(s: State, acts: seq<Act>, maxKey: int)
    decreases |acts|
  {
    acts == [] || (Legal(s, acts[0], maxKey) && LegalRun(Next(s, StepOf(s, acts[0])), acts[1..], maxKey))
  }

  /** The state machine's steps for a sequence of acts. */
  ghost function StepsOf(s: State, acts: seq<Act>): seq<Step>
    decreases |acts|
  {
    if acts == [] then [] else [StepOf(s, acts[0])] + StepsOf(Next(s, StepOf(s, acts[0])), acts[1..])
  }

  lemma NextInv(s: State, step: Step)
    requires Inv(s)
    ensures Inv(Next(s, step))
  {
    if Enabled(s, step) { StepKeeps(s, step); }
  }

  lemma RunMore(s: State, act: Act, acts: seq<Act>)
    ensures TimerSpec.Run(s, StepsOf(s, [act] + acts)) == TimerSpec.Run(Next(s, StepOf(s, act)), StepsOf(Next(s, StepOf(s, act)), acts))
  {
    var step := StepOf(s, act);
    assert ([act] + acts)[1..] == acts;
    var steps := StepsOf(s, [act] + acts);
    assert steps[0] == step && steps[1..] == StepsOf(Next(s, step), acts);
  }

  /** What a step adds to the resumed timers. */
  ghost function Resumes(s: State, step: Step): seq<Entry> {
    if step.Fire? && Enabled(s, step) then ResumedBy(s.queue, step.now, step.a) else []
  }

  lemma LoopResumesNothing(s: State)
    ensures Outer(s).resumed == s.resumed == Inner(s).resumed
  {
    var t := s.(word := Event.NotSet);
    assert Outer(t).resumed == t.resumed == Inner(t).resumed;
  }

  lemma NextResumes(s: State, step: Step)
    ensures Next(s, step).resumed == s.resumed + Resumes(s, step)
    ensures Values(Next(s, step).resumed) == Values(s.resumed) + Values(Resumes(s, step))
  {
    ValuesJoin(s.resumed, Resumes(s, step));
    match step
    case Start => LoopResumesNothing(s);
    case Register(now, timeout) => LoopResumesNothing(Registered(s, now, timeout).(word := Event.NotSet));
    case Fire(now, a, b, stops) => LoopResumesNothing(Handled(s, now, a, b, stops));
    case Stop =>
  }

  /** One act on the real thing; acts whose time has not come change nothing. */
  method Perform(loop: TimerLoop, act: Act) returns (handles: seq<nat>)
    requires loop.Valid() && Inv(loop.View()) && Legal(loop.View(), act, loop.timer.queue.maxKey)
    modifies loop, loop.timer.queue, Nodes(loop.timer.queue.row)
    ensures loop.Valid() && fresh(Nodes(loop.timer.queue.row) - Nodes(old(loop.timer.queue.row)))
    ensures loop.View() == Next(old(loop.View()), StepOf(old(loop.View()), act))
    ensures Values(loop.resumed) == Values(old(loop.resumed)) + handles
  {
    handles := [];
    NextResumes(loop.View(), StepOf(loop.View(), act));
    match act
    case StartLoop =>
      if loop.loop == NotStarted { loop.InitTimeoutCallback(); }
    case RegisterTimer(cont, now, timeout, level) =>
      loop.RegisterTimeout(cont, now, timeout, level);
    case KernelTimeout(now, first, second, registers, stops) =>
      if loop.loop == Armed {
        ghost var a, b;
        handles, a, b := loop.TimeoutFires(now, first, second, registers, stops);
      }
    case StopLoop =>
      loop.Stop();
  }

  /** Every run of the timer loop on its skip list is a run of the state machine, and the
      handles it resumes, in order, are those of the machine's resumed timers. */
  method Run(acts: seq<Act>, minKey: int, maxKey: int) returns (loop: TimerLoop, handles: seq<nat>)
    requires LegalRun(Init(), acts, maxKey)
    ensures loop.Valid() && loop.View() == TimerSpec.Run(Init(), StepsOf(Init(), acts))
    ensures handles == Values(loop.resumed)
  {
    loop := new TimerLoop(minKey, maxKey);
    handles := [];
    InitInv();
    assert acts[0..] == acts;
    for i := 0 to |acts|
      invariant loop.Valid() && Inv(loop.View()) && loop.timer.queue.maxKey == maxKey
      invariant fresh(loop) && fresh(loop.timer.queue) && fresh(Nodes(loop.timer.queue.row))
      invariant LegalRun(loop.View(), acts[i..], maxKey) && handles == Values(loop.resumed)
      invariant TimerSpec.Run(Init(), StepsOf(Init(), acts)) == TimerSpec.Run(loop.View(), StepsOf(loop.View(), acts[i..]))
    {
      ghost var s := loop.View();
      LegalMore(s, acts, i, maxKey);
      NextInv(s, StepOf(s, acts[i]));
      var more := Perform(loop, acts[i]);
      handles := handles + more;
    }
  }

  lemma InitInv()
    ensures Inv(Init())
  {
  }

  lemma LegalMore(s: State, acts: seq<Act>, i: nat, maxKey: int)
    requires i < |acts| && LegalRun(s, acts[i..], maxKey)
    ensures Legal(s, acts[i], maxKey)
    ensures var t := Next(s, StepOf(s, acts[i]));
      && LegalRun(t, acts[i + 1..], maxKey)
      && TimerSpec.Run(s, StepsOf(s, acts[i..])) == TimerSpec.Run(t, StepsOf(t, acts[i + 1..]))
  {
    assert acts[i..] == [acts[i]] + acts[i + 1..] && acts[i..][1..] == acts[i + 1..];
    RunMore(s, acts[i], acts[i + 1..]);
  }
}
