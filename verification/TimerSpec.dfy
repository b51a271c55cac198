/** The timer loop as a state machine: registrations, kernel timeouts that drain the
    queue, and parking on the auto-reset event when the queue is empty. */
module TimerSpec {
  import opened SkipList
  import opened SkipListRuns
  import Event = AutoResetEvent

  // ---------------------------------------------------------------------------
  // One call of handle_events
  // ---------------------------------------------------------------------------

  ghost function Due(q: seq<Entry>, now: int): seq<Entry> {
    q[..UpTo(q, now)]
  }

  ghost function NotDue(q: seq<Entry>, now: int): seq<Entry> {
    q[UpTo(q, now)..]
  }

  /** The queue after the first drain, whose resumed coroutines registered `a`. */
  ghost function BetweenDrains(q: seq<Entry>, now: int, a: seq<Insertion>): seq<Entry> {
    InsertAll(NotDue(q, now), a)
  }

  /** What is resumed: all that was due, then what became due meanwhile. */
  ghost function ResumedBy(q: seq<Entry>, now: int, a: seq<Insertion>): seq<Entry> {
    Due(q, now) + Due(BetweenDrains(q, now, a), now)
  }

  /** What is left; coroutines resumed by the second drain registered `b`. */
  ghost function LeftBy(q: seq<Entry>, now: int, a: seq<Insertion>, b: seq<Insertion>): seq<Entry> {
    InsertAll(NotDue(BetweenDrains(q, now, a), now), b)
  }

  lemma DueExact(q: seq<Entry>, now: int)
    requires Sorted(q)
    ensures Sorted(Due(q, now)) && Sorted(NotDue(q, now))
    ensures forall e :: e in Due(q, now) ==> e.key <= now
    ensures forall e :: e in NotDue(q, now) ==> e.key > now
    ensures multiset(q) == multiset(Due(q, now)) + multiset(NotDue(q, now))
  {
    SplitCounts(q, UpTo(q, now));
  }

  /** Nothing is lost or doubled, nothing comes early, each drain goes in order, and only
      what the second drain's coroutines registered can be left overdue. */
  lemma HandleEventsExact(q: seq<Entry>, now: int, a: seq<Insertion>, b: seq<Insertion>)
    requires Sorted(q)
    ensures var mid := BetweenDrains(q, now, a);
      && Sorted(Due(q, now)) && Sorted(Due(mid, now)) && Sorted(LeftBy(q, now, a, b))
      && (forall e :: e in ResumedBy(q, now, a) ==> e.key <= now)
      && (forall e :: e in NotDue(mid, now) ==> e.key > now)
      && multiset(LeftBy(q, now, a, b)) == multiset(NotDue(mid, now)) + multiset(EntriesOf(b))
    ensures multiset(LeftBy(q, now, a, b)) + multiset(ResumedBy(q, now, a))
         == multiset(q) + multiset(EntriesOf(a)) + multiset(EntriesOf(b))
  {
    var mid := BetweenDrains(q, now, a);
    DueExact(q, now);
    InsertAllPlace(NotDue(q, now), a);
    DueExact(mid, now);
    InsertAllPlace(NotDue(mid, now), b);
    Add4(multiset(LeftBy(q, now, a, b)), multiset(NotDue(mid, now)), multiset(EntriesOf(b)), multiset(Due(mid, now)),
         multiset(mid), multiset(NotDue(q, now)), multiset(EntriesOf(a)), multiset(Due(q, now)), multiset(q));
    assert multiset(ResumedBy(q, now, a)) == multiset(Due(q, now)) + multiset(Due(mid, now));
  }

  lemma Add4(left: multiset<Entry>, late: multiset<Entry>, b: multiset<Entry>, due2: multiset<Entry>,
             mid: multiset<Entry>, late1: multiset<Entry>, a: multiset<Entry>, due1: multiset<Entry>, q: multiset<Entry>)
    requires left == late + b && mid == due2 + late && mid == late1 + a && q == due1 + late1
    ensures left + (due1 + due2) == q + a + b
  {
    calc {
      left + (due1 + due2);
      (due2 + late) + due1 + b;
      (late1 + a) + due1 + b;
      q + a + b;
    }
  }

  // ---------------------------------------------------------------------------
  // The loop
  // ---------------------------------------------------------------------------

  datatype Loop = NotStarted | Armed | Parked | Ended

  /** `registered` lists every timer with its wakeup point, numbered; `resumed` those whose
      coroutine was resumed, `clocks` what the clock read at that time. */
  datatype State = State(
    loop: Loop,
    queue: seq<Entry>,
    word: Event.Word,
    stopped: bool,
    registered: seq<Entry>,
    resumed: seq<Entry>,
    clocks: seq<int>)

  function Init(): State {
    State(NotStarted, [], Event.NotSet, false, [], [], [])
  }

  /** From the outer loop test: to the next kernel timeout, a wait on the event, or the end.
      A set event left over from a registration is used up without waiting. */
  function Outer(s: State): State
    decreases if s.word == Event.Set then 1 else 0, 1
  {
    if s.stopped then s.(loop := Ended) else Inner(s)
  }

  /** From the inner loop test, which does not look at `stopped_`. */
  function Inner(s: State): State
    decreases if s.word == Event.Set then 1 else 0, 0
  {
    if s.queue != [] then s.(loop := Armed)
    else if s.word == Event.Set then Outer(s.(word := Event.NotSet))
    else s.(loop := Parked, word := Event.Waiter)
  }

  datatype Step =
    | Start
    | Register(now: int, timeout: int)
    | Fire(now: int, a: seq<Insertion>, b: seq<Insertion>, stops: bool)
    | Stop

  /** Coroutines resumed by the timer register timers with the next numbers. */
  ghost predicate Numbered(entries: seq<Entry>, n: nat) {
    forall i :: 0 <= i < |entries| ==> entries[i].value == n + i
  }

  ghost predicate Enabled(s: State, step: Step) {
    match step
    case Start => s.loop == NotStarted
    case Register(now, timeout) => true
    case Fire(now, a, b, stops) => s.loop == Armed && Numbered(EntriesOf(a) + EntriesOf(b), |s.registered|)
    case Stop => true
  }

  /** `timer_event_.set()` on the loop's own thread: a waiting loop goes on at once. */
  function SetEvent(s: State): State {
    if s.word == Event.Waiter then Outer(s.(word := Event.NotSet)) else s.(word := Event.Set)
  }

  ghost function Registered(s: State, now: int, timeout: int): State {
    var e := Entry(now + timeout, |s.registered|);
    s.(queue := Insert(s.queue, e), registered := s.registered + [e])
  }

  function Constant(n: nat, now: int): (r: seq<int>)
    ensures |r| == n && forall i :: 0 <= i < n ==> r[i] == now
  {
    seq(n, _ => now)
  }

  /** `handle_events` with its coroutines' registrations, each of which sets the event. */
  ghost function Handled(s: State, now: int, a: seq<Insertion>, b: seq<Insertion>, stops: bool): State {
    var out := ResumedBy(s.queue, now, a);
    s.(queue := LeftBy(s.queue, now, a, b),
       word := if a == [] && b == [] then s.word else Event.Set,
       stopped := s.stopped || stops,
       registered := s.registered + (EntriesOf(a) + EntriesOf(b)),
       resumed := s.resumed + out,
       clocks := s.clocks + Constant(|out|, now))
  }

  ghost function Do(s: State, step: Step): State
    requires Enabled(s, step)
  {
    match step
    case Start => Outer(s)
    case Register(now, timeout) => SetEvent(Registered(s, now, timeout))
    case Fire(now, a, b, stops) => Inner(Handled(s, now, a, b, stops))
    case Stop => s.(stopped := true)
  }

  /** Queue and history: every timer is in exactly one of them, none was early. */
  ghost predicate Ledger(s: State) {
    && Sorted(s.queue)
    && Numbered(s.registered, 0)
    && multiset(s.queue) + multiset(s.resumed) == multiset(s.registered)
    && |s.clocks| == |s.resumed|
    && forall i :: 0 <= i < |s.resumed| ==> s.resumed[i].key <= s.clocks[i]
  }

  /** Where the loop waits. */
  predicate Waits(s: State) {
    && (s.loop == Armed ==> s.queue != [])
    && (s.loop == Parked <==> s.word == Event.Waiter)
    && (s.loop == Parked ==> s.queue == [])
    && (s.loop == Ended ==> s.stopped)
  }

  ghost predicate Inv(s: State) {
    Ledger(s) && Waits(s)
  }

  lemma LoopWaits(s: State)
    requires s.word != Event.Waiter
    ensures Waits(Outer(s)) && Waits(Inner(s))
    ensures Ledger(s) ==> Ledger(Outer(s)) && Ledger(Inner(s))
    ensures Inner(s).loop == Armed <==> s.queue != []
    ensures !s.stopped ==> Outer(s) == Inner(s)
  {
    var t := s.(word := Event.NotSet);
    assert Waits(Inner(t)) && Waits(Outer(t));
  }

  lemma RegisteredLedger(s: State, now: int, timeout: int)
    requires Ledger(s)
    ensures Ledger(Registered(s, now, timeout)) && Registered(s, now, timeout).queue != []
  {
    var e := Entry(now + timeout, |s.registered|);
    InsertPlace(s.queue, e);
    assert multiset(s.registered + [e]) == multiset(s.registered) + multiset{e};
    assert e in Insert(s.queue, e);
  }

  lemma HandledLedger(s: State, now: int, a: seq<Insertion>, b: seq<Insertion>, stops: bool)
    requires Ledger(s) && Numbered(EntriesOf(a) + EntriesOf(b), |s.registered|)
    ensures Ledger(Handled(s, now, a, b, stops))
  {
    HandleEventsExact(s.queue, now, a, b);
    var left, out := LeftBy(s.queue, now, a, b), ResumedBy(s.queue, now, a);
    HandledCounts(s.queue, left, out, s.resumed, s.registered, EntriesOf(a), EntriesOf(b));
    NoneEarly(s.resumed, s.clocks, out, now);
    NumberedMore(s.registered, EntriesOf(a) + EntriesOf(b));
  }

  lemma HandledCounts(q: seq<Entry>, left: seq<Entry>, out: seq<Entry>, resumed: seq<Entry>, registered: seq<Entry>,
                      a: seq<Entry>, b: seq<Entry>)
    requires multiset(left) + multiset(out) == multiset(q) + multiset(a) + multiset(b)
    requires multiset(q) + multiset(resumed) == multiset(registered)
    ensures multiset(left) + multiset(resumed + out) == multiset(registered + (a + b))
  {
    Add3(multiset(left), multiset(out), multiset(q), multiset(resumed), multiset(registered), multiset(a), multiset(b));
  }

  lemma NoneEarly(resumed: seq<Entry>, clocks: seq<int>, out: seq<Entry>, now: int)
    requires |clocks| == |resumed| && forall i :: 0 <= i < |resumed| ==> resumed[i].key <= clocks[i]
    requires forall e :: e in out ==> e.key <= now
    ensures var r, c := resumed + out, clocks + Constant(|out|, now);
      |c| == |r| && forall i :: 0 <= i < |r| ==> r[i].key <= c[i]
  {
  }

  lemma NumberedMore(s: seq<Entry>, more: seq<Entry>)
    requires Numbered(s, 0) && Numbered(more, |s|)
    ensures Numbered(s + more, 0)
  {
  }

  lemma Add3(queue: multiset<Entry>, out: multiset<Entry>, before: multiset<Entry>, resumed: multiset<Entry>,
             registered: multiset<Entry>, a: multiset<Entry>, b: multiset<Entry>)
    requires queue + out == before + a + b && before + resumed == registered
    ensures queue + (resumed + out) == registered + (a + b)
  {
    calc {
      queue + (resumed + out);
      (queue + out) + resumed;
      (before + resumed) + (a + b);
    }
  }

  lemma StepKeeps(s: State, step: Step)
    requires Inv(s) && Enabled(s, step)
    ensures Inv(Do(s, step))
  {
    match step
    case Start => LoopWaits(s);
    case Register(now, timeout) =>
      RegisteredLedger(s, now, timeout);
      LoopWaits(Registered(s, now, timeout).(word := Event.NotSet));
    case Fire(now, a, b, stops) =>
      HandledLedger(s, now, a, b, stops);
      LoopWaits(Handled(s, now, a, b, stops));
    case Stop =>
  }

  ghost function Run(s: State, steps: seq<Step>): State
    decreases |steps|
  {
    if steps == [] then s
    else Run(if Enabled(s, steps[0]) then Do(s, steps[0]) else s, steps[1..])
  }

  lemma {:induction false} RunKeeps(s: State, steps: seq<Step>)
    requires Inv(s)
    ensures Inv(Run(s, steps))
    decreases |steps|
  {
    if steps != [] {
      if Enabled(s, steps[0]) { StepKeeps(s, steps[0]); }
      RunKeeps(if Enabled(s, steps[0]) then Do(s, steps[0]) else s, steps[1..]);
    }
  }

  /** Timers are numbered, so one that was resumed twice would have been registered twice. */
  lemma {:induction false} NoneTwice(queue: seq<Entry>, resumed: seq<Entry>, registered: seq<Entry>, i: nat, j: nat)
    requires Numbered(registered, 0) && multiset(queue) + multiset(resumed) == multiset(registered)
    requires i < j < |resumed|
    ensures resumed[i].value != resumed[j].value
  {
    var e, f := resumed[i], resumed[j];
    assert e in multiset(registered) && f in multiset(registered);
    assert e in registered && f in registered;
    if e.value == f.value {
      assert e == f;
      Twice(resumed, i, j);
      assert multiset(registered)[e] >= 2;
      OnlyOnce(registered, e);
    }
  }

  lemma Twice(s: seq<Entry>, i: nat, j: nat)
    requires i < j < |s| && s[i] == s[j]
    ensures multiset(s)[s[i]] >= 2
  {
    assert s == s[..j] + s[j..];
    assert s[..j][i] == s[i] && s[j..][0] == s[j];
    assert multiset(s) == multiset(s[..j]) + multiset(s[j..]);
  }

  lemma {:induction false} OnlyOnce(s: seq<Entry>, e: Entry)
    requires Numbered(s, 0)
    ensures multiset(s)[e] <= 1
  {
    if s != [] {
      var front, last := s[..|s| - 1], s[|s| - 1];
      assert s == front + [last];
      OnlyOnce(front, e);
      if e == last { assert e !in front; }
    }
  }

  /** Over every run: each timer is resumed at most once, never while the clock reads
      below its wakeup point; one not resumed is still queued; and the loop is parked
      only with nothing queued. */
  lemma TimersRunOnce(steps: seq<Step>)
    ensures var s := Run(Init(), steps);
      && |s.clocks| == |s.resumed|
      && (forall i :: 0 <= i < |s.resumed| ==> s.resumed[i].key <= s.clocks[i])
      && (forall i, j :: 0 <= i < j < |s.resumed| ==> s.resumed[i].value != s.resumed[j].value)
      && (forall i :: 0 <= i < |s.registered| ==> s.registered[i] in s.resumed || s.registered[i] in s.queue)
      && (s.loop == Parked ==> s.queue == [])
      && (s.loop == Armed ==> s.queue != [])
  {
    RunKeeps(Init(), steps);
    var s := Run(Init(), steps);
    forall i, j | 0 <= i < j < |s.resumed| ensures s.resumed[i].value != s.resumed[j].value {
      NoneTwice(s.queue, s.resumed, s.registered, i, j);
    }
    forall i | 0 <= i < |s.registered| ensures s.registered[i] in s.resumed || s.registered[i] in s.queue {
      assert s.registered[i] in multiset(s.registered);
      assert s.registered[i] in multiset(s.queue) + multiset(s.resumed);
    }
  }

  // ---------------------------------------------------------------------------
  // Where the loop goes
  // ---------------------------------------------------------------------------

  /** A start waits for the kernel while timers are queued and for the event while none is,
      unless the context was stopped. */
  lemma StartOutcome(steps: seq<Step>)
    requires Run(Init(), steps).loop == NotStarted
    ensures var s := Run(Init(), steps);
      Do(s, Start).loop == if s.stopped then Ended else if s.queue != [] then Armed else Parked
  {
    RunKeeps(Init(), steps);
    LoopOutcome(Run(Init(), steps));
  }

  /** A registration queues its wakeup point. A parked loop is woken, to end if it was
      stopped; any other stays where it is and finds the event set later. */
  lemma RegisterOutcome(steps: seq<Step>, now: int, timeout: int)
    ensures var s := Run(Init(), steps); var t := Do(s, Register(now, timeout)); var e := Entry(now + timeout, |s.registered|);
      && t.registered == s.registered + [e] && multiset(t.queue) == multiset(s.queue) + multiset{e}
      && t.resumed == s.resumed && t.stopped == s.stopped
      && (s.loop == Parked ==> t.loop == (if s.stopped then Ended else Armed) && t.word == Event.NotSet)
      && (s.loop != Parked ==> t.loop == s.loop && t.word == Event.Set)
  {
    RunKeeps(Init(), steps);
    var s := Run(Init(), steps);
    InsertPlace(s.queue, Entry(now + timeout, |s.registered|));
    RegisteredLedger(s, now, timeout);
    LoopOutcome(Registered(s, now, timeout).(word := Event.NotSet));
  }

  /** After a timeout the loop waits for the kernel again exactly if timers are left. With
      none left it ends if it was stopped and the event was set, by a coroutine it resumed or
      before; otherwise it parks. */
  lemma FireOutcome(steps: seq<Step>, now: int, a: seq<Insertion>, b: seq<Insertion>, stops: bool)
    requires Enabled(Run(Init(), steps), Fire(now, a, b, stops))
    ensures var s := Run(Init(), steps); var t := Do(s, Fire(now, a, b, stops));
      && t.stopped == (s.stopped || stops)
      && (t.loop == Armed <==> t.queue != [])
      && (t.queue == [] ==> (t.loop == Ended <==> t.stopped && (a != [] || b != [] || s.word == Event.Set)))
      && (t.loop == Armed || t.loop == Ended || t.loop == Parked)
  {
    RunKeeps(Init(), steps);
    var s := Run(Init(), steps);
    LoopOutcome(Handled(s, now, a, b, stops));
  }

  lemma UnsetOutcome(s: State)
    requires s.word == Event.NotSet
    ensures Inner(s) == if s.queue != [] then s.(loop := Armed) else s.(loop := Parked, word := Event.Waiter)
    ensures Outer(s) == if s.stopped then s.(loop := Ended) else Inner(s)
  {
  }

  lemma LoopOutcome(s: State)
    requires s.word != Event.Waiter
    ensures Outer(s).loop == if s.stopped then Ended else if s.queue != [] then Armed else Parked
    ensures Inner(s).loop == if s.queue != [] then Armed else if s.word == Event.Set && s.stopped then Ended else Parked
    ensures s.queue != [] || s.stopped ==> Outer(s).word == s.word
    ensures Outer(s).queue == s.queue == Inner(s).queue && Outer(s).stopped == s.stopped == Inner(s).stopped
    ensures Outer(s).registered == s.registered == Inner(s).registered && Outer(s).resumed == s.resumed == Inner(s).resumed
  {
    UnsetOutcome(s.(word := Event.NotSet));
    if s.word == Event.NotSet { UnsetOutcome(s); }
  }

  predicate Stops(step: Step) {
    step == Stop || (step.Fire? && step.stops)
  }

  /** Only a stop stops, and it is not taken back; a started loop stays started. */
  lemma {:induction false} StoppedByStop(s: State, steps: seq<Step>)
    requires Inv(s)
    ensures (forall i :: 0 <= i < |steps| ==> !Stops(steps[i])) ==> Run(s, steps).stopped == s.stopped
    ensures s.stopped || Stop in steps ==> Run(s, steps).stopped
    ensures s.loop != NotStarted || Start in steps ==> Run(s, steps).loop != NotStarted
    decreases |steps|
  {
    if steps != [] {
      var step := steps[0];
      var t := if Enabled(s, step) then Do(s, step) else s;
      StepStops(s, step);
      if Enabled(s, step) { StepKeeps(s, step); }
      StoppedByStop(t, steps[1..]);
      assert forall i :: 0 <= i < |steps| - 1 ==> steps[1..][i] == steps[i + 1];
      assert steps == [step] + steps[1..];
    }
  }

  lemma StepStops(s: State, step: Step)
    requires Inv(s)
    ensures var t := if Enabled(s, step) then Do(s, step) else s;
      && (!Stops(step) ==> t.stopped == s.stopped) && (s.stopped || step == Stop ==> t.stopped)
      && (s.loop != NotStarted || step == Start ==> t.loop != NotStarted)
  {
    if Enabled(s, step) {
      match step
      case Start => LoopOutcome(s);
      case Register(now, timeout) => LoopOutcome(Registered(s, now, timeout).(word := Event.NotSet));
      case Fire(now, a, b, stops) => LoopOutcome(Handled(s, now, a, b, stops));
      case Stop =>
    }
  }

  /** No timer is stranded: in every run in which the loop was started and nobody stopped it,
      it waits for the kernel exactly while timers are queued, and for the event otherwise. */
  lemma NotStranded(steps: seq<Step>)
    requires Start in steps && forall i :: 0 <= i < |steps| ==> !Stops(steps[i])
    ensures var s := Run(Init(), steps);
      (s.loop == Armed <==> s.queue != []) && (s.loop == Parked <==> s.queue == [])
  {
    RunKeeps(Init(), steps);
    StoppedByStop(Init(), steps);
  }

  /** The loop ends only after a stop. */
  lemma EndsOnlyWhenStopped(steps: seq<Step>)
    ensures Run(Init(), steps).loop == Ended ==> Run(Init(), steps).stopped
    ensures Run(Init(), steps).loop == Ended ==> exists i :: 0 <= i < |steps| && Stops(steps[i])
  {
    RunKeeps(Init(), steps);
    StoppedByStop(Init(), steps);
  }

  /** A timer registered while the loop is parked arms the loop, unless it was stopped. */
  lemma ParkedIsWoken(steps: seq<Step>, now: int, timeout: int)
    requires var s := Run(Init(), steps); s.loop == Parked && !s.stopped
    ensures Do(Run(Init(), steps), Register(now, timeout)).loop == Armed
  {
    RunKeeps(Init(), steps);
    var s := Run(Init(), steps);
    RegisteredLedger(s, now, timeout);
    LoopWaits(Registered(s, now, timeout).(word := Event.NotSet));
  }

  lemma AllDue(q: seq<Entry>, now: int)
    requires forall i :: 0 <= i < |q| ==> q[i].key <= now
    ensures ResumedBy(q, now, []) == q && LeftBy(q, now, [], []) == []
  {
    assert UpTo(q, now) == |q|;
    assert BetweenDrains(q, now, []) == [];
  }

  /** A kernel timeout that finds everything due, with no new registrations, empties the
      queue and parks or ends the loop. */
  lemma AllDueResumed(steps: seq<Step>, now: int, stops: bool)
    requires var s := Run(Init(), steps); s.loop == Armed && forall i :: 0 <= i < |s.queue| ==> s.queue[i].key <= now
    ensures var s := Run(Init(), steps);
      && Enabled(s, Fire(now, [], [], stops))
      && var t := Do(s, Fire(now, [], [], stops));
         t.queue == [] && t.resumed == s.resumed + s.queue && (t.loop == Parked || t.loop == Ended)
  {
    var s := Run(Init(), steps);
    RunKeeps(Init(), steps);
    AllDue(s.queue, now);
    EmptiedParks(Handled(s, now, [], [], stops));
  }

  /** Whenever a kernel timeout fires, everything queued that is due, and everything the
      first drain's coroutines register that is due, has been resumed afterwards. */
  lemma DueIsResumed(steps: seq<Step>, now: int, a: seq<Insertion>, b: seq<Insertion>, stops: bool, e: Entry)
    requires Enabled(Run(Init(), steps), Fire(now, a, b, stops))
    requires (e in Run(Init(), steps).queue || e in EntriesOf(a)) && e.key <= now
    ensures e in Do(Run(Init(), steps), Fire(now, a, b, stops)).resumed
  {
    RunKeeps(Init(), steps);
    var s := Run(Init(), steps);
    DueIsTaken(s.queue, now, a, e);
    InnerKeepsResumed(Handled(s, now, a, b, stops));
  }

  lemma InnerKeepsResumed(s: State)
    ensures Inner(s).resumed == s.resumed
  {
    assert s.word == Event.Set ==> Outer(s.(word := Event.NotSet)).resumed == s.resumed;
  }

  lemma DueIsTaken(q: seq<Entry>, now: int, a: seq<Insertion>, e: Entry)
    requires Sorted(q) && (e in q || e in EntriesOf(a)) && e.key <= now
    ensures e in ResumedBy(q, now, a)
  {
    var mid := BetweenDrains(q, now, a);
    DueExact(q, now);
    InsertAllPlace(NotDue(q, now), a);
    DueExact(mid, now);
    if e in q {
      assert e in multiset(q);
      assert e in Due(q, now);
    } else {
      assert e in multiset(EntriesOf(a));
      assert e in multiset(mid);
      assert e in Due(mid, now);
    }
  }

  lemma EmptiedParks(s: State)
    requires s.queue == []
    ensures var t := Inner(s);
      t.queue == [] && t.resumed == s.resumed && (t.loop == Parked || t.loop == Ended)
  {
    assert s.word == Event.Set ==> Outer(s.(word := Event.NotSet)).queue == [];
  }
}
