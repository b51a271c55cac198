/** The logging pipeline: any number of threads, each with its own ring, and one
    background thread that drains the rings, formats, and writes to a file. Rings
    appear as the queues they refine (`RingProtocol.StepIsQueueStep`); each push, each ring
    drain and each formatted entry is one step, in any interleaving. */
module AsyncLogger {
  datatype Entry = Entry(thread: nat, text: string)

  /** Where the background thread is; `last` marks the poll after the loop. */
  datatype Pc =
    | AtLoop
    | PollStart(last: bool)
    | Scanning(last: bool, size: nat, i: nat, empty: bool)
    | CheckWork(last: bool)
    | Formatting(last: bool)
    | Appended(last: bool)
    | Waiting
    | Finished

  datatype State = State(
    order: seq<nat>,                 // log_rings_, by owning thread
    rings: map<nat, seq<Entry>>,
    backlog: seq<Entry>,
    buffer: seq<Entry>,              // writing_buffer_
    file: seq<Entry>,
    signal: bool,
    force: bool,
    pc: Pc,
    stopping: bool,
    history: seq<Entry>,             // completed appends
    mark: nat)                       // |history| when stop was requested

  datatype Action =
    | Register(thread: nat)
    | Push(entry: Entry)
    | RequestStop
    | ForceOnStop
    | Background

  /** k_max_buffer - suggested_single_log_max_len, in characters */
  const FLUSH_AT: nat := 1000 * 4000 - 500

  function Size(es: seq<Entry>): nat {
    if es == [] then 0 else Size(es[..|es| - 1]) + |es[|es| - 1].text|
  }

  predicate Enabled(s: State, a: Action) {
    match a
    case Register(t) => t !in s.rings
    case Push(e) => e.thread in s.rings
    case RequestStop => !s.stopping
    case ForceOnStop => s.stopping
    case Background =>
      && !s.pc.Finished?
      && (s.pc.Scanning? ==> s.pc.size <= |s.order| && (s.pc.i < s.pc.size ==> s.order[s.pc.i] in s.rings))
  }

  function BackgroundStep(s: State): State
    requires Enabled(s, Background)
  {
    match s.pc
    case AtLoop =>
      if s.stopping then s.(force := true, pc := PollStart(true)) else s.(pc := PollStart(false))
    case PollStart(last) => s.(backlog := [], pc := Scanning(last, |s.order|, 0, true))
    case Scanning(last, size, i, empty) =>
      if i < size then
        var t := s.order[i];
        s.(backlog := s.backlog + s.rings[t], rings := s.rings[t := []],
           pc := Scanning(last, size, i + 1, empty && s.rings[t] == []))
      else if empty || s.signal || s.force then s.(signal := false, pc := CheckWork(last))
      else if s.stopping then s.(pc := CheckWork(last))
      else s.(pc := Scanning(last, size, 0, true))
    case CheckWork(last) =>
      if s.backlog == [] && s.buffer == [] then s.(pc := if last then Finished else Waiting)
      else s.(pc := Formatting(last))
    case Formatting(last) =>
      if s.backlog != [] then s.(buffer := s.buffer + [s.backlog[0]], backlog := s.backlog[1..])
      else if s.force || Size(s.buffer) >= FLUSH_AT then s.(file := s.file + s.buffer, pc := Appended(last))
      else s.(pc := if last then Finished else Waiting)
    case Appended(last) =>
      s.(force := false, buffer := [], pc := if last then Finished else Waiting)
    case Waiting => s.(force := true, pc := AtLoop)
  }

  function Step(s: State, a: Action): State
    requires Enabled(s, a)
  {
    match a
    case Register(t) => s.(order := s.order + [t], rings := s.rings[t := []], signal := true)
    case Push(e) => s.(rings := s.rings[e.thread := s.rings[e.thread] + [e]], history := s.history + [e])
    case RequestStop => s.(stopping := true, mark := |s.history|)
    case ForceOnStop => s.(force := true)
    case Background => BackgroundStep(s)
  }

  /** A logger that has been started, nothing registered yet. */
  function Start(signal: bool): State {
    State([], map[], [], [], [], signal, false, AtLoop, false, [], 0)
  }

  /** A run: actions that are not enabled are skipped, so every sequence is one. */
  function Run(s: State, actions: seq<Action>): State
    decreases |actions|
  {
    if actions == [] then s
    else Run(if Enabled(s, actions[0]) then Step(s, actions[0]) else s, actions[1..])
  }

  /** The entries of one thread, in order. */
  function Of(es: seq<Entry>, t: nat): seq<Entry> {
    if es == [] then []
    else Of(es[..|es| - 1], t) + (if es[|es| - 1].thread == t then [es[|es| - 1]] else [])
  }

  /** What has left the rings: the file, then what is buffered, then the backlog. */
  ghost function Collected(s: State): seq<Entry> {
    s.file + (if s.pc.Appended? then [] else s.buffer) + s.backlog
  }

  ghost function InRing(s: State, t: nat): seq<Entry> {
    if t in s.rings then s.rings[t] else []
  }

  /** Nothing of a thread is lost, duplicated or reordered on the way to the file. */
  ghost predicate Conserved(s: State, t: nat) {
    Of(Collected(s), t) + InRing(s, t) == Of(s.history, t)
  }

  /** What a thread appended before the stop request has left its ring. */
  ghost predicate Drained(s: State, t: nat) {
    s.mark <= |s.history| && |Of(s.history[..s.mark], t)| <= |Of(Collected(s), t)|
  }

  ghost predicate Pure(es: seq<Entry>, t: nat) {
    forall j :: 0 <= j < |es| ==> es[j].thread == t
  }

  ghost predicate Rings(s: State) {
    && (forall t :: t in s.rings ==> t in s.order && Pure(s.rings[t], t))
    && (forall j :: 0 <= j < |s.order| ==> s.order[j] in s.rings)
    && (forall j :: 0 <= j < |s.history| ==> s.history[j].thread in s.rings)
    && s.mark <= |s.history|
    && (s.pc.Scanning? ==> s.pc.i <= s.pc.size <= |s.order|)
  }

  ghost predicate EmptyWhenDue(s: State) {
    && (s.pc.AtLoop? || s.pc.PollStart? || s.pc.Appended? || s.pc.Waiting? || s.pc.Finished? ==> s.backlog == [])
    && (s.pc.Finished? ==> s.buffer == [])
  }

  ghost predicate InLastPoll(s: State) {
    s.pc.Finished? || (!s.pc.AtLoop? && !s.pc.Waiting? && s.pc.last)
  }

  /** From the start of the last poll on: forced flush, and the rings already
      visited hold nothing from before the stop request. */
  ghost predicate LastPoll(s: State)
    requires Rings(s)
  {
    InLastPoll(s) ==>
      && s.stopping
      && (s.pc.Finished? || s.pc.Appended? || s.force)
      && (s.pc.Scanning? ==>
            && (forall j :: s.pc.size <= j < |s.order| ==> Of(s.history[..s.mark], s.order[j]) == [])
            && (forall j :: 0 <= j < s.pc.i ==> Drained(s, s.order[j])))
      && (!s.pc.PollStart? && !s.pc.Scanning? ==> forall j :: 0 <= j < |s.order| ==> Drained(s, s.order[j]))
  }

  ghost predicate Inv(s: State) {
    && Rings(s) && EmptyWhenDue(s) && LastPoll(s)
    && (forall t :: Conserved(s, t))
  }

  // ---------------------------------------------------------------------------
  // Filtering
  // ---------------------------------------------------------------------------

  lemma {:induction false} OfConcat(a: seq<Entry>, b: seq<Entry>, t: nat)
    ensures Of(a + b, t) == Of(a, t) + Of(b, t)
    decreases |b|
  {
    if b == [] {
      assert a + b == a;
    } else {
      OfConcat(a, b[..|b| - 1], t);
      assert (a + b)[..|a + b| - 1] == a + b[..|b| - 1];
    }
  }

  lemma {:induction false} OfPure(es: seq<Entry>, t: nat, u: nat)
    requires Pure(es, t)
    ensures Of(es, u) == if u == t then es else []
  {
    if es != [] {
      OfPure(es[..|es| - 1], t, u);
      assert es == es[..|es| - 1] + [es[|es| - 1]];
    }
  }

  lemma {:induction false} OfAbsent(es: seq<Entry>, t: nat)
    requires forall j :: 0 <= j < |es| ==> es[j].thread != t
    ensures Of(es, t) == []
  {
    if es != [] { OfAbsent(es[..|es| - 1], t); }
  }

  lemma OfPrefix(es: seq<Entry>, n: nat, t: nat)
    requires n <= |es|
    ensures Of(es[..n], t) <= Of(es, t)
  {
    assert es == es[..n] + es[n..];
    OfConcat(es[..n], es[n..], t);
  }

  // ---------------------------------------------------------------------------
  // Every step keeps the invariant
  // ---------------------------------------------------------------------------

  lemma Grown(s: State, s': State, more: seq<Entry>, t: nat)
    requires Collected(s') == Collected(s) + more && s'.mark == s.mark <= |s.history|
    requires s'.history == s.history && Drained(s, t)
    ensures Drained(s', t)
  {
    OfConcat(Collected(s), more, t);
  }

  /** A step that moves entries inside the background thread, or none at all. */
  lemma LocalStepKeeps(s: State, s': State)
    requires Inv(s) && EmptyWhenDue(s') && (s'.pc.Scanning? ==> s'.pc.i <= s'.pc.size <= |s.order|)
    requires Collected(s') == Collected(s) && s'.rings == s.rings && s'.order == s.order
    requires s'.history == s.history && s'.mark == s.mark && s'.stopping == s.stopping
    requires InLastPoll(s) ==> (s'.pc.Finished? || s'.pc.Appended? || s'.force)
    requires InLastPoll(s') ==> InLastPoll(s) && !s'.pc.PollStart?
    requires InLastPoll(s') && s'.pc.Scanning? ==> s'.pc.i == 0 && s.pc.PollStart? && s'.pc.size == |s.order|
    requires InLastPoll(s') && !s'.pc.Scanning? ==>
      !s.pc.PollStart? && (s.pc.Scanning? ==> s.pc.i == s.pc.size)
    ensures Inv(s')
  {
    forall t ensures Conserved(s', t) { assert Conserved(s, t); }
    if InLastPoll(s') && !s'.pc.Scanning? {
      forall j | 0 <= j < |s'.order| ensures Drained(s', s'.order[j]) {
        if s.pc.Scanning? && j >= s.pc.size { assert Of(s.history[..s.mark], s.order[j]) == []; }
        else { assert Drained(s, s.order[j]); }
      }
    }
  }

  /** Emptying the ring of `t` behind what was collected conserves every thread's entries. */
  lemma RingMoves(s: State, s': State, t: nat, u: nat)
    requires t in s.rings && Pure(s.rings[t], t) && Conserved(s, u)
    requires Collected(s') == Collected(s) + s.rings[t] && s'.rings == s.rings[t := []] && s'.history == s.history
    ensures Conserved(s', u)
  {
    OfConcat(Collected(s), s.rings[t], u);
    OfPure(s.rings[t], t, u);
  }

  /** A thread whose ring is empty has been collected. */
  lemma EmptyRingDrained(s: State, t: nat)
    requires Conserved(s, t) && InRing(s, t) == [] && s.mark <= |s.history|
    ensures Drained(s, t)
  {
    OfPrefix(s.history, s.mark, t);
  }

  lemma DrainRingKeeps(s: State)
    requires Inv(s) && s.pc.Scanning? && s.pc.i < s.pc.size
    ensures Enabled(s, Background) && Inv(BackgroundStep(s))
  {
    var s', t := BackgroundStep(s), s.order[s.pc.i];
    assert Collected(s') == Collected(s) + s.rings[t];
    forall u ensures Conserved(s', u) {
      assert Conserved(s, u);
      RingMoves(s, s', t, u);
    }
    if InLastPoll(s) {
      forall j | 0 <= j < s'.pc.i ensures Drained(s', s'.order[j]) {
        if j < s.pc.i { Grown(s, s', s.rings[t], s.order[j]); } else { EmptyRingDrained(s', t); }
      }
    }
  }

  /** Formatting and writing only move entries along. */
  lemma CollectedStays(s: State)
    requires EmptyWhenDue(s) && Enabled(s, Background) && !(s.pc.Scanning? && s.pc.i < s.pc.size)
    ensures Collected(BackgroundStep(s)) == Collected(s)
  {
    if s.pc.Formatting? && s.backlog != [] {
      assert s.backlog == [s.backlog[0]] + s.backlog[1..];
    }
  }

  lemma FormattingKeeps(s: State)
    requires Inv(s) && s.pc.Formatting?
    ensures Inv(BackgroundStep(s))
  {
    CollectedStays(s);
    LocalStepKeeps(s, BackgroundStep(s));
  }

  lemma CheckWorkKeeps(s: State)
    requires Inv(s) && (s.pc.CheckWork? || s.pc.Appended?)
    ensures Inv(BackgroundStep(s))
  {
    CollectedStays(s);
    LocalStepKeeps(s, BackgroundStep(s));
  }

  lemma LoopKeeps(s: State)
    requires Inv(s) && (s.pc.AtLoop? || s.pc.Waiting?)
    ensures Inv(BackgroundStep(s))
  {
    var s' := BackgroundStep(s);
    forall t ensures Conserved(s', t) { assert Conserved(s, t); }
  }

  lemma ScanKeeps(s: State)
    requires Inv(s) && (s.pc.PollStart? || (s.pc.Scanning? && s.pc.i == s.pc.size))
    ensures Inv(BackgroundStep(s))
  {
    CollectedStays(s);
    LocalStepKeeps(s, BackgroundStep(s));
  }

  lemma BackgroundKeeps(s: State)
    requires Inv(s) && Enabled(s, Background)
    ensures Inv(BackgroundStep(s))
  {
    if s.pc.Scanning? && s.pc.i < s.pc.size { DrainRingKeeps(s); }
    else if s.pc.Scanning? || s.pc.PollStart? { ScanKeeps(s); }
    else if s.pc.AtLoop? || s.pc.Waiting? { LoopKeeps(s); }
    else if s.pc.Formatting? { FormattingKeeps(s); }
    else { CheckWorkKeeps(s); }
  }

  lemma PushKeeps(s: State, e: Entry)
    requires Inv(s) && e.thread in s.rings
    ensures Inv(Step(s, Push(e)))
  {
    var s' := Step(s, Push(e));
    assert s'.history[..|s'.history| - 1] == s.history;
    assert s'.history[..s.mark] == s.history[..s.mark];
    assert Collected(s') == Collected(s);
    forall t ensures Conserved(s', t) {
      assert Conserved(s, t);
    }
    if InLastPoll(s) {
      forall j | 0 <= j < |s.order| && Drained(s, s.order[j]) ensures Drained(s', s'.order[j]) {}
    }
  }

  lemma RegisterKeeps(s: State, t: nat)
    requires Inv(s) && t !in s.rings
    ensures Inv(Step(s, Register(t)))
  {
    var s' := Step(s, Register(t));
    assert Collected(s') == Collected(s);
    forall u ensures Conserved(s', u) { assert Conserved(s, u); }
    OfAbsent(s.history[..s.mark], t);
    if InLastPoll(s) {
      forall j | 0 <= j < |s'.order| && (j == |s.order| || Drained(s, s.order[j])) ensures Drained(s', s'.order[j]) {}
    }
  }

  lemma StopKeeps(s: State, a: Action)
    requires Inv(s) && Enabled(s, a) && (a.RequestStop? || a.ForceOnStop?)
    ensures Inv(Step(s, a))
  {
    var s' := Step(s, a);
    forall t ensures Conserved(s', t) { assert Conserved(s, t); }
    if InLastPoll(s) {
      forall j | 0 <= j < |s.order| && Drained(s, s.order[j]) ensures Drained(s', s'.order[j]) {}
    }
  }

  lemma StepKeeps(s: State, a: Action)
    requires Inv(s) && Enabled(s, a)
    ensures Inv(Step(s, a))
  {
    match a
    case Register(t) => RegisterKeeps(s, t);
    case Push(e) => PushKeeps(s, e);
    case RequestStop => StopKeeps(s, a);
    case ForceOnStop => StopKeeps(s, a);
    case Background => BackgroundKeeps(s);
  }

  lemma StartInv(signal: bool)
    ensures Inv(Start(signal))
  {
    forall t ensures Conserved(Start(signal), t) {}
  }

  lemma {:induction false} RunKeeps(s: State, actions: seq<Action>)
    requires Inv(s)
    ensures Inv(Run(s, actions))
    decreases |actions|
  {
    if actions != [] {
      var a := actions[0];
      if Enabled(s, a) { StepKeeps(s, a); }
      RunKeeps(if Enabled(s, a) then Step(s, a) else s, actions[1..]);
    }
  }

  /** In every reachable state, for every thread: file, then buffer, then backlog,
      then ring is exactly what that thread appended, in order. */
  lemma NothingLost(signal: bool, actions: seq<Action>, t: nat)
    ensures var s := Run(Start(signal), actions);
      && Of(s.history, t) ==
         Of(s.file, t) + (if s.pc.Appended? then [] else Of(s.buffer, t)) + Of(s.backlog, t) + InRing(s, t)
  {
    StartInv(signal);
    RunKeeps(Start(signal), actions);
    ConservedParts(Run(Start(signal), actions), t);
  }

  lemma ConservedParts(s: State, t: nat)
    requires Inv(s)
    ensures Of(s.history, t) ==
      Of(s.file, t) + (if s.pc.Appended? then [] else Of(s.buffer, t)) + Of(s.backlog, t) + InRing(s, t)
  {
    assert Conserved(s, t);
    var b := if s.pc.Appended? then [] else s.buffer;
    OfConcat(s.file, b, t);
    OfConcat(s.file + b, s.backlog, t);
  }

  /** Once the background thread has finished (so `stop` can return), the file holds
      each thread's entries in order, once each, and none that was appended before
      the stop request is missing. */
  lemma StopFlushes(signal: bool, actions: seq<Action>, t: nat)
    requires Run(Start(signal), actions).pc.Finished?
    ensures var s := Run(Start(signal), actions);
      && s.mark <= |s.history|
      && Of(s.history[..s.mark], t) <= Of(s.file, t) <= Of(s.history, t)
  {
    StartInv(signal);
    RunKeeps(Start(signal), actions);
    FinishedHoldsAll(Run(Start(signal), actions), t);
  }

  lemma FinishedHoldsAll(s: State, t: nat)
    requires Inv(s) && s.pc.Finished?
    ensures s.mark <= |s.history| && Of(s.history[..s.mark], t) <= Of(s.file, t) <= Of(s.history, t)
  {
    FileIsPrefix(s, t);
    if t in s.rings {
      RegisteredIsHeld(s, t);
    } else {
      OfAbsent(s.history[..s.mark], t);
    }
  }

  lemma FileIsPrefix(s: State, t: nat)
    requires Inv(s)
    ensures Of(s.file, t) <= Of(s.history, t)
  {
    ConservedParts(s, t);
  }

  lemma RegisteredIsHeld(s: State, t: nat)
    requires Inv(s) && s.pc.Finished? && t in s.rings
    ensures Of(s.history[..s.mark], t) <= Of(s.file, t)
  {
    assert Collected(s) == s.file;
    var j :| 0 <= j < |s.order| && s.order[j] == t;
    assert Drained(s, s.order[j]);
    FileIsPrefix(s, t);
    OfPrefix(s.history, s.mark, t);
    ShorterPrefix(Of(s.history[..s.mark], t), Of(s.file, t), Of(s.history, t));
  }

  lemma ShorterPrefix(a: seq<Entry>, b: seq<Entry>, c: seq<Entry>)
    requires a <= c && b <= c && |a| <= |b|
    ensures a <= b
  {
  }

  // ---------------------------------------------------------------------------
  // The background thread ends
  // ---------------------------------------------------------------------------

  /** How many stations are ahead once a stop has been requested. */
  function Stations(pc: Pc): nat {
    match pc
    case Finished => 0
    case AtLoop => 6
    case Waiting => 7
    case Appended(last) => if last then 1 else 8
    case Formatting(last) => if last then 2 else 9
    case CheckWork(last) => if last then 3 else 10
    case Scanning(last, _, _, _) => if last then 4 else 11
    case PollStart(last) => if last then 5 else 12
  }

  /** Work left at the present station. */
  function Pending(s: State): int {
    match s.pc
    case Scanning(_, size, i, _) => size - i
    case Formatting(_) => |s.backlog|
    case _ => 0
  }

  lemma BackgroundAdvances(s: State)
    requires Inv(s) && s.stopping && !s.pc.Finished?
    ensures Enabled(s, Background)
    ensures BackgroundStep(s).stopping && Nearer(BackgroundStep(s), s)
  {
  }

  /** No other thread's step gives the background thread more to do before its next
      station; and none takes the stop request back. */
  lemma OthersDoNotDelay(s: State, a: Action)
    requires s.stopping && Enabled(s, a) && a != Background
    ensures var t := Step(s, a);
      t.stopping && t.pc == s.pc && Stations(t.pc) == Stations(s.pc) && Pending(t) == Pending(s)
  {
  }

  /** An endless schedule, and what it has done after `n` actions from position `k`. */
  type Schedule = nat -> Action

  function Next(s: State, a: Action): State {
    if Enabled(s, a) then Step(s, a) else s
  }

  function RunFor(s: State, schedule: Schedule, k: nat, n: nat): State
    decreases n
  {
    if n == 0 then s else RunFor(Next(s, schedule(k)), schedule, k + 1, n - 1)
  }

  ghost predicate ScheduledFrom(schedule: Schedule, k: nat) {
    exists m :: m >= k && schedule(m) == Background
  }

  /** The background thread is scheduled again and again. */
  ghost predicate Fair(schedule: Schedule) {
    forall k: nat :: ScheduledFrom(schedule, k)
  }

  /** Fewer stations ahead, or the same and less to do here. */
  predicate Nearer(t: State, s: State) {
    Stations(t.pc) < Stations(s.pc) || (Stations(t.pc) == Stations(s.pc) && 0 <= Pending(t) < Pending(s))
  }

  lemma TowardsTheEnd(s: State, a: Action)
    requires Inv(s) && s.stopping && !s.pc.Finished?
    ensures var t := Next(s, a);
      Inv(t) && t.stopping
      && if a == Background then Nearer(t, s) else Stations(t.pc) == Stations(s.pc) && Pending(t) == Pending(s)
  {
    if a == Background {
      BackgroundAdvances(s);
      BackgroundKeeps(s);
    } else if Enabled(s, a) {
      StepKeeps(s, a);
      OthersDoNotDelay(s, a);
    }
  }

  lemma {:induction false} StopEnds(s: State, schedule: Schedule, k: nat, m: nat) returns (n: nat)
    requires Inv(s) && s.stopping && Fair(schedule) && m >= k && schedule(m) == Background
    ensures RunFor(s, schedule, k, n).pc.Finished?
    decreases Stations(s.pc), Pending(s), m - k
  {
    if s.pc.Finished? {
      n := 0;
    } else {
      TowardsTheEnd(s, schedule(k));
      var m' := m;
      if schedule(k) == Background {
        assert ScheduledFrom(schedule, k + 1);
        m' :| m' >= k + 1 && schedule(m') == Background;
      }
      var r := StopEnds(Next(s, schedule(k)), schedule, k + 1, m');
      n := r + 1;
    }
  }

  /** From every reachable state in which a stop was requested, on every fair schedule, with
      any pushes, registrations and repeated stops in between, the background thread
      finishes, so `stop` returns. */
  lemma StopReturns(signal: bool, actions: seq<Action>, schedule: Schedule) returns (n: nat)
    requires Run(Start(signal), actions).stopping && Fair(schedule)
    ensures RunFor(Run(Start(signal), actions), schedule, 0, n).pc.Finished?
  {
    StartInv(signal);
    RunKeeps(Start(signal), actions);
    assert ScheduledFrom(schedule, 0);
    var m :| m >= 0 && schedule(m) == Background;
    n := StopEnds(Run(Start(signal), actions), schedule, 0, m);
  }

  /** The first `n` actions of a schedule from position `k`. */
  function Taken(schedule: Schedule, k: nat, n: nat): seq<Action>
    decreases n
  {
    if n == 0 then [] else [schedule(k)] + Taken(schedule, k + 1, n - 1)
  }

  /** Following a schedule is a run. */
  lemma {:induction false} RunForIsRun(s: State, schedule: Schedule, k: nat, n: nat)
    ensures RunFor(s, schedule, k, n) == Run(s, Taken(schedule, k, n))
    decreases n
  {
    if n > 0 {
      assert Taken(schedule, k, n)[1..] == Taken(schedule, k + 1, n - 1);
      RunForIsRun(Next(s, schedule(k)), schedule, k + 1, n - 1);
    }
  }

  lemma {:induction false} RunTwice(s: State, a: seq<Action>, b: seq<Action>)
    ensures Run(s, a + b) == Run(Run(s, a), b)
    decreases |a|
  {
    if a == [] {
      assert a + b == b;
    } else {
      assert (a + b)[1..] == a[1..] + b;
      RunTwice(Next(s, a[0]), a[1..], b);
    }
  }

  /** Nothing changes which appends came before the stop request, once it is made. */
  lemma {:induction false} MarkStays(s: State, actions: seq<Action>)
    requires s.stopping && s.mark <= |s.history|
    ensures var t := Run(s, actions); t.stopping && t.mark == s.mark <= |t.history| && t.history[..t.mark] == s.history[..s.mark]
    decreases |actions|
  {
    if actions != [] {
      var t := Next(s, actions[0]);
      assert t.stopping && t.mark == s.mark && s.history <= t.history;
      MarkStays(t, actions[1..]);
    }
  }

  /** The promise of `stop`: from every reachable state in which it was requested, on every
      fair schedule, the background thread finishes with each thread's entries from before
      the request in the file, in order and once. */
  lemma StopDelivers(signal: bool, actions: seq<Action>, schedule: Schedule) returns (n: nat)
    requires Run(Start(signal), actions).stopping && Fair(schedule)
    ensures var s := Run(Start(signal), actions); var t := RunFor(s, schedule, 0, n);
      && t.pc.Finished? && s.mark <= |s.history|
      && forall u :: Of(s.history[..s.mark], u) <= Of(t.file, u) <= Of(t.history, u)
  {
    n := StopReturns(signal, actions, schedule);
    var s := Run(Start(signal), actions);
    var more := Taken(schedule, 0, n);
    RunForIsRun(s, schedule, 0, n);
    RunTwice(Start(signal), actions, more);
    StartInv(signal);
    RunKeeps(Start(signal), actions);
    MarkStays(s, more);
    forall u ensures Of(s.history[..s.mark], u) <= Of(Run(s, more).file, u) <= Of(Run(s, more).history, u) {
      StopFlushes(signal, actions + more, u);
    }
  }
}
