/** What a poll of the running logger achieves, whatever the other threads do meanwhile. */
module LoggerPolls {
  import opened AsyncLogger

  // ---------------------------------------------------------------------------
  // When the file is written
  // ---------------------------------------------------------------------------

  /** Not in the part of a poll that formats and writes. */
  predicate BetweenWrites(pc: Pc) {
    pc.AtLoop? || pc.PollStart? || pc.Scanning? || pc.CheckWork? || pc.Waiting?
  }

  predicate Small(s: State) {
    BetweenWrites(s.pc) ==> Size(s.buffer) < FLUSH_AT
  }

  lemma SmallKept(s: State, a: Action)
    requires Small(s) && Enabled(s, a)
    ensures Small(Step(s, a))
  {
  }

  lemma {:induction false} SmallInRuns(s: State, actions: seq<Action>)
    requires Small(s)
    ensures Small(Run(s, actions))
    decreases |actions|
  {
    if actions != [] {
      if Enabled(s, actions[0]) { SmallKept(s, actions[0]); }
      SmallInRuns(Next(s, actions[0]), actions[1..]);
    }
  }

  /** In every run the buffer is below the flush size whenever no poll is formatting: a poll
      whose buffer has reached it has written it. */
  lemma BufferStaysSmall(signal: bool, actions: seq<Action>)
    ensures var s := Run(Start(signal), actions); BetweenWrites(s.pc) ==> Size(s.buffer) < FLUSH_AT
  {
    SmallInRuns(Start(signal), actions);
  }

  /** The file is written only by the background thread at the end of a poll, the whole
      buffer at once, and only if a flush was forced or the buffer has reached its size. */
  lemma WritesOnlyWhenDue(s: State, a: Action)
    requires Enabled(s, a) && Step(s, a).file != s.file
    ensures a == Background && s.pc.Formatting? && s.backlog == [] && Step(s, a).file == s.file + s.buffer
    ensures s.force || Size(s.buffer) >= FLUSH_AT
  {
  }

  // ---------------------------------------------------------------------------
  // A forced poll
  // ---------------------------------------------------------------------------

  /** Of the first `n` appends, those of thread `t` have left its ring. */
  ghost predicate DrainedTo(s: State, n: nat, t: nat) {
    n <= |s.history| && |Of(s.history[..n], t)| <= |Of(Collected(s), t)|
  }

  predicate PollOver(pc: Pc) {
    pc.Waiting? || pc.Finished?
  }

  ghost predicate AllDrained(s: State, n: nat, k: nat)
    requires k <= |s.order|
  {
    forall j :: 0 <= j < k ==> DrainedTo(s, n, s.order[j])
  }

  /** In a poll that was forced when `n` entries had been appended and `k` rings registered. */
  ghost predicate Forced(s: State, n: nat, k: nat) {
    && n <= |s.history| && k <= |s.order|
    && match s.pc
       case AtLoop => false
       case PollStart(_) => s.force
       case Scanning(_, size, i, _) => s.force && k <= size && forall j :: 0 <= j < i && j < k ==> DrainedTo(s, n, s.order[j])
       case CheckWork(_) => s.force && AllDrained(s, n, k)
       case Formatting(_) => s.force && AllDrained(s, n, k)
       case Appended(_) => AllDrained(s, n, k)
       case Waiting => s.buffer == [] && s.backlog == [] && AllDrained(s, n, k)
       case Finished => s.buffer == [] && s.backlog == [] && AllDrained(s, n, k)
  }

  lemma PrefixStays(h: seq<Entry>, h': seq<Entry>, n: nat)
    requires h <= h' && n <= |h|
    ensures h'[..n] == h[..n]
  {
  }

  /** Other threads only add to the history and to the rings. */
  lemma OthersKeepForced(s: State, a: Action, n: nat, k: nat)
    requires Forced(s, n, k) && Enabled(s, a) && a != Background
    ensures var t := Step(s, a); Forced(t, n, k) && s.history <= t.history && s.order <= t.order
  {
    var t := Step(s, a);
    assert Collected(t) == Collected(s);
    PrefixStays(s.history, t.history, n);
    forall j | 0 <= j < |s.order| ensures DrainedTo(s, n, s.order[j]) ==> DrainedTo(t, n, t.order[j]) {}
  }

  lemma RingDrainedTo(s: State, t: nat, n: nat)
    requires Conserved(s, t) && InRing(s, t) == [] && n <= |s.history|
    ensures DrainedTo(s, n, t)
  {
    OfPrefix(s.history, n, t);
  }

  lemma ScanForced(s: State, n: nat, k: nat)
    requires Inv(s) && Forced(s, n, k) && s.pc.Scanning? && s.pc.i < s.pc.size
    ensures Enabled(s, Background) && Forced(BackgroundStep(s), n, k)
  {
    DrainRingKeeps(s);
    var s', t := BackgroundStep(s), s.order[s.pc.i];
    assert Collected(s') == Collected(s) + s.rings[t];
    forall j | 0 <= j < s'.pc.i && j < k ensures DrainedTo(s', n, s'.order[j]) {
      if j < s.pc.i {
        assert DrainedTo(s, n, s.order[j]);
        OfConcat(Collected(s), s.rings[t], s.order[j]);
      } else {
        assert Conserved(s', t);
        RingDrainedTo(s', t, n);
      }
    }
  }

  lemma WriteForced(s: State, n: nat, k: nat)
    requires Inv(s) && Forced(s, n, k) && !PollOver(s.pc) && !(s.pc.Scanning? && s.pc.i < s.pc.size)
    ensures Enabled(s, Background) && Forced(BackgroundStep(s), n, k)
  {
    CollectedStays(s);
    var t := BackgroundStep(s);
    forall j | 0 <= j < k ensures DrainedTo(s, n, s.order[j]) ==> DrainedTo(t, n, t.order[j]) {}
  }

  /** Stations ahead in this poll. */
  function PollStations(pc: Pc): nat {
    match pc
    case PollStart(_) => 5
    case Scanning(_, _, _, _) => 4
    case CheckWork(_) => 3
    case Formatting(_) => 2
    case Appended(_) => 1
    case _ => 0
  }

  ghost predicate PollNearer(t: State, s: State) {
    PollStations(t.pc) < PollStations(s.pc) || (PollStations(t.pc) == PollStations(s.pc) && 0 <= Pending(t) < Pending(s))
  }

  lemma ForcedAdvances(s: State, n: nat, k: nat)
    requires Inv(s) && Forced(s, n, k) && !PollOver(s.pc)
    ensures Enabled(s, Background)
    ensures var t := BackgroundStep(s);
      Forced(t, n, k) && PollNearer(t, s) && s.history <= t.history && s.order <= t.order
  {
    if s.pc.Scanning? && s.pc.i < s.pc.size { ScanForced(s, n, k); } else { WriteForced(s, n, k); }
  }

  lemma ForcedStep(s: State, a: Action, n: nat, k: nat)
    requires Inv(s) && Forced(s, n, k) && !PollOver(s.pc)
    ensures var t := Next(s, a);
      && Inv(t) && Forced(t, n, k) && s.history <= t.history && s.order <= t.order
      && if a == Background then PollNearer(t, s) else PollStations(t.pc) == PollStations(s.pc) && Pending(t) == Pending(s)
  {
    if a == Background {
      ForcedAdvances(s, n, k);
      BackgroundKeeps(s);
    } else if Enabled(s, a) {
      OthersKeepForced(s, a, n, k);
      StepKeeps(s, a);
    }
  }

  /** From `s` on, `t` is reached at the end of a forced poll. */
  ghost predicate PollEnded(s: State, t: State, n: nat, k: nat) {
    PollOver(t.pc) && Inv(t) && Forced(t, n, k) && s.history <= t.history && s.order <= t.order
  }

  lemma EndedBefore(s: State, s1: State, t: State, n: nat, k: nat)
    requires s.history <= s1.history && s.order <= s1.order && PollEnded(s1, t, n, k)
    ensures PollEnded(s, t, n, k)
  {
  }

  /** On every fair schedule a forced poll ends. */
  lemma {:induction false} ForcedPollEnds(s: State, schedule: Schedule, p: nat, m: nat, n: nat, k: nat) returns (r: nat)
    requires Inv(s) && Forced(s, n, k) && Fair(schedule) && m >= p && schedule(m) == Background
    ensures PollEnded(s, RunFor(s, schedule, p, r), n, k)
    decreases PollStations(s.pc), Pending(s), m - p
  {
    if PollOver(s.pc) {
      r := 0;
    } else {
      ForcedStep(s, schedule(p), n, k);
      var m' := m;
      if schedule(p) == Background {
        assert ScheduledFrom(schedule, p + 1);
        m' :| m' >= p + 1 && schedule(m') == Background;
      }
      var s1 := Next(s, schedule(p));
      var q := ForcedPollEnds(s1, schedule, p + 1, m', n, k);
      r := q + 1;
      EndedBefore(s, s1, RunFor(s1, schedule, p + 1, q), n, k);
    }
  }

  /** What a forced poll leaves: nothing half-way, and the file holds what was appended. */
  lemma PollHasWritten(s: State, n: nat, k: nat, u: nat)
    requires Inv(s) && Forced(s, n, k) && PollOver(s.pc) && (exists j :: 0 <= j < k && s.order[j] == u)
    ensures Of(s.history[..n], u) <= Of(s.file, u)
  {
    var j :| 0 <= j < k && s.order[j] == u;
    assert DrainedTo(s, n, s.order[j]);
    assert Collected(s) == s.file;
    ConservedParts(s, u);
    OfPrefix(s.history, n, u);
  }

  lemma PollHasWrittenAll(s: State, t: State, u: nat)
    requires Inv(s) && Inv(t) && Forced(t, |s.history|, |s.order|) && PollOver(t.pc) && s.history <= t.history && s.order <= t.order
    ensures Of(s.history, u) <= Of(t.file, u)
  {
    assert t.history[..|s.history|] == s.history;
    if u in s.rings {
      var j :| 0 <= j < |s.order| && s.order[j] == u;
      assert t.order[j] == u;
      PollHasWritten(t, |s.history|, |s.order|, u);
    } else {
      OfAbsent(s.history, u);
    }
  }

  /** From every reachable state in which a poll begins with a flush forced, on every fair
      schedule, with any steps of other threads and no stop assumed, the poll ends with
      nothing left in buffer or backlog and everything appended before it in the file. */
  lemma PollDelivers(signal: bool, actions: seq<Action>, schedule: Schedule) returns (r: nat)
    requires var s := Run(Start(signal), actions); s.pc.PollStart? && s.force
    requires Fair(schedule)
    ensures var s := Run(Start(signal), actions); var t := RunFor(s, schedule, 0, r);
      && (t.pc.Waiting? || t.pc.Finished?) && t.buffer == [] && t.backlog == []
      && forall u :: Of(s.history, u) <= Of(t.file, u)
  {
    StartInv(signal);
    RunKeeps(Start(signal), actions);
    var s := Run(Start(signal), actions);
    assert ScheduledFrom(schedule, 0);
    var m :| m >= 0 && schedule(m) == Background;
    r := ForcedPollEnds(s, schedule, 0, m, |s.history|, |s.order|);
    forall u ensures Of(s.history, u) <= Of(RunFor(s, schedule, 0, r).file, u) {
      PollHasWrittenAll(s, RunFor(s, schedule, 0, r), u);
    }
  }

  // ---------------------------------------------------------------------------
  // Every entry reaches the file
  // ---------------------------------------------------------------------------

  lemma {:induction false} RunForTwice(s: State, schedule: Schedule, p: nat, a: nat, b: nat)
    ensures RunFor(s, schedule, p, a + b) == RunFor(RunFor(s, schedule, p, a), schedule, p + a, b)
    decreases a
  {
    if a > 0 { RunForTwice(Next(s, schedule(p)), schedule, p + 1, a - 1, b); }
  }

  /** Waiting, or back at the loop's test after a wait. */
  predicate AfterWait(s: State) {
    s.pc.Waiting? || (s.pc.AtLoop? && s.force)
  }

  lemma AfterWaitStep(s: State, a: Action)
    requires Inv(s) && AfterWait(s)
    ensures var t := Next(s, a);
      && Inv(t) && s.history <= t.history
      && (a != Background ==> AfterWait(t) && t.pc == s.pc)
      && (a == Background && s.pc.Waiting? ==> t.pc.AtLoop? && t.force)
      && (a == Background && s.pc.AtLoop? ==> t.pc.PollStart? && t.force)
  {
    if Enabled(s, a) { StepKeeps(s, a); }
  }

  /** The wait is followed by a forced poll. */
  lemma {:induction false} WaitLeadsToPoll(s: State, schedule: Schedule, p: nat, m: nat) returns (r: nat)
    requires Inv(s) && AfterWait(s) && Fair(schedule) && m >= p && schedule(m) == Background
    ensures var t := RunFor(s, schedule, p, r); t.pc.PollStart? && t.force && Inv(t) && s.history <= t.history
    decreases if s.pc.Waiting? then 1 else 0, m - p
  {
    AfterWaitStep(s, schedule(p));
    if schedule(p) == Background && s.pc.AtLoop? {
      r := 1;
      assert RunFor(s, schedule, p, 1) == RunFor(Next(s, schedule(p)), schedule, p + 1, 0);
    } else {
      var m' := m;
      if schedule(p) == Background {
        assert ScheduledFrom(schedule, p + 1);
        m' :| m' >= p + 1 && schedule(m') == Background;
      }
      var q := WaitLeadsToPoll(Next(s, schedule(p)), schedule, p + 1, m');
      r := q + 1;
    }
  }

  lemma OfMonotone(h: seq<Entry>, h': seq<Entry>, u: nat)
    requires h <= h'
    ensures Of(h, u) <= Of(h', u)
  {
    assert h == h'[..|h|];
    OfPrefix(h', |h|, u);
  }

  /** A running logger writes what is appended: from every reachable state in which the
      background thread waits, on every fair schedule, with or without a stop, everything
      appended so far gets into the file. */
  lemma WaitDelivers(signal: bool, actions: seq<Action>, schedule: Schedule) returns (r: nat)
    requires Run(Start(signal), actions).pc.Waiting? && Fair(schedule)
    ensures var s := Run(Start(signal), actions); var t := RunFor(s, schedule, 0, r);
      forall u :: Of(s.history, u) <= Of(t.file, u)
  {
    StartInv(signal);
    RunKeeps(Start(signal), actions);
    var s := Run(Start(signal), actions);
    r := WaitWrites(s, schedule);
  }

  ghost predicate HasWritten(h: seq<Entry>, file: seq<Entry>) {
    forall u :: Of(h, u) <= Of(file, u)
  }

  lemma ForcedPollWrites(s: State, schedule: Schedule, p: nat) returns (r: nat)
    requires Inv(s) && s.pc.PollStart? && s.force && Fair(schedule)
    ensures HasWritten(s.history, RunFor(s, schedule, p, r).file)
  {
    assert ScheduledFrom(schedule, p);
    var m :| m >= p && schedule(m) == Background;
    r := ForcedPollEnds(s, schedule, p, m, |s.history|, |s.order|);
    forall u ensures Of(s.history, u) <= Of(RunFor(s, schedule, p, r).file, u) {
      PollHasWrittenAll(s, RunFor(s, schedule, p, r), u);
    }
  }

  lemma WrittenEarlier(h: seq<Entry>, h': seq<Entry>, file: seq<Entry>)
    requires h <= h' && HasWritten(h', file)
    ensures HasWritten(h, file)
  {
    forall u ensures Of(h, u) <= Of(file, u) { OfMonotone(h, h', u); }
  }

  lemma WaitWrites(s: State, schedule: Schedule) returns (r: nat)
    requires Inv(s) && s.pc.Waiting? && Fair(schedule)
    ensures HasWritten(s.history, RunFor(s, schedule, 0, r).file)
  {
    assert ScheduledFrom(schedule, 0);
    var m :| m >= 0 && schedule(m) == Background;
    var a := WaitLeadsToPoll(s, schedule, 0, m);
    var t := RunFor(s, schedule, 0, a);
    var b := ForcedPollWrites(t, schedule, a);
    r := a + b;
    RunForTwice(s, schedule, 0, a, b);
    WrittenEarlier(s.history, t.history, RunFor(t, schedule, a, b).file);
  }

  /** The promise of `stop`, in terms of what was appended when it was called: from every
      reachable state, once the request is made, on every fair schedule, the background
      thread finishes and everything appended before the request is in the file. */
  lemma StopCallDelivers(signal: bool, actions: seq<Action>, schedule: Schedule) returns (n: nat)
    requires !Run(Start(signal), actions).stopping && Fair(schedule)
    ensures var s := Run(Start(signal), actions); var t := RunFor(Next(s, RequestStop), schedule, 0, n);
      && t.pc.Finished? && t.buffer == [] && t.backlog == []
      && forall u :: Of(s.history, u) <= Of(t.file, u) <= Of(t.history, u)
  {
    var s, stop := Run(Start(signal), actions), [RequestStop];
    RunTwice(Start(signal), actions, stop);
    assert stop[1..] == [] && Run(s, stop) == Next(s, RequestStop);
    n := StopDelivers(signal, actions + stop, schedule);
    var t := RunFor(Next(s, RequestStop), schedule, 0, n);
    RunForIsRun(Next(s, RequestStop), schedule, 0, n);
    RunTwice(Start(signal), actions + stop, Taken(schedule, 0, n));
    StartInv(signal);
    RunKeeps(Start(signal), actions + stop + Taken(schedule, 0, n));
    assert s.history[..|s.history|] == s.history;
  }
}
