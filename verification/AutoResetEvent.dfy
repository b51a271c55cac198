/** The auto-reset event with one consumer: every interleaving of the atomic steps of
    any number of `set()` calls with the consumer's `co_await`s. */
module AutoResetEvent {
  /** `m_state`: null, the event itself, or the address of the waiting coroutine. */
  datatype Word = NotSet | Set | Waiter

  /** The consumer runs, has lost its compare-exchange and is about to reset the word,
      or is suspended. */
  datatype Consumer = Running | Resetting | Suspended

  /** A `set()` that took the waiting coroutine: about to reset the word, or to resume. */
  datatype Waker = Taken | Released

  /** The word and the two kinds of program counters, and history: `set()` calls are
      numbered by their first exchange; `pending` ones have not been seen by anyone who
      reset the word, `held` ones were seen by a waker that has yet to resume. Each time
      the consumer goes on it has seen one batch of `wakes`; `resumers` are the calls
      that resumed it. */
  datatype State = State(
    word: Word,
    consumer: Consumer,
    wakers: map<nat, Waker>,
    calls: nat,
    pending: seq<nat>,
    held: seq<nat>,
    wakes: seq<seq<nat>>,
    suspensions: nat,
    resumers: seq<nat>)

  /** An event that is set from the start counts as one call. */
  function Init(initiallySet: bool): State {
    if initiallySet then State(Set, Running, map[], 1, [0], [], [], 0, [])
    else State(NotSet, Running, map[], 0, [], [], [], 0, [])
  }

  datatype Step =
    | CallSet
    | WakerResets(id: nat)
    | WakerResumes(id: nat)
    | ConsumerAwaits
    | ConsumerResets

  predicate Enabled(s: State, a: Step) {
    match a
    case CallSet => true
    case WakerResets(id) => id in s.wakers && s.wakers[id] == Taken
    case WakerResumes(id) => id in s.wakers && s.wakers[id] == Released
    case ConsumerAwaits => s.consumer == Running
    case ConsumerResets => s.consumer == Resetting
  }

  function Do(s: State, a: Step): State
    requires Enabled(s, a)
  {
    match a
    case CallSet =>
      var t := s.(word := Set, calls := s.calls + 1, pending := s.pending + [s.calls]);
      if s.word == Waiter then t.(wakers := s.wakers[s.calls := Taken]) else t
    case WakerResets(id) =>
      s.(word := NotSet, wakers := s.wakers[id := Released], held := s.held + s.pending, pending := [])
    case WakerResumes(id) =>
      s.(consumer := Running, wakers := s.wakers - {id}, wakes := s.wakes + [s.held], held := [],
         resumers := s.resumers + [id])
    case ConsumerAwaits =>
      if s.word == NotSet then s.(word := Waiter, consumer := Suspended, suspensions := s.suspensions + 1)
      else s.(consumer := Resetting)
    case ConsumerResets =>
      s.(word := NotSet, consumer := Running, wakes := s.wakes + [s.pending], pending := [])
  }

  function Flatten(batches: seq<seq<nat>>): seq<nat> {
    if batches == [] then [] else Flatten(batches[..|batches| - 1]) + batches[|batches| - 1]
  }

  function Upto(n: nat): (r: seq<nat>)
    ensures |r| == n && forall i :: 0 <= i < n ==> r[i] == i
  {
    seq(n, i => i)
  }

  /** Who may be doing what. */
  predicate Roles(s: State) {
    && (s.word == Set <==> s.pending != [])
    && match s.consumer
       case Running => s.wakers == map[] && s.held == [] && s.word != Waiter
       case Resetting => s.wakers == map[] && s.held == [] && s.word == Set
       case Suspended =>
         || (s.word == Waiter && s.wakers == map[] && s.held == [])
         || (s.word == Set && s.held == [] && s.wakers == map[s.pending[0] := Taken])
         || (s.word != Waiter && s.held != [] && s.wakers == map[s.held[0] := Released])
  }

  predicate Ledger(seen: seq<nat>, held: seq<nat>, pending: seq<nat>, calls: nat) {
    seen + held + pending == Upto(calls)
  }

  /** Every call is in exactly one place, in order; no batch is empty. */
  predicate Accounted(s: State) {
    Ledger(Flatten(s.wakes), s.held, s.pending, s.calls) && NoneEmpty(s.wakes)
  }

  predicate NoneEmpty(batches: seq<seq<nat>>) {
    forall i :: 0 <= i < |batches| ==> batches[i] != []
  }

  /** Each suspension but a current one was ended by one call, and no call ended two. */
  predicate ResumedOnce(s: State) {
    && s.suspensions == |s.resumers| + (if s.consumer == Suspended then 1 else 0)
    && Ascending(s.resumers, |Flatten(s.wakes)|)
  }

  predicate Inv(s: State) {
    Roles(s) && Accounted(s) && ResumedOnce(s)
  }

  lemma InitInv(initiallySet: bool)
    ensures Inv(Init(initiallySet))
  {
    assert Upto(0) == [] && Upto(1) == [0];
  }

  lemma RolesKept(s: State, a: Step)
    requires Roles(s) && Enabled(s, a)
    ensures Roles(Do(s, a))
  {
    match a
    case CallSet => assert s.pending != [] ==> (s.pending + [s.calls])[0] == s.pending[0];
    case WakerResets(id) => assert (s.held + s.pending)[0] == id;
    case WakerResumes(id) => assert s.wakers - {id} == map[];
    case ConsumerAwaits =>
    case ConsumerResets =>
  }

  lemma FlattenMore(batches: seq<seq<nat>>, batch: seq<nat>)
    ensures Flatten(batches + [batch]) == Flatten(batches) + batch
  {
    assert (batches + [batch])[..|batches|] == batches;
  }

  lemma LedgerCall(f: seq<nat>, h: seq<nat>, p: seq<nat>, n: nat)
    requires Ledger(f, h, p, n)
    ensures Ledger(f, h, p + [n], n + 1)
  {
    assert f + h + (p + [n]) == f + h + p + [n] == Upto(n) + [n];
  }

  lemma LedgerReset(f: seq<nat>, h: seq<nat>, p: seq<nat>, n: nat)
    requires Ledger(f, h, p, n)
    ensures Ledger(f, h + p, [], n)
  {
    assert f + (h + p) + [] == f + h + p;
  }

  lemma LedgerWake(f: seq<nat>, h: seq<nat>, p: seq<nat>, n: nat)
    requires Ledger(f, h, p, n)
    ensures Ledger(f + h, [], p, n)
  {
    assert (f + h) + [] + p == f + h + p;
  }

  /** A batch that was held, or all that is pending, is seen. */
  lemma BatchSeen(wakes: seq<seq<nat>>, batch: seq<nat>, pending: seq<nat>, calls: nat)
    requires Ledger(Flatten(wakes), batch, pending, calls) && batch != [] && NoneEmpty(wakes)
    ensures Ledger(Flatten(wakes + [batch]), [], pending, calls) && NoneEmpty(wakes + [batch])
  {
    LedgerWake(Flatten(wakes), batch, pending, calls);
    FlattenMore(wakes, batch);
  }

  lemma LedgerHold(f: seq<nat>, p: seq<nat>, n: nat)
    requires Ledger(f, [], p, n)
    ensures Ledger(f, p, [], n)
  {
    LedgerReset(f, [], p, n);
    assert [] + p == p;
  }

  lemma AccountedKept(s: State, a: Step)
    requires Roles(s) && Accounted(s) && Enabled(s, a)
    ensures Accounted(Do(s, a))
  {
    match a
    case CallSet => LedgerCall(Flatten(s.wakes), s.held, s.pending, s.calls);
    case WakerResets(id) => LedgerReset(Flatten(s.wakes), s.held, s.pending, s.calls);
    case WakerResumes(id) => BatchSeen(s.wakes, s.held, s.pending, s.calls);
    case ConsumerAwaits =>
    case ConsumerResets =>
      LedgerHold(Flatten(s.wakes), s.pending, s.calls);
      BatchSeen(s.wakes, s.pending, [], s.calls);
  }

  /** The call that resumes is the first of its batch. */
  lemma ResumerStartsBatch(s: State, id: nat)
    requires Roles(s) && Accounted(s) && Enabled(s, WakerResumes(id))
    ensures s.held != [] && id == s.held[0] == |Flatten(s.wakes)|
  {
    var all := Flatten(s.wakes) + s.held + s.pending;
    assert all[|Flatten(s.wakes)|] == s.held[0];
  }

  /** Resumers ascend and lie among the calls seen. */
  predicate Ascending(resumers: seq<nat>, seen: nat) {
    && (forall i, j :: 0 <= i < j < |resumers| ==> resumers[i] < resumers[j])
    && (forall i :: 0 <= i < |resumers| ==> resumers[i] < seen)
  }

  lemma OneMoreResumer(resumers: seq<nat>, seen: nat, more: nat)
    requires Ascending(resumers, seen) && more > seen
    ensures Ascending(resumers + [seen], more)
  {
  }

  lemma ResumedOnceKept(s: State, a: Step)
    requires Inv(s) && Enabled(s, a)
    ensures ResumedOnce(Do(s, a))
  {
    match a
    case WakerResumes(id) =>
      ResumerStartsBatch(s, id);
      FlattenMore(s.wakes, s.held);
      OneMoreResumer(s.resumers, id, |Flatten(s.wakes + [s.held])|);
    case ConsumerResets => FlattenMore(s.wakes, s.pending);
    case _ =>
  }

  lemma StepKeeps(s: State, a: Step)
    requires Inv(s) && Enabled(s, a)
    ensures Inv(Do(s, a))
  {
    RolesKept(s, a);
    AccountedKept(s, a);
    ResumedOnceKept(s, a);
  }

  /** A run: disabled steps are skipped, so every sequence of steps is one. */
  function Run(s: State, steps: seq<Step>): State
    decreases |steps|
  {
    if steps == [] then s
    else Run(if Enabled(s, steps[0]) then Do(s, steps[0]) else s, steps[1..])
  }

  lemma {:induction false} RunKeeps(s: State, steps: seq<Step>)
    requires Inv(s)
    ensures Inv(Run(s, steps))
    decreases |steps|
  {
    if steps != [] {
      if Enabled(s, steps[0]) { StepKeeps(s, steps[0]); }
      RunKeeps(if Enabled(s, steps[0]) then Do(s, steps[0]) else s, steps[1..]);
    }
  }

  /** In every reachable state: a consumer suspended while a call is unseen has exactly
      one call on its way to resume it; a registered consumer has none and nothing to
      see; each past suspension was ended by one call; every call is seen once, in order. */
  lemma NoLostWakeup(initiallySet: bool, steps: seq<Step>)
    ensures var s := Run(Init(initiallySet), steps);
      && (s.consumer == Suspended && s.word != Waiter ==> |s.wakers| == 1)
      && (s.consumer == Suspended && (s.pending != [] || s.held != []) ==> |s.wakers| == 1)
      && (s.consumer != Suspended || s.word == Waiter ==> |s.wakers| == 0)
      && s.suspensions == |s.resumers| + (if s.consumer == Suspended then 1 else 0)
      && (forall i, j :: 0 <= i < j < |s.resumers| ==> s.resumers[i] != s.resumers[j])
      && Flatten(s.wakes) + s.held + s.pending == Upto(s.calls)
  {
    InitInv(initiallySet);
    RunKeeps(Init(initiallySet), steps);
  }

  /** The consumer's compare-exchange fails only on a set event, as its assertion says. */
  lemma FailsOnlyWhenSet(initiallySet: bool, steps: seq<Step>)
    ensures var s := Run(Init(initiallySet), steps); Enabled(s, ConsumerAwaits) && s.word != NotSet ==> s.word == Set
  {
    InitInv(initiallySet);
    RunKeeps(Init(initiallySet), steps);
  }

  /** The call on its way needs only its own next steps to resume the consumer, which has
      then seen every call made before the word was reset. */
  lemma WakerDelivers(initiallySet: bool, steps: seq<Step>) returns (id: nat)
    requires var s := Run(Init(initiallySet), steps); s.consumer == Suspended && s.word != Waiter
    ensures var s := Run(Init(initiallySet), steps);
      && id in s.wakers
      && var own := if s.wakers[id] == Taken then [WakerResets(id), WakerResumes(id)] else [WakerResumes(id)];
         var t := Run(s, own);
         t.consumer == Running && t.wakers == map[] && t.resumers == s.resumers + [id]
         && t.wakes == s.wakes + [if s.wakers[id] == Taken then s.pending else s.held]
  {
    InitInv(initiallySet);
    RunKeeps(Init(initiallySet), steps);
    var s := Run(Init(initiallySet), steps);
    if s.held == [] {
      id := s.pending[0];
      TakenDelivers(s, id);
    } else {
      id := s.held[0];
      ReleasedDelivers(s, id);
    }
  }

  lemma ReleasedDelivers(s: State, id: nat)
    requires s.wakers == map[id := Released]
    ensures var t := Run(s, [WakerResumes(id)]);
      t.consumer == Running && t.wakers == map[] && t.resumers == s.resumers + [id] && t.wakes == s.wakes + [s.held]
  {
    assert [WakerResumes(id)][1..] == [];
    assert s.wakers - {id} == map[];
    assert Run(s, [WakerResumes(id)]) == Run(Do(s, WakerResumes(id)), []);
  }

  lemma TakenDelivers(s: State, id: nat)
    requires s.wakers == map[id := Taken] && s.held == []
    ensures var t := Run(s, [WakerResets(id), WakerResumes(id)]);
      t.consumer == Running && t.wakers == map[] && t.resumers == s.resumers + [id] && t.wakes == s.wakes + [s.pending]
  {
    var s1 := Do(s, WakerResets(id));
    assert s.held + s.pending == s.pending;
    assert s1.wakers - {id} == map[];
    OwnSteps(s, WakerResets(id), WakerResumes(id));
  }

  /** Awaiting passes at once, with the consumer's own two steps, exactly if a call is unseen,
      and the consumer has then seen all that were; otherwise it suspends. */
  lemma AwaitOutcome(initiallySet: bool, steps: seq<Step>)
    requires Run(Init(initiallySet), steps).consumer == Running
    ensures var s := Run(Init(initiallySet), steps);
      if s.pending != [] then
        var t := Run(s, [ConsumerAwaits, ConsumerResets]);
        t.consumer == Running && t.word == NotSet && t.wakes == s.wakes + [s.pending] && t.pending == [] && t.suspensions == s.suspensions
      else
        var t := Run(s, [ConsumerAwaits]);
        t.consumer == Suspended && t.word == Waiter && t.wakes == s.wakes && t.suspensions == s.suspensions + 1
  {
    InitInv(initiallySet);
    RunKeeps(Init(initiallySet), steps);
    var s := Run(Init(initiallySet), steps);
    if s.pending != [] {
      OwnSteps(s, ConsumerAwaits, ConsumerResets);
    } else {
      assert [ConsumerAwaits][1..] == [];
    }
  }

  /** A call that finds the consumer waiting is the one that will resume it. */
  lemma CallOutcome(initiallySet: bool, steps: seq<Step>)
    ensures var s := Run(Init(initiallySet), steps); var t := Do(s, CallSet);
      && t.word == Set && t.calls == s.calls + 1 && t.pending == s.pending + [s.calls] && t.consumer == s.consumer
      && t.wakers == if s.consumer == Suspended && s.word == Waiter then map[s.calls := Taken] else s.wakers
  {
    InitInv(initiallySet);
    RunKeeps(Init(initiallySet), steps);
  }

  lemma OwnSteps(s: State, a: Step, b: Step)
    requires Enabled(s, a) && Enabled(Do(s, a), b)
    ensures Run(s, [a, b]) == Do(Do(s, a), b)
  {
    assert [a, b][1..] == [b] && [b][1..] == [];
    assert Run(Do(s, a), [b]) == Run(Do(Do(s, a), b), []);
  }
}
