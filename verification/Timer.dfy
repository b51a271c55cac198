/** The timer on its skip list, and the context that runs the timer loop. */
module Timer {
  import opened SkipList
  import opened SkipListRuns
  import opened TimerSpec
  import Event = AutoResetEvent

  class TimerQueue {
    const queue: SkipListMap

    ghost predicate Valid()
      reads this, queue, queue.row
    {
      queue.Valid()
    }

    constructor (minKey: int, maxKey: int)
      ensures Valid() && fresh(queue) && fresh(Nodes(queue.row)) && queue.maxKey == maxKey
      ensures queue.Contents() == []
    {
      queue := new SkipListMap(minKey, maxKey);
    }

    method HasMoreTimeouts() returns (more: bool)
      requires Valid()
      ensures more <==> queue.Contents() != []
    {
      more := queue.length != 0;
    }

    /** Microseconds to the earliest wakeup point, zero if it has passed. */
    method GetNextExpiration(now: int) returns (wait: int)
      requires Valid() && queue.Contents() != []
      ensures wait >= 0
      ensures forall e :: e in queue.Contents() ==> e.key >= now + wait || wait == 0
      ensures exists e :: e in queue.Contents() && (e.key == now + wait || (wait == 0 && e.key < now))
    {
      ghost var row, c := queue.row, queue.Contents();
      SuccLevelZero(row, 0);
      assert PointsRight(row, 0, 0);
      var first := queue.head.next[0];
      assert first == row[1] && first.entry == c[0];
      ContentsSorted(row);
      wait := if first.entry.key - now > 0 then first.entry.key - now else 0;
      assert c[0] in c;
    }

    method AddEvent(cont: nat, now: int, timeout: int, level: nat)
      requires Valid() && now + timeout <= queue.maxKey && 1 <= level <= MAX_LEVEL
      modifies queue, queue.row
      ensures Valid() && fresh(Nodes(queue.row) - Nodes(old(queue.row)))
      ensures queue.Contents() == Insert(old(queue.Contents()), Entry(now + timeout, cont))
    {
      var node := queue.Emplace(Entry(now + timeout, cont), level);
    }

    /** `handle_events`: `first` and `second` are what the coroutines resumed by the first
        and by the second drain register. Only the first drain is counted. */
    method HandleEvents(now: int, first: nat -> seq<Insertion>, second: nat -> seq<Insertion>)
      returns (resumed: seq<nat>, sz: nat)
      requires Valid() && now < queue.maxKey
      requires forall c :: LegalInsertions(first(c), queue.maxKey) && LegalInsertions(second(c), queue.maxKey)
      modifies queue, Nodes(queue.row)
      ensures Valid() && fresh(Nodes(queue.row) - Nodes(old(queue.row)))
      ensures var q := old(queue.Contents()); var a, b := FirstPlan(q, now, first), SecondPlan(q, now, first, second);
        && resumed == Values(ResumedBy(q, now, a))
        && queue.Contents() == LeftBy(q, now, a, b)
        && sz == |Due(q, now)|
    {
      ghost var c := queue.Contents();
      if queue.length == 0 {
        NothingDue(now, first, second);
        return [], 0;
      }
      resumed := queue.DoLessEqThenPop(now, first);
      sz := |resumed|;
      ghost var mid := queue.Contents();
      var due := PopAndResume(now, second);
      ValuesJoin(Due(c, now), Due(mid, now));
      resumed := resumed + due;
    }

    /** The second drain: a sweep for what became due, resumed afterwards. */
    method PopAndResume(now: int, plan: nat -> seq<Insertion>) returns (due: seq<nat>)
      requires Valid() && now < queue.maxKey && forall c :: LegalInsertions(plan(c), queue.maxKey)
      modifies queue, Nodes(queue.row)
      ensures Valid() && fresh(Nodes(queue.row) - Nodes(old(queue.row)))
      ensures due == Values(Due(old(queue.Contents()), now))
      ensures queue.Contents() == InsertAll(NotDue(old(queue.Contents()), now), Planned(plan, |due|))
    {
      due := queue.PopLessEq(now);
      ResumeAll(due, plan);
    }

    /** Resuming the second drain's coroutines. */
    method ResumeAll(due: seq<nat>, plan: nat -> seq<Insertion>)
      requires Valid() && forall c :: LegalInsertions(plan(c), queue.maxKey)
      modifies queue, Nodes(queue.row)
      ensures Valid() && fresh(Nodes(queue.row) - Nodes(old(queue.row)))
      ensures queue.Contents() == InsertAll(old(queue.Contents()), Planned(plan, |due|))
    {
      for i := 0 to |due|
        invariant Valid() && fresh(Nodes(queue.row) - Nodes(old(queue.row)))
        invariant queue.Contents() == InsertAll(old(queue.Contents()), Planned(plan, i))
      {
        ResumeOne(plan, i, old(queue.Contents()));
      }
    }

    method ResumeOne(plan: nat -> seq<Insertion>, i: nat, ghost base: seq<Entry>)
      requires Valid() && LegalInsertions(plan(i), queue.maxKey)
      requires queue.Contents() == InsertAll(base, Planned(plan, i))
      modifies queue, Nodes(queue.row)
      ensures Valid() && fresh(Nodes(queue.row) - Nodes(old(queue.row)))
      ensures queue.Contents() == InsertAll(base, Planned(plan, i + 1))
    {
      RegisterAll(plan(i));
      InsertAllTwice(base, Planned(plan, i), plan(i));
    }

    method RegisterAll(ins: seq<Insertion>)
      requires Valid() && LegalInsertions(ins, queue.maxKey)
      modifies queue, Nodes(queue.row)
      ensures Valid() && fresh(Nodes(queue.row) - Nodes(old(queue.row)))
      ensures queue.Contents() == InsertAll(old(queue.Contents()), ins)
    {
      for c := 0 to |ins|
        invariant Valid() && fresh(Nodes(queue.row) - Nodes(old(queue.row)))
        invariant queue.Contents() == InsertAll(old(queue.Contents()), ins[..c])
      {
        assert ins[..c + 1][..c] == ins[..c];
        var node := queue.Emplace(ins[c].entry, ins[c].level);
      }
      assert ins[..|ins|] == ins;
    }
  }

  /** The context's timer loop: a coroutine that waits on a kernel timeout while timers
      are queued, and on the event while none is. */
  class TimerLoop {
    const timer: TimerQueue
    var loop: Loop
    var word: Event.Word
    var stopped: bool
    ghost var registered: seq<Entry>
    ghost var resumed: seq<Entry>
    ghost var clocks: seq<int>

    ghost predicate Valid()
      reads this, timer, timer.queue, timer.queue.row
    {
      timer.Valid()
    }

    ghost function View(): State
      requires |timer.queue.row| >= 2
      reads this, timer.queue
    {
      State(loop, timer.queue.Contents(), word, stopped, registered, resumed, clocks)
    }

    constructor (minKey: int, maxKey: int)
      ensures Valid() && View() == Init() && timer.queue.maxKey == maxKey
      ensures fresh(timer) && fresh(timer.queue) && fresh(Nodes(timer.queue.row))
    {
      timer := new TimerQueue(minKey, maxKey);
      loop, word, stopped := NotStarted, Event.NotSet, false;
      registered, resumed, clocks := [], [], [];
    }

    /** The coroutine, from the outer or the inner loop test to where it next waits. */
    method GoOn(inner: bool)
      requires Valid() && word != Event.Waiter
      modifies `loop, `word
      ensures Valid() && View() == if inner then Inner(old(View())) else Outer(old(View()))
    {
      var checking := !inner;
      while true
        invariant Valid() && word != Event.Waiter && loop == old(loop)
        invariant (if inner then Inner(old(View())) else Outer(old(View()))) == if checking then Outer(View()) else Inner(View())
        decreases word == Event.Set, checking
      {
        if checking && stopped {
          loop := Ended;
          return;
        }
        var more := timer.HasMoreTimeouts();
        if more {
          loop := Armed;
          return;
        }
        if word == Event.NotSet {
          word, loop := Event.Waiter, Parked;
          return;
        }
        word, checking := Event.NotSet, true;
      }
    }

    method InitTimeoutCallback()
      requires Valid() && loop == NotStarted && word != Event.Waiter
      modifies `loop, `word
      ensures Valid() && View() == Do(old(View()), Start)
    {
      GoOn(false);
    }

    /** `register_timeout`; handles are numbered in the order of registration. */
    method RegisterTimeout(cont: nat, now: int, timeout: int, level: nat)
      requires Valid() && now + timeout <= timer.queue.maxKey && 1 <= level <= MAX_LEVEL && cont == |registered|
      modifies this, timer.queue, timer.queue.row
      ensures Valid() && fresh(Nodes(timer.queue.row) - Nodes(old(timer.queue.row)))
      ensures View() == Do(old(View()), Register(now, timeout))
    {
      timer.AddEvent(cont, now, timeout, level);
      registered := registered + [Entry(now + timeout, cont)];
      if word == Event.Waiter {
        word := Event.NotSet;
        GoOn(false);
      } else {
        word := Event.Set;
      }
    }

    /** The kernel timeout has fired: `handle_events`, then on with the inner loop. Whether
        a coroutine resumed meanwhile registers or stops is up to the caller. */
    method TimeoutFires(now: int, first: nat -> seq<Insertion>, second: nat -> seq<Insertion>, registers: bool, stops: bool)
      returns (handles: seq<nat>, ghost a: seq<Insertion>, ghost b: seq<Insertion>)
      requires Valid() && loop == Armed && word != Event.Waiter && now < timer.queue.maxKey
      requires forall c :: LegalInsertions(first(c), timer.queue.maxKey) && LegalInsertions(second(c), timer.queue.maxKey)
      requires PlanFits(timer.queue.Contents(), now, first, second, |registered|, registers)
      modifies this, timer.queue, Nodes(timer.queue.row)
      ensures Valid() && fresh(Nodes(timer.queue.row) - Nodes(old(timer.queue.row)))
      ensures Enabled(old(View()), Fire(now, a, b, stops))
      ensures a == FirstPlan(old(timer.queue.Contents()), now, first)
      ensures b == SecondPlan(old(timer.queue.Contents()), now, first, second)
      ensures handles == Values(ResumedBy(old(timer.queue.Contents()), now, a))
      ensures View() == Do(old(View()), Fire(now, a, b, stops))
    {
      ghost var q := timer.queue.Contents();
      a, b := FirstPlan(q, now, first), SecondPlan(q, now, first, second);
      handles := HandleAndNote(now, first, second, a, b, registers, stops);
      GoOn(true);
    }

    method HandleOnly(now: int, first: nat -> seq<Insertion>, second: nat -> seq<Insertion>, ghost a: seq<Insertion>, ghost b: seq<Insertion>)
      returns (handles: seq<nat>)
      requires Valid() && now < timer.queue.maxKey
      requires forall c :: LegalInsertions(first(c), timer.queue.maxKey) && LegalInsertions(second(c), timer.queue.maxKey)
      requires var q := timer.queue.Contents(); a == FirstPlan(q, now, first) && b == SecondPlan(q, now, first, second)
      modifies timer.queue, Nodes(timer.queue.row)
      ensures Valid() && fresh(Nodes(timer.queue.row) - Nodes(old(timer.queue.row)))
      ensures timer.queue.Contents() == LeftBy(old(timer.queue.Contents()), now, a, b)
      ensures handles == Values(ResumedBy(old(timer.queue.Contents()), now, a))
    {
      var sz;
      handles, sz := timer.HandleEvents(now, first, second);
    }

    /** What the resumed coroutines do to the event and to `stopped_`, with the drains. */
    method HandleAndNote(now: int, first: nat -> seq<Insertion>, second: nat -> seq<Insertion>,
                         ghost a: seq<Insertion>, ghost b: seq<Insertion>, registers: bool, stops: bool)
      returns (handles: seq<nat>)
      requires Valid() && now < timer.queue.maxKey
      requires forall c :: LegalInsertions(first(c), timer.queue.maxKey) && LegalInsertions(second(c), timer.queue.maxKey)
      requires var q := timer.queue.Contents(); a == FirstPlan(q, now, first) && b == SecondPlan(q, now, first, second)
      requires registers <==> a != [] || b != []
      modifies this, timer.queue, Nodes(timer.queue.row)
      ensures Valid() && fresh(Nodes(timer.queue.row) - Nodes(old(timer.queue.row)))
      ensures View() == Handled(old(View()), now, a, b, stops)
      ensures handles == Values(ResumedBy(old(timer.queue.Contents()), now, a))
    {
      ghost var s := View();
      Note(now, ResumedBy(s.queue, now, a), EntriesOf(a) + EntriesOf(b), registers, stops);
      assert timer.queue.Contents() == s.queue;
      handles := HandleOnly(now, first, second, a, b);
      HandledParts(s, View(), now, a, b, stops);
    }

    method Note(now: int, ghost out: seq<Entry>, ghost added: seq<Entry>, registers: bool, stops: bool)
      requires Valid()
      modifies `registered, `resumed, `clocks, `word, `stopped
      ensures Valid() && registered == old(registered) + added && resumed == old(resumed) + out
      ensures clocks == old(clocks) + Constant(|out|, now)
      ensures word == (if registers then Event.Set else old(word)) && stopped == (old(stopped) || stops)
    {
      registered, resumed, clocks := registered + added, resumed + out, clocks + Constant(|out|, now);
      if registers { word := Event.Set; }
      if stops { stopped := true; }
    }

    method Stop()
      requires Valid()
      modifies `stopped
      ensures Valid() && View() == Do(old(View()), TimerSpec.Stop)
    {
      stopped := true;
    }
  }

  lemma HandledParts(s: State, t: State, now: int, a: seq<Insertion>, b: seq<Insertion>, stops: bool)
    requires t.queue == LeftBy(s.queue, now, a, b) && t.resumed == s.resumed + ResumedBy(s.queue, now, a)
    requires t.registered == s.registered + (EntriesOf(a) + EntriesOf(b)) && t.clocks == s.clocks + Constant(|ResumedBy(s.queue, now, a)|, now)
    requires t.loop == s.loop && t.stopped == (s.stopped || stops) && t.word == if a == [] && b == [] then s.word else Event.Set
    ensures t == Handled(s, now, a, b, stops)
  {
  }

  /** What the coroutines resumed by the first drain register. */
  ghost function FirstPlan(q: seq<Entry>, now: int, first: nat -> seq<Insertion>): seq<Insertion> {
    Planned(first, |Due(q, now)|)
  }

  /** What those resumed by the second drain register. */
  ghost function SecondPlan(q: seq<Entry>, now: int, first: nat -> seq<Insertion>, second: nat -> seq<Insertion>): seq<Insertion> {
    Planned(second, |Due(BetweenDrains(q, now, FirstPlan(q, now, first)), now)|)
  }

  /** Handles are numbered on, and `registers` says whether there are any. */
  ghost predicate PlanFits(q: seq<Entry>, now: int, first: nat -> seq<Insertion>, second: nat -> seq<Insertion>, n: nat, registers: bool) {
    var a, b := FirstPlan(q, now, first), SecondPlan(q, now, first, second);
    Numbered(EntriesOf(a) + EntriesOf(b), n) && (registers <==> a != [] || b != [])
  }

  lemma NothingDue(now: int, first: nat -> seq<Insertion>, second: nat -> seq<Insertion>)
    ensures FirstPlan([], now, first) == [] && SecondPlan([], now, first, second) == []
    ensures ResumedBy([], now, []) == [] && LeftBy([], now, [], []) == [] && Due([], now) == []
  {
  }

  lemma ValuesJoin(a: seq<Entry>, b: seq<Entry>)
    ensures Values(a + b) == Values(a) + Values(b)
  {
  }

  lemma ContentsSorted(row: seq<Node>)
    requires Shape(row) && Ascending(row)
    ensures Sorted(Entries(row))
  {
    var s := Entries(row);
    forall i, j | 0 <= i < j < |s| ensures s[i].key <= s[j].key { assert InOrder(row, i + 1, j + 1); }
  }
}
