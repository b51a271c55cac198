/** The ring under two threads: every load, slot access and index store of the
    producer and of the consumer is one atomic step, in any interleaving. */
module RingProtocol {
  import opened Words
  import opened RingIndices

  /** Where the producer is inside `emplace` (spinning) or `try_emplace`. */
  datatype Producer =
    | Outside
    | HasIndex(value: nat, w: nat, spin: bool)
    | SawRoom(value: nat, w: nat)
    | Built(value: nat, w: nat)

  /** Where the consumer is inside `front`/`pop` or `batch_out`. */
  datatype Consumer =
    | Away
    | HasRead(r: nat, batch: bool)
    | AtFront(r: nat)
    | Seen(r: nat, item: nat)
    | Destroyed(r: nat, item: nat)
    | Copying(r: nat, w: nat, entries: nat, copied: seq<nat>)

  datatype State = State(
    slots: seq<nat>,
    indexWrite: nat,
    indexRead: nat,
    prod: Producer,
    cons: Consumer,
    produced: seq<nat>,
    consumed: seq<nat>)

  datatype Action =
    | LoadWrite(value: nat, spin: bool)
    | CheckRoom
    | Build
    | Publish
    | LoadRead(batch: bool)
    | CheckEntries
    | ReadFront
    | Destroy(junk: nat)
    | Release
    | CopyOne

  predicate Enabled(s: State, a: Action) {
    match a
    case LoadWrite(_, _) => s.prod.Outside?
    case CheckRoom => s.prod.HasIndex?
    case Build => s.prod.SawRoom?
    case Publish => s.prod.Built?
    case LoadRead(_) => s.cons.Away?
    case CheckEntries => s.cons.HasRead?
    case ReadFront => s.cons.AtFront?
    case Destroy(_) => s.cons.Seen?
    case Release => s.cons.Destroyed? || (s.cons.Copying? && |s.cons.copied| == s.cons.entries)
    case CopyOne => s.cons.Copying? && |s.cons.copied| < s.cons.entries
  }

  function Put(slots: seq<nat>, at: int, v: nat): (r: seq<nat>)
    ensures |r| == |slots|
  {
    if 0 <= at < |slots| then slots[at := v] else slots
  }

  function Get(slots: seq<nat>, at: int): nat {
    if 0 <= at < |slots| then slots[at] else 0
  }

  function Masked(x: nat, cap: nat): nat
    requires cap > 0
  {
    BitAnd(x, Mask(cap))
  }

  function ProducerStep(s: State, a: Action): State
    requires Enabled(s, a) && |s.slots| > 0
  {
    match a
    case LoadWrite(v, spin) => s.(prod := HasIndex(v, s.indexWrite, spin))
    case CheckRoom =>
      if Wrap((Mask(|s.slots|) + s.indexRead) as int - s.prod.w) != 0 then s.(prod := SawRoom(s.prod.value, s.prod.w))
      else if s.prod.spin then s
      else s.(prod := Outside)
    case Build =>
      s.(slots := Put(s.slots, Masked(s.prod.w, |s.slots|), s.prod.value), prod := Built(s.prod.value, s.prod.w))
    case Publish =>
      s.(indexWrite := Wrap(s.prod.w + 1), produced := s.produced + [s.prod.value], prod := Outside)
    case _ => s
  }

  function ConsumerStep(s: State, a: Action): State
    requires Enabled(s, a) && |s.slots| > 0
  {
    var cap := |s.slots|;
    match a
    case LoadRead(batch) => s.(cons := HasRead(s.indexRead, batch))
    case CheckEntries =>
      var entries := Wrap(s.indexWrite as int - s.cons.r);
      if entries == 0 then s.(cons := Away)
      else if s.cons.batch then s.(cons := Copying(s.cons.r, s.indexWrite, entries, []))
      else s.(cons := AtFront(s.cons.r))
    case ReadFront => s.(cons := Seen(s.cons.r, Get(s.slots, Masked(s.cons.r, cap))))
    case Destroy(junk) =>
      s.(slots := Put(s.slots, Masked(s.cons.r, cap), junk), cons := Destroyed(s.cons.r, s.cons.item))
    case CopyOne =>
      var at := BatchSlot(cap, Masked(s.cons.r, cap), Masked(s.cons.w, cap), |s.cons.copied|);
      s.(cons := s.cons.(copied := s.cons.copied + [Get(s.slots, at)]))
    case Release =>
      if s.cons.Destroyed? then
        s.(indexRead := Wrap(s.cons.r + 1), consumed := s.consumed + [s.cons.item], cons := Away)
      else
        s.(indexRead := Wrap(s.cons.r + s.cons.entries), consumed := s.consumed + s.cons.copied, cons := Away)
    case _ => s
  }

  function Step(s: State, a: Action): State
    requires Enabled(s, a) && |s.slots| > 0
  {
    match a
    case LoadWrite(_, _) => ProducerStep(s, a)
    case CheckRoom => ProducerStep(s, a)
    case Build => ProducerStep(s, a)
    case Publish => ProducerStep(s, a)
    case _ => ConsumerStep(s, a)
  }

  ghost predicate Init(s: State, k: nat) {
    && |s.slots| == Pow2(k) && s.indexWrite == s.indexRead == 0
    && s.prod == Outside && s.cons == Away && s.produced == s.consumed == []
  }

  /** The states of a run: `trace[i + 1]` follows `trace[i]` by some action. */
  ghost predicate IsRun(trace: seq<State>, k: nat) {
    && |trace| > 0 && Init(trace[0], k)
    && (forall i :: 0 <= i < |trace| - 1 ==> Follows(trace[i], trace[i + 1]))
  }

  ghost predicate Follows(s: State, t: State) {
    exists a :: Enabled(s, a) && |s.slots| > 0 && t == Step(s, a)
  }

  // ---------------------------------------------------------------------------
  // The invariant
  // ---------------------------------------------------------------------------

  ghost predicate Indexed(s: State, k: nat) {
    && IsOrder(k) && |s.slots| == Pow2(k) >= 2
    && |s.consumed| <= |s.produced| <= |s.consumed| + |s.slots| - 1
    && s.consumed == s.produced[..|s.consumed|]
    && s.indexWrite == Wrap(|s.produced|) && s.indexRead == Wrap(|s.consumed|)
  }

  /** The first slot whose content matters: a destroyed front is no longer read. */
  ghost function Front(s: State): nat {
    |s.consumed| + if s.cons.Destroyed? then 1 else 0
  }

  ghost predicate Holds(s: State, j: nat)
    requires j < |s.produced| && |s.slots| > 0
  {
    s.slots[Slot(j, |s.slots|)] == s.produced[j]
  }

  ghost predicate Filled(s: State)
    requires |s.slots| > 0
  {
    forall j :: Front(s) <= j < |s.produced| ==> Holds(s, j)
  }

  ghost predicate ProducerOk(s: State)
    requires |s.slots| > 0
  {
    match s.prod
    case Outside => true
    case HasIndex(_, w, _) => w == s.indexWrite
    case SawRoom(_, w) => w == s.indexWrite && |s.produced| - |s.consumed| < |s.slots| - 1
    case Built(v, w) =>
      && w == s.indexWrite && |s.produced| - |s.consumed| < |s.slots| - 1
      && s.slots[Slot(|s.produced|, |s.slots|)] == v
  }

  ghost predicate ConsumerOk(s: State) {
    match s.cons
    case Away => true
    case HasRead(r, _) => r == s.indexRead
    case AtFront(r) => r == s.indexRead && |s.consumed| < |s.produced|
    case Seen(r, v) => r == s.indexRead && |s.consumed| < |s.produced| && v == s.produced[|s.consumed|]
    case Destroyed(r, v) => r == s.indexRead && |s.consumed| < |s.produced| && v == s.produced[|s.consumed|]
    case Copying(r, w, n, copied) =>
      && r == s.indexRead && 0 < n && |s.consumed| + n <= |s.produced| && w == Wrap(|s.consumed| + n)
      && |copied| <= n && copied == s.produced[|s.consumed|..|s.consumed| + |copied|]
  }

  ghost predicate Inv(s: State, k: nat) {
    Indexed(s, k) && Filled(s) && ProducerOk(s) && ConsumerOk(s)
  }

  lemma InitHolds(s: State, k: nat)
    requires Init(s, k) && IsOrder(k)
    ensures Inv(s, k)
  {
    CapacityDividesWord(k);
  }

  /** The room the producer computes is exact for the moment it reads the index. */
  lemma RoomIsExact(s: State, k: nat)
    requires Inv(s, k) && s.prod.HasIndex?
    ensures Wrap((Mask(|s.slots|) + s.indexRead) as int - s.prod.w) == |s.slots| - 1 - (|s.produced| - |s.consumed|)
  {
    CapacityDividesWord(k);
    WrappedDifference(|s.consumed|, |s.produced|, |s.slots| - 1);
  }

  lemma EntriesAreExact(s: State, k: nat)
    requires Inv(s, k) && s.cons.HasRead?
    ensures Wrap(s.indexWrite as int - s.cons.r) == |s.produced| - |s.consumed|
  {
    CapacityDividesWord(k);
    WrappedDifference(|s.produced|, |s.consumed|, 0);
  }

  /** The slot the producer constructs into holds no entry still to be consumed. */
  lemma BuildsIntoFreeSlot(s: State, k: nat, j: nat)
    requires Inv(s, k) && s.prod.SawRoom? && |s.consumed| <= j < |s.produced|
    ensures Masked(s.prod.w, |s.slots|) == Slot(|s.produced|, |s.slots|) != Slot(j, |s.slots|)
  {
    SlotOfCount(k, |s.produced|);
    SlotsDiffer(j, |s.produced|, |s.slots|);
  }

  lemma BuildKeeps(s: State, k: nat)
    requires Inv(s, k) && s.prod.SawRoom?
    ensures Inv(Step(s, Build), k)
  {
    var t := Step(s, Build);
    SlotOfCount(k, |s.produced|);
    forall j | Front(t) <= j < |t.produced| ensures Holds(t, j) {
      assert Holds(s, j);
      BuildsIntoFreeSlot(s, k, j);
    }
  }

  lemma PublishKeeps(s: State, k: nat)
    requires Inv(s, k) && s.prod.Built?
    ensures Inv(Step(s, Publish), k)
  {
    var t := Step(s, Publish);
    WrapNext(|s.produced|, 1);
    forall j | Front(t) <= j < |t.produced| ensures Holds(t, j) {
      if j < |s.produced| { assert Holds(s, j); }
    }
  }

  lemma ProducerKeeps(s: State, k: nat, a: Action)
    requires Inv(s, k) && Enabled(s, a) && (a.LoadWrite? || a.CheckRoom?)
    ensures Inv(Step(s, a), k)
  {
    if a.CheckRoom? { RoomIsExact(s, k); }
    var t := Step(s, a);
    assert forall j {:trigger Holds(t, j)} :: Front(t) <= j < |t.produced| ==> Holds(s, j);
  }

  lemma SameSlotsKeep(s: State, t: State)
    requires |s.slots| > 0 && Filled(s) && t.slots == s.slots && t.produced == s.produced && Front(t) >= Front(s)
    ensures Filled(t)
  {
    forall j | Front(t) <= j < |t.produced| ensures Holds(t, j) { assert Holds(s, j); }
  }

  lemma LookKeeps(s: State, k: nat, a: Action)
    requires Inv(s, k) && Enabled(s, a) && (a.LoadRead? || a.CheckEntries? || a.ReadFront?)
    ensures Inv(Step(s, a), k)
  {
    if a.CheckEntries? { EntriesAreExact(s, k); }
    if a.ReadFront? {
      SlotOfCount(k, |s.consumed|);
      assert Holds(s, |s.consumed|);
    }
    SameSlotsKeep(s, Step(s, a));
  }

  lemma DestroyKeeps(s: State, k: nat, junk: nat)
    requires Inv(s, k) && s.cons.Seen?
    ensures Inv(Step(s, Destroy(junk)), k)
  {
    var t := Step(s, Destroy(junk));
    SlotOfCount(k, |s.consumed|);
    forall j | Front(t) <= j < |t.produced| ensures Holds(t, j) {
      assert Holds(s, j);
      SlotsDiffer(|s.consumed|, j, |s.slots|);
    }
    if s.prod.Built? { SlotsDiffer(|s.consumed|, |s.produced|, |s.slots|); }
  }

  /** The bulk copy reads the next entry in order, across the wrap-around. */
  lemma CopyReadsNext(s: State, k: nat)
    requires Inv(s, k) && Enabled(s, CopyOne)
    ensures var c, cap := s.cons, |s.slots|;
      Get(s.slots, BatchSlot(cap, Masked(c.r, cap), Masked(c.w, cap), |c.copied|)) ==
      s.produced[|s.consumed| + |c.copied|]
  {
    var c := s.cons;
    SlotOfCount(k, |s.consumed|);
    SlotOfCount(k, |s.consumed| + c.entries);
    BatchSlots(|s.slots|, |s.consumed|, c.entries, |c.copied|);
    assert Holds(s, |s.consumed| + |c.copied|);
  }

  lemma CopyKeeps(s: State, k: nat)
    requires Inv(s, k) && Enabled(s, CopyOne)
    ensures Inv(Step(s, CopyOne), k)
  {
    CopyReadsNext(s, k);
    SameSlotsKeep(s, Step(s, CopyOne));
  }

  lemma ReleaseKeeps(s: State, k: nat)
    requires Inv(s, k) && Enabled(s, Release)
    ensures Inv(Step(s, Release), k)
  {
    var n := if s.cons.Destroyed? then 1 else s.cons.entries;
    WrapNext(|s.consumed|, n);
    SameSlotsKeep(s, Step(s, Release));
  }

  lemma StepKeeps(s: State, k: nat, a: Action)
    requires Inv(s, k) && Enabled(s, a)
    ensures Inv(Step(s, a), k)
  {
    match a
    case LoadWrite(_, _) => ProducerKeeps(s, k, a);
    case CheckRoom => ProducerKeeps(s, k, a);
    case Build => BuildKeeps(s, k);
    case Publish => PublishKeeps(s, k);
    case LoadRead(_) => LookKeeps(s, k, a);
    case CheckEntries => LookKeeps(s, k, a);
    case ReadFront => LookKeeps(s, k, a);
    case Destroy(junk) => DestroyKeeps(s, k, junk);
    case CopyOne => CopyKeeps(s, k);
    case Release => ReleaseKeeps(s, k);
  }

  lemma {:induction false} RunKeeps(trace: seq<State>, k: nat)
    requires IsRun(trace, k) && IsOrder(k)
    ensures Inv(trace[|trace| - 1], k)
    decreases |trace|
  {
    if |trace| == 1 {
      InitHolds(trace[0], k);
    } else {
      var n := |trace| - 2;
      RunKeeps(trace[..n + 1], k);
      assert Follows(trace[n], trace[n + 1]);
      var a :| Enabled(trace[n], a) && |trace[n].slots| > 0 && trace[n + 1] == Step(trace[n], a);
      StepKeeps(trace[n], k, a);
    }
  }

  /** In every reachable state: consumed entries are a prefix of the produced ones,
      at most capacity - 1 entries are inside, what is inside lies in the slots in
      order, and a pending construction goes to a slot outside that window. */
  lemma RunIsFifo(trace: seq<State>, k: nat)
    requires IsRun(trace, k) && IsOrder(k)
    ensures var s := trace[|trace| - 1];
      && |s.slots| == Pow2(k) > 0
      && s.consumed <= s.produced
      && |s.produced| - |s.consumed| <= Pow2(k) - 1
      && (!s.cons.Destroyed? ==>
            Window(s.slots, |s.consumed|, |s.produced| - |s.consumed|) == s.produced[|s.consumed|..])
      && (s.prod.SawRoom? ==> forall j :: |s.consumed| <= j < |s.produced| ==>
            Masked(s.prod.w, |s.slots|) != Slot(j, |s.slots|))
  {
    RunKeeps(trace, k);
    var s := trace[|trace| - 1];
    if !s.cons.Destroyed? {
      var inside := Window(s.slots, |s.consumed|, |s.produced| - |s.consumed|);
      forall j | 0 <= j < |inside| ensures inside[j] == s.produced[|s.consumed| + j] {
        assert Holds(s, |s.consumed| + j);
      }
    }
    if s.prod.SawRoom? {
      forall j | |s.consumed| <= j < |s.produced| ensures Masked(s.prod.w, |s.slots|) != Slot(j, |s.slots|) {
        BuildsIntoFreeSlot(s, k, j);
      }
    }
  }

  // ---------------------------------------------------------------------------
  // The ring is a queue
  // ---------------------------------------------------------------------------

  /** The entries a batch has claimed by its look at the write index. */
  ghost function Claimed(s: State): nat {
    if s.cons.Copying? then s.cons.entries else 0
  }

  /** What is published and neither consumed nor claimed. */
  ghost function Queue(s: State): seq<nat>
    requires |s.consumed| + Claimed(s) <= |s.produced|
  {
    s.produced[|s.consumed| + Claimed(s)..]
  }

  /** As a queue, the ring changes in three steps only: publishing appends the value, a
      batch's look at the write index takes everything there is, and the release of a front
      item removes it. A batch delivers exactly what it took. */
  lemma StepIsQueueStep(s: State, k: nat, a: Action)
    requires Inv(s, k) && Enabled(s, a)
    ensures |s.slots| > 0 && |s.consumed| + Claimed(s) <= |s.produced|
    ensures var t := Step(s, a);
      && |t.consumed| + Claimed(t) <= |t.produced|
      && (a == Publish ==> Queue(t) == Queue(s) + [s.prod.value])
      && (a == CheckEntries && s.cons.batch ==>
            Queue(t) == [] && t.produced[|t.consumed|..|t.consumed| + Claimed(t)] == Queue(s))
      && (a == Release && s.cons.Destroyed? ==> Queue(s) != [] && Queue(t) == Queue(s)[1..] && t.consumed == s.consumed + [Queue(s)[0]])
      && (a == Release && s.cons.Copying? ==>
            Queue(t) == Queue(s) && t.consumed == s.consumed + s.produced[|s.consumed|..|s.consumed| + Claimed(s)])
      && (a != Publish && a != Release && !(a == CheckEntries && s.cons.batch) ==> Queue(t) == Queue(s) && t.consumed == s.consumed)
  {
    if a == CheckEntries { EntriesAreExact(s, k); }
    else if a == Release { ReleaseDelivers(s, k); }
    else if a == Publish { PublishAppends(s, k); }
  }

  lemma PublishAppends(s: State, k: nat)
    requires Inv(s, k) && Enabled(s, Publish)
    ensures |s.slots| > 0 && |s.consumed| + Claimed(s) <= |s.produced|
    ensures var t := Step(s, Publish);
      |t.consumed| + Claimed(t) <= |t.produced| && Queue(t) == Queue(s) + [s.prod.value]
  {
  }

  lemma ReleaseDelivers(s: State, k: nat)
    requires Inv(s, k) && Enabled(s, Release)
    ensures |s.slots| > 0 && |s.consumed| + Claimed(s) <= |s.produced|
    ensures var t := Step(s, Release);
      && |t.consumed| + Claimed(t) <= |t.produced|
      && if s.cons.Destroyed? then
           Queue(s) != [] && Queue(t) == Queue(s)[1..] && t.consumed == s.consumed + [Queue(s)[0]]
         else
           Queue(t) == Queue(s) && t.consumed == s.consumed + s.produced[|s.consumed|..|s.consumed| + Claimed(s)]
  {
  }

  /** The consumer's look goes on exactly when something is published: to the front item, or
      to a batch of all there is. */
  lemma LookFindsFront(s: State, k: nat)
    requires Inv(s, k) && Enabled(s, CheckEntries)
    ensures var t, n := Step(s, CheckEntries), |s.produced| - |s.consumed|;
      && (t.cons.Away? <==> n == 0)
      && (t.cons.AtFront? <==> n > 0 && !s.cons.batch)
      && (t.cons.Copying? <==> n > 0 && s.cons.batch)
      && (t.cons.Copying? ==> t.cons.entries == n && t.cons.copied == [])
  {
    EntriesAreExact(s, k);
  }

  /** The producer's look goes on exactly when fewer than capacity - 1 items are inside;
      otherwise `emplace` looks again and `try_emplace` gives up. */
  lemma LookSeesRoom(s: State, k: nat)
    requires Inv(s, k) && Enabled(s, CheckRoom)
    ensures var t := Step(s, CheckRoom); var room := |s.produced| - |s.consumed| < Pow2(k) - 1;
      && (t.prod.SawRoom? <==> room)
      && (!room && s.prod.spin ==> t == s)
      && (!room && !s.prod.spin ==> t == s.(prod := Outside))
      && (t.prod.SawRoom? ==> t.prod.value == s.prod.value)
  {
    RoomIsExact(s, k);
  }
}
