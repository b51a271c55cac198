/** What holds over whole runs of the skip list: the structure of each level's
    own list, order and conservation of the entries, and refinement of the
    sorted-sequence reference by every sequence of operations. */
module SkipListRuns {
  import opened SkipList

  // ---------------------------------------------------------------------------
  // The list on one level
  // ---------------------------------------------------------------------------

  /** The nodes of a row that reach level `i`, in order. */
  ghost function Level(row: seq<Node>, i: nat): seq<Node> {
    if row == [] then []
    else
      var n := row[|row| - 1];
      Level(row[..|row| - 1], i) + (if n.height > i then [n] else [])
  }

  /** Following the pointers of level `i` from the first node visits all of `l`. */
  ghost predicate Walks(l: seq<Node>, i: nat)
    reads l
  {
    forall j :: 0 <= j < |l| - 1 ==> i < |l[j].next| && l[j].next[i] == l[j + 1]
  }

  lemma {:induction false} LevelGap(row: seq<Node>, i: nat, m: nat, p: nat)
    requires m <= p <= |row| && forall q :: m <= q < p ==> row[q].height <= i
    ensures Level(row[..p], i) == Level(row[..m], i)
    decreases p
  {
    if m < p {
      LevelGap(row, i, m, p - 1);
      assert row[..p][..p - 1] == row[..p - 1];
    }
  }

  lemma {:induction false} LevelPrefix(row: seq<Node>, i: nat, p: nat)
    requires Shape(row) && Ascending(row) && Linked(row) && p < |row| && i < row[p].height
    ensures var l := Level(row[..p + 1], i);
      && |l| >= 1 && l[0] == row[0] && l[|l| - 1] == row[p] && Walks(l, i)
      && (forall j :: 1 <= j < |l| ==> p > 0 && l[j].entry.key <= row[p].entry.key)
      && Ascending(l)
      && (p > 0 ==> |l| >= 2)
    decreases p
  {
    var l := Level(row[..p + 1], i);
    assert row[..p + 1][..p] == row[..p];
    if p == 0 {
      assert row[..0] == [];
    } else {
      var m := Pred(row, p, i);
      LevelPrefix(row, i, m);
      LevelGap(row, i, m + 1, p);
      var l' := Level(row[..m + 1], i);
      assert l == l' + [row[p]];
      assert PointsRight(row, m, i);
      assert m >= 1 ==> InOrder(row, m, p);
      AscendingMore(l', row[p]);
    }
  }

  lemma AscendingMore(l: seq<Node>, n: Node)
    requires Ascending(l) && forall j :: 1 <= j < |l| ==> l[j].entry.key <= n.entry.key
    ensures Ascending(l + [n])
  {
    forall a, b | 1 <= a < b < |l + [n]| ensures InOrder(l + [n], a, b) {
      if b < |l| { assert InOrder(l, a, b); }
    }
  }

  lemma {:induction false} LevelOfLevel(row: seq<Node>, i: nat)
    ensures Level(Level(row, i), i + 1) == Level(row, i + 1)
  {
    if row != [] {
      var n := row[|row| - 1];
      LevelOfLevel(row[..|row| - 1], i);
      var l := Level(row[..|row| - 1], i);
      if n.height > i {
        assert (l + [n])[..|l|] == l;
        assert Level(l + [n], i + 1) == Level(l, i + 1) + (if n.height > i + 1 then [n] else []);
      } else {
        assert l + [] == l;
      }
    }
  }

  lemma EmptyLevel(row: seq<Node>, i: nat, m: nat)
    requires Shape(row) && Bounded(row, m) && m <= i < MAX_LEVEL
    ensures Level(row, i) == [row[0], row[|row| - 1]]
  {
    LevelGap(row, i, 1, |row| - 1);
    assert row[..1][..0] == [];
  }

  lemma LevelWalks(row: seq<Node>, i: nat)
    requires Shape(row) && Ascending(row) && Linked(row) && i < MAX_LEVEL
    ensures var l := Level(row, i);
      |l| >= 2 && l[0] == row[0] && l[|l| - 1] == row[|row| - 1] && Walks(l, i) && Ascending(l)
  {
    LevelPrefix(row, i, |row| - 1);
    assert row[..|row|] == row;
  }

  /** On every level of a well-formed list: the pointers walk from head to tail
      through exactly the nodes of that height, keys ascend, the next level up is
      the sub-list of the nodes that reach it, and unused levels are empty. */
  lemma LevelStructure(list: SkipListMap, i: nat)
    requires list.Structured() && i < MAX_LEVEL
    ensures var l := Level(list.row, i);
      && |l| >= 2 && l[0] == list.head && l[|l| - 1] == list.tail
      && Walks(l, i) && Ascending(l)
      && Level(l, i + 1) == Level(list.row, i + 1)
      && (i >= list.maxLevel ==> l == [list.head, list.tail])
      && (i == 0 ==> l == list.row)
  {
    LevelWalks(list.row, i);
    LevelOfLevel(list.row, i);
    if i >= list.maxLevel { EmptyLevel(list.row, i, list.maxLevel); }
    if i == 0 { LevelZero(list.row); }
  }

  lemma {:induction false} LevelZero(row: seq<Node>)
    requires forall p :: 0 <= p < |row| ==> row[p].height >= 1
    ensures Level(row, 0) == row
  {
    if row != [] {
      LevelZero(row[..|row| - 1]);
      assert row == row[..|row| - 1] + [row[|row| - 1]];
    }
  }

  // ---------------------------------------------------------------------------
  // The reference on sequences of operations
  // ---------------------------------------------------------------------------

  datatype Op =
    | Add(ins: Insertion)
    | Remove(key: int)
    | Pop(bound: int)
    | DrainWith(bound: int, plan: nat -> seq<Insertion>)

  datatype Outcome = Added | Removed(found: bool) | Popped(values: seq<nat>)

  ghost predicate Legal(op: Op, maxKey: int) {
    match op
    case Add(ins) => LegalInsertions([ins], maxKey)
    case Remove(key) => key < maxKey
    case Pop(bound) => bound < maxKey
    case DrainWith(bound, plan) => bound < maxKey && forall c :: LegalInsertions(plan(c), maxKey)
  }

  ghost function After(s: seq<Entry>, op: Op): seq<Entry> {
    match op
    case Add(ins) => Insert(s, ins.entry)
    case Remove(key) => Erase(s, key)
    case Pop(bound) => s[UpTo(s, bound)..]
    case DrainWith(bound, plan) => InsertAll(s[UpTo(s, bound)..], Planned(plan, UpTo(s, bound)))
  }

  ghost function Answer(s: seq<Entry>, op: Op): Outcome {
    match op
    case Add(_) => Added
    case Remove(key) => Removed(HasKey(s, key))
    case Pop(bound) => Popped(Values(s[..UpTo(s, bound)]))
    case DrainWith(bound, _) => Popped(Values(s[..UpTo(s, bound)]))
  }

  ghost function AfterAll(ops: seq<Op>): seq<Entry> {
    if ops == [] then [] else After(AfterAll(ops[..|ops| - 1]), ops[|ops| - 1])
  }

  /** Every run of the pointer structure gives the reference's contents and answers. */
  method Run(ops: seq<Op>, minKey: int, maxKey: int) returns (list: SkipListMap, answers: seq<Outcome>)
    requires forall k :: 0 <= k < |ops| ==> Legal(ops[k], maxKey)
    ensures list.Valid() && list.Contents() == AfterAll(ops)
    ensures |answers| == |ops| && Answered(answers, ops)
  {
    list := new SkipListMap(minKey, maxKey);
    answers := [];
    for k := 0 to |ops|
      invariant list.Valid() && list.maxKey == maxKey && fresh(list) && fresh(Nodes(list.row))
      invariant list.Contents() == AfterAll(ops[..k])
      invariant |answers| == k && Answered(answers, ops)
    {
      AfterOneMore(ops, k);
      var a := Perform(list, ops[k]);
      AnsweredMore(answers, a, ops);
      answers := answers + [a];
    }
    assert ops[..|ops|] == ops;
  }

  /** The answers so far are the reference's. */
  ghost predicate Answered(answers: seq<Outcome>, ops: seq<Op>) {
    |answers| <= |ops| && forall k :: 0 <= k < |answers| ==> answers[k] == Answer(AfterAll(ops[..k]), ops[k])
  }

  lemma AnsweredMore(answers: seq<Outcome>, a: Outcome, ops: seq<Op>)
    requires Answered(answers, ops) && |answers| < |ops|
    requires a == Answer(AfterAll(ops[..|answers|]), ops[|answers|])
    ensures Answered(answers + [a], ops)
  {
  }

  lemma AfterOneMore(ops: seq<Op>, k: nat)
    requires k < |ops|
    ensures AfterAll(ops[..k + 1]) == After(AfterAll(ops[..k]), ops[k])
  {
    assert ops[..k + 1][..k] == ops[..k];
  }

  method Perform(list: SkipListMap, op: Op) returns (a: Outcome)
    requires list.Valid() && Legal(op, list.maxKey)
    modifies list, Nodes(list.row)
    ensures list.Valid() && fresh(Nodes(list.row) - Nodes(old(list.row)))
    ensures list.Contents() == After(old(list.Contents()), op) && a == Answer(old(list.Contents()), op)
  {
    match op
    case Add(ins) =>
      assert [ins][0] == ins;
      var cur := list.Emplace(ins.entry, ins.level);
      a := Added;
    case Remove(key) =>
      var found := list.EraseOne(key);
      a := Removed(found);
    case Pop(bound) =>
      var values := list.PopLessEq(bound);
      a := Popped(values);
    case DrainWith(bound, plan) =>
      var values := list.DoLessEqThenPop(bound, plan);
      a := Popped(values);
  }

  // ---------------------------------------------------------------------------
  // Order and conservation of the reference
  // ---------------------------------------------------------------------------

  /** Entries an operation takes out, in the state it meets. */
  ghost function TakenOut(s: seq<Entry>, op: Op): seq<Entry> {
    match op
    case Add(_) => []
    case Remove(key) => if HasKey(s, key) && Below(s, key) < |s| then [s[Below(s, key)]] else []
    case Pop(bound) => s[..UpTo(s, bound)]
    case DrainWith(bound, _) => s[..UpTo(s, bound)]
  }

  ghost function EntriesOf(ins: seq<Insertion>): seq<Entry> {
    if ins == [] then [] else EntriesOf(ins[..|ins| - 1]) + [ins[|ins| - 1].entry]
  }

  /** Entries an operation puts in. */
  ghost function PutIn(s: seq<Entry>, op: Op): seq<Entry> {
    match op
    case Add(ins) => [ins.entry]
    case Remove(_) => []
    case Pop(_) => []
    case DrainWith(bound, plan) => EntriesOf(Planned(plan, UpTo(s, bound)))
  }

  ghost function AllTakenOut(ops: seq<Op>): seq<Entry> {
    if ops == [] then []
    else AllTakenOut(ops[..|ops| - 1]) + TakenOut(AfterAll(ops[..|ops| - 1]), ops[|ops| - 1])
  }

  ghost function AllPutIn(ops: seq<Op>): seq<Entry> {
    if ops == [] then []
    else AllPutIn(ops[..|ops| - 1]) + PutIn(AfterAll(ops[..|ops| - 1]), ops[|ops| - 1])
  }

  /** Insertion keeps the order, adds one entry, and puts it before its equals. */
  lemma InsertPlace(s: seq<Entry>, e: Entry)
    requires Sorted(s)
    ensures Sorted(Insert(s, e)) && multiset(Insert(s, e)) == multiset(s) + multiset{e}
    ensures exists k :: (0 <= k <= |s| && Insert(s, e) == s[..k] + [e] + s[k..]
                         && forall i :: 0 <= i < |s| ==> (i < k <==> s[i].key < e.key))
  {
    var k := Below(s, e.key);
    assert s == s[..k] + s[k..];
    assert Insert(s, e) == s[..k] + [e] + s[k..];
    assert multiset(Insert(s, e)) == multiset(s[..k]) + multiset{e} + multiset(s[k..]);
  }

  lemma {:induction false} InsertAllPlace(s: seq<Entry>, ins: seq<Insertion>)
    requires Sorted(s)
    ensures Sorted(InsertAll(s, ins))
    ensures multiset(InsertAll(s, ins)) == multiset(s) + multiset(EntriesOf(ins))
  {
    if ins != [] {
      InsertAllPlace(s, ins[..|ins| - 1]);
      InsertPlace(InsertAll(s, ins[..|ins| - 1]), ins[|ins| - 1].entry);
    }
  }

  lemma BelowFindsKey(s: seq<Entry>, key: int)
    requires Sorted(s)
    ensures HasKey(s, key) <==> Below(s, key) < |s| && s[Below(s, key)].key == key
  {
  }

  lemma SplitCounts(s: seq<Entry>, n: nat)
    requires n <= |s|
    ensures multiset(s) == multiset(s[..n]) + multiset(s[n..])
  {
    assert s == s[..n] + s[n..];
  }

  lemma RemoveConserves(s: seq<Entry>, key: int)
    requires Sorted(s)
    ensures Sorted(Erase(s, key))
    ensures multiset(Erase(s, key)) + multiset(TakenOut(s, Remove(key))) == multiset(s)
  {
    BelowFindsKey(s, key);
    var n := Below(s, key);
    if HasKey(s, key) {
      SplitCounts(s, n);
      assert s[n..] == [s[n]] + s[n + 1..];
      assert multiset(s[n..]) == multiset{s[n]} + multiset(s[n + 1..]);
    }
  }

  lemma DrainConserves(s: seq<Entry>, bound: int, plan: nat -> seq<Insertion>)
    requires Sorted(s)
    ensures var op := DrainWith(bound, plan);
      && Sorted(After(s, op))
      && multiset(After(s, op)) + multiset(TakenOut(s, op)) == multiset(s) + multiset(PutIn(s, op))
  {
    var n := UpTo(s, bound);
    SplitCounts(s, n);
    InsertAllPlace(s[n..], Planned(plan, n));
  }

  lemma StepConserves(s: seq<Entry>, op: Op)
    requires Sorted(s)
    ensures Sorted(After(s, op))
    ensures multiset(After(s, op)) + multiset(TakenOut(s, op)) == multiset(s) + multiset(PutIn(s, op))
  {
    match op
    case Add(ins) => InsertPlace(s, ins.entry);
    case Remove(key) => RemoveConserves(s, key);
    case Pop(bound) => SplitCounts(s, UpTo(s, bound));
    case DrainWith(bound, plan) => DrainConserves(s, bound, plan);
  }

  /** Over every run the contents stay sorted, and no entry is lost or doubled:
      what is in the list and what was taken out is exactly what was put in. */
  lemma {:induction false} RunConserves(ops: seq<Op>)
    ensures Sorted(AfterAll(ops))
    ensures multiset(AfterAll(ops)) + multiset(AllTakenOut(ops)) == multiset(AllPutIn(ops))
  {
    if ops != [] {
      var prev, op := ops[..|ops| - 1], ops[|ops| - 1];
      RunConserves(prev);
      StepConserves(AfterAll(prev), op);
      Balance(AfterAll(prev), After(AfterAll(prev), op), AllTakenOut(prev), TakenOut(AfterAll(prev), op),
              AllPutIn(prev), PutIn(AfterAll(prev), op));
    }
  }

  lemma Balance(s: seq<Entry>, s': seq<Entry>, o: seq<Entry>, o': seq<Entry>, i: seq<Entry>, i': seq<Entry>)
    requires multiset(s) + multiset(o) == multiset(i)
    requires multiset(s') + multiset(o') == multiset(s) + multiset(i')
    ensures multiset(s') + multiset(o + o') == multiset(i + i')
  {
    calc {
      multiset(s') + multiset(o + o');
      (multiset(s') + multiset(o')) + multiset(o);
      (multiset(s) + multiset(o)) + multiset(i');
      multiset(i + i');
    }
  }

  /** A drain takes out exactly the entries up to the bound that were there before
      it; entries inserted meanwhile stay, even those with keys up to the bound. */
  lemma DrainExact(s: seq<Entry>, bound: int, plan: nat -> seq<Insertion>)
    requires Sorted(s)
    ensures var op := DrainWith(bound, plan);
      && (forall i :: 0 <= i < |s| ==> (s[i].key <= bound <==> i < |TakenOut(s, op)|))
      && TakenOut(s, op) <= s
      && multiset(After(s, op)) == multiset(s[|TakenOut(s, op)|..]) + multiset(EntriesOf(Planned(plan, |TakenOut(s, op)|)))
  {
    InsertAllPlace(s[UpTo(s, bound)..], Planned(plan, UpTo(s, bound)));
  }
}
