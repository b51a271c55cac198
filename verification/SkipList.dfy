/** The timer's skip list: linked nodes with one forward pointer per level, a
    head and a tail sentinel, caller-supplied node heights in place of the
    source's random generator, and a drain whose callback inserts. */
module SkipList {
  const MAX_LEVEL: nat := 32

  /** What a node carries: a key and an opaque payload (a coroutine handle). */
  datatype Entry = Entry(key: int, value: nat)

  /** One `emplace` call: the height is what `random_level` returned. */
  datatype Insertion = Insertion(entry: Entry, level: nat)

  class Node {
    const entry: Entry
    const height: nat
    var next: seq<Node?>

    constructor (entry: Entry, height: nat)
      ensures this.entry == entry && this.height == height
      ensures next == seq(height, _ => null)
    {
      this.entry := entry;
      this.height := height;
      next := seq(height, _ => null);
    }
  }

  // ---------------------------------------------------------------------------
  // The reference: a sorted sequence of entries
  // ---------------------------------------------------------------------------

  ghost predicate Sorted(s: seq<Entry>) {
    forall i, j :: 0 <= i < j < |s| ==> s[i].key <= s[j].key
  }

  /** How many leading entries have a key below `key`. */
  ghost function Below(s: seq<Entry>, key: int): (n: nat)
    ensures n <= |s|
    ensures forall i :: 0 <= i < n ==> s[i].key < key
    ensures n < |s| ==> s[n].key >= key
  {
    if s == [] || s[0].key >= key then 0 else 1 + Below(s[1..], key)
  }

  /** How many leading entries have a key at most `key`. */
  ghost function UpTo(s: seq<Entry>, key: int): (n: nat)
    ensures n <= |s|
    ensures forall i :: 0 <= i < n ==> s[i].key <= key
    ensures n < |s| ==> s[n].key > key
  {
    if s == [] || s[0].key > key then 0 else 1 + UpTo(s[1..], key)
  }

  /** A new entry goes in front of the entries with the same key. */
  ghost function Insert(s: seq<Entry>, e: Entry): seq<Entry> {
    s[..Below(s, e.key)] + [e] + s[Below(s, e.key)..]
  }

  ghost predicate HasKey(s: seq<Entry>, key: int) {
    exists i :: 0 <= i < |s| && s[i].key == key
  }

  /** Removes the first entry with the given key, if there is one. */
  ghost function Erase(s: seq<Entry>, key: int): seq<Entry> {
    var n := Below(s, key);
    if n < |s| && s[n].key == key then s[..n] + s[n + 1..] else s
  }

  ghost function InsertAll(s: seq<Entry>, ins: seq<Insertion>): seq<Entry> {
    if ins == [] then s
    else Insert(InsertAll(s, ins[..|ins| - 1]), ins[|ins| - 1].entry)
  }

  function Values(s: seq<Entry>): (v: seq<nat>)
    ensures |v| == |s| && forall i :: 0 <= i < |s| ==> v[i] == s[i].value
  {
    seq(|s|, i requires 0 <= i < |s| => s[i].value)
  }

  // ---------------------------------------------------------------------------
  // Neighbours at one level of a row of nodes
  // ---------------------------------------------------------------------------

  /** Position of the next node after `p` that reaches level `i`. */
  ghost function Succ(row: seq<Node>, p: nat, i: nat): (r: nat)
    requires p < |row| - 1 && row[|row| - 1].height > i
    ensures p < r < |row| && row[r].height > i
    ensures forall q :: p < q < r ==> row[q].height <= i
    decreases |row| - p
  {
    if row[p + 1].height > i then p + 1 else Succ(row, p + 1, i)
  }

  /** Position of the last node before `k` that reaches level `i`. */
  ghost function Pred(row: seq<Node>, k: nat, i: nat): (r: nat)
    requires 0 < k <= |row| && row[0].height > i
    ensures r < k && row[r].height > i
    ensures forall q :: r < q < k ==> row[q].height <= i
  {
    if row[k - 1].height > i then k - 1 else Pred(row, k - 1, i)
  }

  /** Sentinels of full height at both ends, legal heights between. */
  ghost predicate Shape(row: seq<Node>) {
    && |row| >= 2
    && row[0].height == row[|row| - 1].height == MAX_LEVEL
    && (forall p :: 0 <= p < |row| ==> 1 <= row[p].height <= MAX_LEVEL)
  }

  ghost predicate Differ(row: seq<Node>, p: nat, q: nat)
    requires p < |row| && q < |row|
  {
    row[p] != row[q]
  }

  ghost predicate Distinct(row: seq<Node>) {
    forall p, q {:trigger Differ(row, p, q)} :: 0 <= p < q < |row| ==> Differ(row, p, q)
  }

  ghost predicate InOrder(row: seq<Node>, p: nat, q: nat)
    requires p < |row| && q < |row|
  {
    row[p].entry.key <= row[q].entry.key
  }

  /** Keys ascend from the first element to the tail. */
  ghost predicate Ascending(row: seq<Node>) {
    forall p, q {:trigger InOrder(row, p, q)} :: 1 <= p < q < |row| ==> InOrder(row, p, q)
  }

  ghost predicate PointsRight(row: seq<Node>, p: nat, i: nat)
    requires Shape(row) && p < |row| - 1 && i < row[p].height && |row[p].next| == row[p].height
    reads row
  {
    row[p].next[i] == row[Succ(row, p, i)]
  }

  ghost predicate Sized(nodes: seq<Node>)
    reads nodes
  {
    forall p :: 0 <= p < |nodes| ==> |nodes[p].next| == nodes[p].height
  }

  /** Every forward pointer leads to the next node that reaches its level. */
  ghost predicate Linked(row: seq<Node>)
    requires Shape(row)
    reads row
  {
    && Sized(row)
    && (forall p, i :: 0 <= p < |row| - 1 && 0 <= i < row[p].height ==> PointsRight(row, p, i))
  }

  /** No element is higher than `m`. */
  ghost predicate Bounded(row: seq<Node>, m: nat) {
    forall p :: 1 <= p < |row| - 1 ==> row[p].height <= m
  }

  /** Some element is as high as `m`; an empty list counts as height 1. */
  ghost predicate Reached(row: seq<Node>, m: nat) {
    m > 1 ==> exists p :: 1 <= p < |row| - 1 && row[p].height == m
  }

  ghost function Entries(row: seq<Node>): (s: seq<Entry>)
    requires |row| >= 2
    ensures |s| == |row| - 2
    ensures forall i {:trigger s[i]} :: 0 <= i < |s| ==> s[i] == row[i + 1].entry
  {
    seq(|row| - 2, i requires 0 <= i < |row| - 2 => row[i + 1].entry)
  }

  /** `k` is the first position whose key is at least `key`. */
  ghost predicate IsLower(row: seq<Node>, key: int, k: nat) {
    && 1 <= k < |row|
    && (forall p :: 1 <= p < k ==> row[p].entry.key < key)
    && (forall p :: k <= p < |row| ==> row[p].entry.key >= key)
  }

  /** `k` is the first position whose key is above `key`. */
  ghost predicate IsUpper(row: seq<Node>, key: int, k: nat) {
    && 1 <= k < |row|
    && (forall p :: 1 <= p < k ==> row[p].entry.key <= key)
    && (forall p :: k <= p < |row| ==> row[p].entry.key > key)
  }

  /** The first position at or after `p` whose key is at least `key`. */
  ghost function LowerFrom(row: seq<Node>, key: int, p: nat): (k: nat)
    requires 1 <= p < |row| && row[|row| - 1].entry.key >= key
    ensures p <= k < |row| && row[k].entry.key >= key
    ensures forall q :: p <= q < k ==> row[q].entry.key < key
    decreases |row| - p
  {
    if row[p].entry.key >= key then p else LowerFrom(row, key, p + 1)
  }

  ghost function LowerPosition(row: seq<Node>, key: int): (k: nat)
    requires |row| >= 2 && Ascending(row) && row[|row| - 1].entry.key >= key
    ensures IsLower(row, key, k)
  {
    var k := LowerFrom(row, key, 1);
    assert forall q :: k <= q < |row| ==> row[q].entry.key >= key by {
      forall q | k < q < |row| ensures row[q].entry.key >= key { assert InOrder(row, k, q); }
    }
    k
  }

  ghost function UpperPosition(row: seq<Node>, key: int): (k: nat)
    requires |row| >= 2 && Ascending(row) && row[|row| - 1].entry.key > key
    ensures IsUpper(row, key, k)
  {
    LowerPosition(row, key + 1)
  }

  ghost function Nodes(row: seq<Node>): set<Node> {
    set n | n in row
  }

  ghost function InsertAt(row: seq<Node>, k: nat, n: Node): (r: seq<Node>)
    requires k <= |row|
    ensures |r| == |row| + 1
    ensures forall p {:trigger r[p]} :: 0 <= p < k ==> r[p] == row[p]
    ensures r[k] == n
    ensures forall p {:trigger r[p]} :: k < p < |r| ==> r[p] == row[p - 1]
  {
    row[..k] + [n] + row[k..]
  }

  ghost function RemoveAt(row: seq<Node>, k: nat): (r: seq<Node>)
    requires k < |row|
    ensures |r| == |row| - 1
    ensures forall p {:trigger r[p]} :: 0 <= p < k ==> r[p] == row[p]
    ensures forall p {:trigger r[p]} :: k <= p < |r| ==> r[p] == row[p + 1]
  {
    row[..k] + row[k + 1..]
  }

  /** The row after the nodes before position `k` were cut off behind the head. */
  ghost function Cut(row: seq<Node>, k: nat): (r: seq<Node>)
    requires 1 <= k < |row|
    ensures |r| == |row| - k + 1 && r[0] == row[0]
    ensures forall p {:trigger r[p]} :: 1 <= p < |r| ==> r[p] == row[p + k - 1]
  {
    [row[0]] + row[k..]
  }

  lemma SuccInsert(row: seq<Node>, k: nat, n: Node, p: nat, i: nat)
    requires Shape(row) && 1 <= k < |row| && p < |row| - 1 && i < MAX_LEVEL && i < row[p].height
    ensures var row' := InsertAt(row, k, n);
      if p < k then
        Succ(row', p, i) == if p == Pred(row, k, i) then (if i < n.height then k else Succ(row, p, i) + 1) else Succ(row, p, i)
      else Succ(row', p + 1, i) == Succ(row, p, i) + 1
    ensures p < k && p != Pred(row, k, i) ==> Succ(row, p, i) < k
    ensures p == Pred(row, k, i) ==> Succ(row, p, i) >= k
  {
    var row' := InsertAt(row, k, n);
    var s := Succ(row, p, i);
    assert row'[|row'| - 1] == row[|row| - 1];
    assert s >= k ==> row'[s + 1] == row[s];
    if p >= k {
      SuccUnique(row', p + 1, i, s + 1);
    } else if p == Pred(row, k, i) {
      SuccUnique(row', p, i, if i < n.height then k else s + 1);
    } else {
      SuccUnique(row', p, i, s);
    }
  }

  lemma SuccInsertNew(row: seq<Node>, k: nat, n: Node, i: nat)
    requires Shape(row) && 1 <= k < |row| && i < MAX_LEVEL
    ensures Succ(InsertAt(row, k, n), k, i) == Succ(row, Pred(row, k, i), i) + 1
  {
    var row' := InsertAt(row, k, n);
    var s := Succ(row, Pred(row, k, i), i);
    assert row'[s + 1] == row[s];
    assert row'[|row'| - 1] == row[|row| - 1];
    var s' := Succ(row', k, i);
    assert row'[s'] == row[s' - 1];
  }

  lemma SuccUnique(row: seq<Node>, p: nat, i: nat, r: nat)
    requires p < r < |row| && row[|row| - 1].height > i && row[r].height > i
    requires forall q :: p < q < r ==> row[q].height <= i
    ensures Succ(row, p, i) == r
  {
  }

  lemma SuccRemoveAfter(row: seq<Node>, k: nat, p: nat, i: nat)
    requires Shape(row) && 1 <= k < p < |row| - 1 && i < MAX_LEVEL
    ensures Succ(RemoveAt(row, k), p - 1, i) == Succ(row, p, i) - 1
  {
    var row' := RemoveAt(row, k);
    var s := Succ(row, p, i);
    assert row'[|row'| - 1] == row[|row| - 1] && row'[s - 1] == row[s];
    SuccUnique(row', p - 1, i, s - 1);
  }

  lemma SuccRemoveBefore(row: seq<Node>, k: nat, p: nat, i: nat)
    requires Shape(row) && p < k < |row| - 1 && i < row[p].height
    ensures var s := Succ(row, p, i);
      Succ(RemoveAt(row, k), p, i) == if s == k then Succ(row, k, i) - 1 else if s < k then s else s - 1
    ensures Succ(row, p, i) == k <==> i < row[k].height && p == Pred(row, k, i)
  {
    var row' := RemoveAt(row, k);
    var s := Succ(row, p, i);
    assert row'[|row'| - 1] == row[|row| - 1];
    if s < k {
      SuccUnique(row', p, i, s);
    } else {
      var t := if s == k then Succ(row, k, i) else s;
      assert row'[t - 1] == row[t];
      SuccUnique(row', p, i, t - 1);
    }
  }

  lemma SuccCut(row: seq<Node>, k: nat, p: nat, i: nat)
    requires Shape(row) && 1 <= k < |row| && i < MAX_LEVEL
    requires p == 0 || k <= p < |row| - 1
    ensures p == 0 ==> Succ(Cut(row, k), 0, i) == Succ(row, Pred(row, k, i), i) - k + 1
    ensures p != 0 ==> Succ(Cut(row, k), p - k + 1, i) == Succ(row, p, i) - k + 1
    ensures Succ(row, Pred(row, k, i), i) >= k
  {
    var row' := Cut(row, k);
    assert row'[|row'| - 1] == row[|row| - 1];
    var s := if p == 0 then Succ(row, Pred(row, k, i), i) else Succ(row, p, i);
    var s' := if p == 0 then Succ(row', 0, i) else Succ(row', p - k + 1, i);
    assert row'[s - k + 1] == row[s];
    assert row'[s'] == row[s' + k - 1];
  }

  lemma SuccLevelZero(row: seq<Node>, p: nat)
    requires Shape(row) && p < |row| - 1
    ensures Succ(row, p, 0) == p + 1
  {
  }

  /** A cut position in the row and a count in the entry sequence agree. */
  lemma LowerIsBelow(row: seq<Node>, key: int, k: nat)
    requires Shape(row) && IsLower(row, key, k)
    ensures Below(Entries(row), key) == k - 1
  {
    var n := Below(Entries(row), key);
    assert n < |row| - 2 ==> Entries(row)[n] == row[n + 1].entry;
    assert k < |row| - 1 ==> Entries(row)[k - 1] == row[k].entry;
  }

  lemma UpperIsUpTo(row: seq<Node>, key: int, k: nat)
    requires Shape(row) && IsUpper(row, key, k)
    ensures UpTo(Entries(row), key) == k - 1
  {
    var n := UpTo(Entries(row), key);
    assert n < |row| - 2 ==> Entries(row)[n] == row[n + 1].entry;
    assert k < |row| - 1 ==> Entries(row)[k - 1] == row[k].entry;
  }

  /** The linking loop of `emplace`: `cur` goes between `prevs` and their successors. */
  method LinkNode(cur: Node, prevs: seq<Node?>, ghost nodes: set<Node>)
    requires |cur.next| == cur.height && cur !in nodes && cur.height <= |prevs|
    requires forall n :: n in nodes ==> |n.next| == n.height
    requires forall i :: 0 <= i < cur.height ==> prevs[i] != null && prevs[i] in nodes && i < prevs[i].height
    modifies cur, nodes
    ensures |cur.next| == cur.height && forall n :: n in nodes ==> |n.next| == n.height
    ensures forall l :: 0 <= l < cur.height ==> cur.next[l] == old(prevs[l].next[l])
    ensures forall n, l {:trigger n.next[l]} :: n in nodes && 0 <= l < n.height ==>
      n.next[l] == if l < cur.height && n == prevs[l] then cur else old(n.next[l])
  {
    for i := cur.height downto 0
      invariant |cur.next| == cur.height && forall n :: n in nodes ==> |n.next| == n.height
      invariant forall l :: i <= l < cur.height ==> cur.next[l] == old(prevs[l].next[l])
      invariant forall n, l {:trigger n.next[l]} :: n in nodes && 0 <= l < n.height ==>
        n.next[l] == if i <= l < cur.height && n == prevs[l] then cur else old(n.next[l])
    {
      var prev := prevs[i];
      cur.next := cur.next[i := prev.next[i]];
      prev.next := prev.next[i := cur];
    }
  }

  /** The unlinking loop of `erase_one`: `prevs` skip over `del` on its levels. */
  method UnlinkNode(del: Node, prevs: seq<Node?>, ghost nodes: set<Node>)
    requires |del.next| == del.height <= |prevs| && del !in nodes
    requires forall n :: n in nodes ==> |n.next| == n.height
    requires forall i :: 0 <= i < del.height ==> prevs[i] != null && prevs[i] in nodes && i < prevs[i].height
    modifies nodes
    ensures forall n :: n in nodes ==> |n.next| == n.height
    ensures forall n, l {:trigger n.next[l]} :: n in nodes && 0 <= l < n.height ==>
      n.next[l] == if l < del.height && n == prevs[l] then del.next[l] else old(n.next[l])
  {
    for i := 0 to |del.next|
      invariant forall n :: n in nodes ==> |n.next| == n.height
      invariant forall n, l {:trigger n.next[l]} :: n in nodes && 0 <= l < n.height ==>
        n.next[l] == if l < i && n == prevs[l] then del.next[l] else old(n.next[l])
    {
      var prev := prevs[i];
      prev.next := prev.next[i := del.next[i]];
    }
  }

  /** The relinking loop of the drains: on every level in use the head takes over
      its predecessor's successor, and the predecessor becomes the end of a chain. */
  method DetachPrefix(head: Node, prevs: seq<Node?>, levels: nat, ghost nodes: set<Node>)
    requires head in nodes && levels <= head.height && levels <= |prevs|
    requires forall n :: n in nodes ==> |n.next| == n.height
    requires forall i :: 0 <= i < levels ==> prevs[i] != null && prevs[i] in nodes && i < prevs[i].height
    modifies nodes
    ensures forall n :: n in nodes ==> |n.next| == n.height
    ensures forall n, l {:trigger n.next[l]} :: n in nodes && 0 <= l < n.height ==>
      n.next[l] == if l < levels && n == head then old(prevs[l].next[l])
                   else if l < levels && n == prevs[l] then null else old(n.next[l])
  {
    for i := 0 to levels
      invariant forall n :: n in nodes ==> |n.next| == n.height
      invariant forall n, l {:trigger n.next[l]} :: n in nodes && 0 <= l < n.height ==>
        n.next[l] == if l < i && n == head then old(prevs[l].next[l])
                     else if l < i && n == prevs[l] then null else old(n.next[l])
    {
      var prev := prevs[i];
      head.next := head.next[i := prev.next[i]];
      if prev != head { prev.next := prev.next[i := null]; }
    }
  }

  /** The key found at the cut is present, or it is the tail's. */
  lemma LowerKey(row: seq<Node>, key: int, k: nat)
    requires |row| >= 2 && Ascending(row) && IsLower(row, key, k)
    ensures row[k].entry.key == key <==> HasKey(Entries(row), key) || key == row[|row| - 1].entry.key
  {
    var s := Entries(row);
    if row[k].entry.key == key && k < |row| - 1 { assert s[k - 1].key == key; }
    if HasKey(s, key) {
      var i :| 0 <= i < |s| && s[i].key == key;
      assert row[i + 1].entry.key == key;
      assert k < i + 1 ==> InOrder(row, k, i + 1);
    }
    if k < |row| - 1 { assert InOrder(row, k, |row| - 1); }
  }

  class SkipListMap {
    const head: Node
    const tail: Node
    const maxKey: int
    var maxLevel: nat
    var length: int
    /** head, the elements in order, tail */
    ghost var row: seq<Node>

    /** Structure of all levels; says nothing about `length`. */
    ghost predicate Structured()
      reads this, row
    {
      && Shape(row)
      && row[0] == head && row[|row| - 1] == tail && tail.entry.key == maxKey
      && Distinct(row) && Ascending(row)
      && Linked(row)
      && 1 <= maxLevel <= MAX_LEVEL
      && Bounded(row, maxLevel)
    }

    /** No level below `maxLevel` is empty, except that level 0 always counts. */
    ghost predicate Tight()
      reads this
    {
      Reached(row, maxLevel)
    }

    ghost predicate Valid()
      reads this, row
    {
      Structured() && length == |row| - 2 && Tight()
    }

    ghost function Contents(): (s: seq<Entry>)
      requires |row| >= 2
      reads this
    {
      Entries(row)
    }

    constructor (minKey: int, maxKey: int)
      ensures Valid() && fresh(Nodes(row)) && this.maxKey == maxKey
      ensures Contents() == []
    {
      var h := new Node(Entry(minKey, 0), MAX_LEVEL);
      var t := new Node(Entry(maxKey, 0), MAX_LEVEL);
      for i := MAX_LEVEL downto 0
        invariant |h.next| == MAX_LEVEL && |t.next| == MAX_LEVEL
        invariant forall l :: i <= l < MAX_LEVEL ==> h.next[l] == t
      {
        h.next := h.next[i := t];
      }
      head, tail, this.maxKey, maxLevel, length, row := h, t, maxKey, 1, 0, [h, t];
    }

    /** Predecessors, on every level in use, of the first key at least `key`. */
    method FindPrevs(key: int) returns (prevs: seq<Node?>, ghost k: nat)
      requires Structured() && key <= maxKey
      ensures IsLower(row, key, k)
      ensures |prevs| == MAX_LEVEL
      ensures forall i :: 0 <= i < maxLevel ==> prevs[i] == row[Pred(row, k, i)]
    {
      k := LowerPosition(row, key);
      var cur := head;
      ghost var c := 0;
      prevs := seq(MAX_LEVEL, _ => null);
      for i := maxLevel downto 0
        invariant |prevs| == MAX_LEVEL && 0 <= c < k && cur == row[c]
        invariant i == maxLevel ==> c == 0
        invariant i < maxLevel ==> row[c].height > i
        invariant forall l :: i <= l < maxLevel ==> prevs[l] == row[Pred(row, k, l)]
      {
        while assert PointsRight(row, c, i); key > cur.next[i].entry.key
          invariant 0 <= c < k && cur == row[c] && row[c].height > i
          decreases k - c
        {
          c := Succ(row, c, i);
          cur := cur.next[i];
        }
        prevs := prevs[i := cur];
        assert Succ(row, c, i) >= k;
        assert c == Pred(row, k, i);
      }
    }

    /** Predecessors, on every level in use, of the first key above `key`. */
    method FindUpperPrevs(key: int) returns (prevs: seq<Node?>, ghost k: nat)
      requires Structured() && key < maxKey
      ensures IsUpper(row, key, k)
      ensures |prevs| == MAX_LEVEL
      ensures forall i :: 0 <= i < maxLevel ==> prevs[i] == row[Pred(row, k, i)]
    {
      k := UpperPosition(row, key);
      var cur := head;
      ghost var c := 0;
      prevs := seq(MAX_LEVEL, _ => null);
      for i := maxLevel downto 0
        invariant |prevs| == MAX_LEVEL && 0 <= c < k && cur == row[c]
        invariant i == maxLevel ==> c == 0
        invariant i < maxLevel ==> row[c].height > i
        invariant forall l :: i <= l < maxLevel ==> prevs[l] == row[Pred(row, k, l)]
      {
        while assert PointsRight(row, c, i); key >= cur.next[i].entry.key
          invariant 0 <= c < k && cur == row[c] && row[c].height > i
          decreases k - c
        {
          c := Succ(row, c, i);
          cur := cur.next[i];
        }
        prevs := prevs[i := cur];
        assert Succ(row, c, i) >= k;
        assert c == Pred(row, k, i);
      }
    }

    /** Membership, exact except that the tail sentinel answers for `maxKey`. */
    method Contains(target: int) returns (found: bool)
      requires Structured() && target <= maxKey
      ensures found <==> HasKey(Contents(), target) || target == maxKey
    {
      ghost var k := LowerPosition(row, target);
      var cur := head;
      ghost var c := 0;
      for i := maxLevel downto 0
        invariant 0 <= c < k && cur == row[c]
        invariant i == maxLevel ==> c == 0
        invariant i < maxLevel ==> row[c].height > i
        invariant i == 0 ==> c == k - 1
      {
        while assert PointsRight(row, c, i); target > cur.next[i].entry.key
          invariant 0 <= c < k && cur == row[c] && row[c].height > i
          decreases k - c
        {
          c := Succ(row, c, i);
          cur := cur.next[i];
        }
        assert Succ(row, c, i) >= k;
        assert i == 0 ==> Succ(row, c, i) == c + 1;
      }
      assert PointsRight(row, c, 0);
      found := cur.next[0] != null && cur.next[0].entry.key == target;
      LowerKey(row, target, k);
    }

    /** `LinkNode` on the whole row. */
    method Splice(cur: Node, prevs: seq<Node?>, ghost k: nat)
      requires Shape(row) && Distinct(row) && Linked(row) && 1 <= k < |row| && cur !in row && Shape(InsertAt(row, k, cur))
      requires |cur.next| == cur.height && |prevs| == MAX_LEVEL
      requires forall i :: 0 <= i < cur.height ==> prevs[i] == row[Pred(row, k, i)]
      modifies cur, row
      ensures Linked(InsertAt(row, k, cur))
    {
      LinkNode(cur, prevs, Nodes(row));
      forall p, i | 0 <= p < |row| - 1 && 0 <= i < row[p].height
        ensures Spliced(row, k, cur, p, i)
      {
        assert old(PointsRight(row, p, i));
        ghost var m := Pred(row, k, i);
        assert p < m ==> Differ(row, p, m);
        assert m < p ==> Differ(row, m, p);
      }
      forall i | 0 <= i < cur.height
        ensures cur.next[i] == row[Succ(row, Pred(row, k, i), i)]
      {
        assert old(PointsRight(row, Pred(row, k, i), i));
      }
      LinkedInsert(row, k, cur);
    }

    /** The first half of `emplace`: on the levels it opens, the head precedes. */
    method FindInsertPrevs(key: int, level: nat) returns (prevs: seq<Node?>, ghost k: nat)
      requires Structured() && key <= maxKey && 1 <= level <= MAX_LEVEL
      modifies `maxLevel
      ensures Structured() && IsLower(row, key, k) && |prevs| == MAX_LEVEL
      ensures maxLevel == if level > old(maxLevel) then level else old(maxLevel)
      ensures forall i :: 0 <= i < maxLevel ==> prevs[i] == row[Pred(row, k, i)]
    {
      prevs, k := FindPrevs(key);
      if level > maxLevel {
        for i := maxLevel to level
          invariant |prevs| == MAX_LEVEL
          invariant forall l :: 0 <= l < i ==> prevs[l] == row[Pred(row, k, l)]
        {
          prevs := prevs[i := head];
          assert Pred(row, k, i) == 0;
        }
        maxLevel := level;
      }
    }

    /** The second half of `emplace`: a new node joins the row at position `k`. */
    method Attach(entry: Entry, level: nat, prevs: seq<Node?>, ghost k: nat) returns (cur: Node)
      requires Structured() && IsLower(row, entry.key, k)
      requires 1 <= level <= maxLevel && |prevs| == MAX_LEVEL
      requires forall i :: 0 <= i < level ==> prevs[i] == row[Pred(row, k, i)]
      modifies `row, row
      ensures Structured() && fresh(cur) && cur.height == level && row == InsertAt(old(row), k, cur)
      ensures Nodes(row) == Nodes(old(row)) + {cur}
      ensures Contents() == Insert(old(Contents()), entry)
    {
      cur := new Node(entry, level);
      assert cur !in Nodes(row);
      EntriesInsert(row, k, cur);
      NodesInsert(row, k, cur);
      Join(cur, prevs, k);
    }

    method Join(cur: Node, prevs: seq<Node?>, ghost k: nat)
      requires Structured() && IsLower(row, cur.entry.key, k) && cur !in row
      requires 1 <= cur.height <= maxLevel && |cur.next| == cur.height && |prevs| == MAX_LEVEL
      requires forall i :: 0 <= i < cur.height ==> prevs[i] == row[Pred(row, k, i)]
      modifies `row, row, cur
      ensures Structured() && row == InsertAt(old(row), k, cur)
    {
      OrderInsert(row, k, cur);
      HeightsInsert(row, k, cur, maxLevel);
      Splice(cur, prevs, k);
      row := InsertAt(row, k, cur);
    }

    method CountUp()
      requires Structured()
      modifies `length
      ensures Structured() && length == old(length) + 1
    {
      length := length + 1;
    }

    /** `emplace`: a new node of height `level`, in front of equal keys. */
    method Emplace(entry: Entry, level: nat) returns (cur: Node)
      requires Structured() && entry.key <= maxKey && 1 <= level <= MAX_LEVEL
      modifies this, row
      ensures Structured() && fresh(cur)
      ensures Nodes(row) == Nodes(old(row)) + {cur} && |row| == |old(row)| + 1
      ensures Contents() == Insert(old(Contents()), entry)
      ensures length == old(length) + 1
      ensures old(Tight()) ==> Tight()
    {
      CountUp();
      ghost var k;
      cur, k := Place(entry, level);
      HeightsInsert(old(row), k, cur, old(maxLevel));
    }

    method Place(entry: Entry, level: nat) returns (cur: Node, ghost k: nat)
      requires Structured() && entry.key <= maxKey && 1 <= level <= MAX_LEVEL
      modifies `maxLevel, `row, row
      ensures Structured() && fresh(cur) && cur.height == level
      ensures 1 <= k < |old(row)| && row == InsertAt(old(row), k, cur)
      ensures Nodes(row) == Nodes(old(row)) + {cur}
      ensures Contents() == Insert(old(Contents()), entry)
      ensures maxLevel == if level > old(maxLevel) then level else old(maxLevel)
    {
      var prevs;
      prevs, k := FindInsertPrevs(entry.key, level);
      cur := Attach(entry, level, prevs, k);
    }

    /** The end of every removal: drop the top levels that became empty. */
    method Shrink()
      requires Structured()
      modifies `maxLevel
      ensures Structured() && Tight()
    {
      while maxLevel > 1 && TopIsEmpty()
        invariant Structured()
      {
        LowerTop();
      }
    }

    /** The head's top pointer leads straight to the tail. */
    predicate TopIsEmpty()
      requires Structured()
      reads this, row
      ensures maxLevel > 1 && !TopIsEmpty() ==> Tight()
    {
      assert PointsRight(row, 0, maxLevel - 1);
      assert head.next[maxLevel - 1] != tail ==> row[Succ(row, 0, maxLevel - 1)].height >= maxLevel;
      head.next[maxLevel - 1] == tail
    }

    method LowerTop()
      requires Structured() && maxLevel > 1 && TopIsEmpty()
      modifies `maxLevel
      ensures Structured() && maxLevel == old(maxLevel) - 1
    {
      assert PointsRight(row, 0, maxLevel - 1);
      OnlySentinels(row, maxLevel - 1);
      maxLevel := maxLevel - 1;
    }

    /** `UnlinkNode` on the whole row. */
    method Unsplice(prevs: seq<Node?>, ghost k: nat)
      requires Shape(row) && Distinct(row) && Linked(row) && 1 <= k < |row| - 1
      requires |prevs| == MAX_LEVEL
      requires forall i :: 0 <= i < row[k].height ==> prevs[i] == row[Pred(row, k, i)]
      modifies row
      ensures Linked(RemoveAt(row, k))
    {
      assert PointsRight(row, k - 1, 0);
      var del := prevs[0].next[0];
      ghost var nodes := Nodes(row) - {del};
      forall p | 0 <= p < |row| && p != k
        ensures row[p] in nodes
      {
        assert p < k ==> Differ(row, p, k);
        assert p > k ==> Differ(row, k, p);
      }
      UnlinkNode(del, prevs, nodes);
      forall p, i | 0 <= p < |row| - 1 && p != k && 0 <= i < row[p].height
        ensures Skipped(row, k, p, i)
      {
        assert old(PointsRight(row, p, i));
        assert i < row[k].height ==> old(PointsRight(row, k, i));
        ghost var m := Pred(row, k, i);
        assert p < m ==> Differ(row, p, m);
        assert m < p ==> Differ(row, m, p);
      }
      LinkedRemove(row, k);
    }

    /** The removal inside `erase_one`, once the node at position `k` is found. */
    method Detach(prevs: seq<Node?>, ghost k: nat)
      requires Structured() && 1 <= k < |row| - 1
      requires |prevs| == MAX_LEVEL && forall i :: 0 <= i < maxLevel ==> prevs[i] == row[Pred(row, k, i)]
      modifies `row, row
      ensures Structured() && row == RemoveAt(old(row), k)
    {
      Unsplice(prevs, k);
      OrderRemove(row, k, maxLevel);
      row := RemoveAt(row, k);
    }

    method EraseFound(prevs: seq<Node?>, ghost k: nat)
      requires Valid() && 1 <= k < |row| - 1
      requires |prevs| == MAX_LEVEL && forall i :: 0 <= i < maxLevel ==> prevs[i] == row[Pred(row, k, i)]
      modifies this, row
      ensures Valid() && row == RemoveAt(old(row), k) && Nodes(row) <= Nodes(old(row))
    {
      NodesFewer(row, k);
      Detach(prevs, k);
      Settle(1);
    }

    /** `erase_one`: removes the first of the equal keys. */
    method EraseOne(key: int) returns (erased: bool)
      requires Valid() && key < maxKey
      modifies this, row
      ensures Valid()
      ensures erased <==> HasKey(old(Contents()), key)
      ensures Contents() == Erase(old(Contents()), key)
      ensures Nodes(row) <= Nodes(old(row))
    {
      var prevs;
      ghost var k;
      erased, prevs, k := FindEqual(key);
      EntriesRemove(row, k, key);
      if erased { EraseFound(prevs, k); }
    }

    /** Whether the node behind the predecessors has the key. */
    method FindEqual(key: int) returns (found: bool, prevs: seq<Node?>, ghost k: nat)
      requires Structured() && key < maxKey
      ensures IsLower(row, key, k) && |prevs| == MAX_LEVEL
      ensures forall i :: 0 <= i < maxLevel ==> prevs[i] == row[Pred(row, k, i)]
      ensures (found <==> HasKey(Contents(), key)) && (found <==> k < |row| - 1 && row[k].entry.key == key)
    {
      prevs, k := FindPrevs(key);
      assert PointsRight(row, k - 1, 0);
      found := prevs[0].next[0] != null && prevs[0].next[0].entry.key == key;
      LowerKey(row, key, k);
    }

    /** `DetachPrefix` on the whole row. */
    method Behead(prevs: seq<Node?>, ghost k: nat)
      requires Structured() && 1 < k < |row|
      requires |prevs| == MAX_LEVEL && forall i :: 0 <= i < maxLevel ==> prevs[i] == row[Pred(row, k, i)]
      modifies row
      ensures Sized(row)
      ensures forall p, i :: 0 <= p < |row| - 1 && 0 <= i < row[p].height ==> Beheaded(row, k, maxLevel, p, i)
    {
      DetachPrefix(head, prevs, maxLevel, Nodes(row));
      forall p, i | 0 <= p < |row| - 1 && 0 <= i < row[p].height
        ensures Beheaded(row, k, maxLevel, p, i)
      {
        assert old(PointsRight(row, p, i));
        ghost var m := Pred(row, k, i);
        assert old(PointsRight(row, m, i));
        assert p < m ==> Differ(row, p, m);
        assert m < p ==> Differ(row, m, p);
        assert p > 0 ==> Differ(row, 0, p);
      }
    }

    method CutAt(prevs: seq<Node?>, ghost k: nat)
      requires Structured() && 1 < k < |row|
      requires |prevs| == MAX_LEVEL && forall i :: 0 <= i < maxLevel ==> prevs[i] == row[Pred(row, k, i)]
      modifies `row, row
      ensures Structured() && row == Cut(old(row), k) && IsChain(old(row)[1..k])
      ensures Nodes(old(row)[1..k]) !! Nodes(row)
    {
      Behead(prevs, k);
      OrderCut(row, k, maxLevel);
      LinkedCut(row, k, maxLevel);
      ChainCut(row, k, maxLevel);
      row := Cut(row, k);
    }

    /** The common part of the drains: cuts off the entries up to `key` as a chain
        of nodes ending in null; the list keeps the rest. */
    method CutOff(key: int) returns (start: Node?, ghost k: nat)
      requires Structured() && key < maxKey
      modifies `row, row
      ensures Structured() && Nodes(row) <= Nodes(old(row)) && 1 <= k < |old(row)|
      ensures UpTo(old(Contents()), key) == k - 1 && Contents() == old(Contents())[k - 1..]
      ensures IsChain(old(row)[1..k]) && Nodes(old(row)[1..k]) !! Nodes(row)
      ensures start == if k == 1 then null else old(row)[1]
    {
      var prevs;
      prevs, k := FindUpperPrevs(key);
      assert k > 1 ==> Differ(row, 0, k - 1);
      if prevs[0] == head {
        start := null;
      } else {
        start := CutChain(prevs, k);
      }
      NodesFewer(old(row), k);
      EntriesCut(old(row), key, k);
    }

    /** `CutOff`, in terms of the entries. */
    method CutPrefix(key: int) returns (start: Node?, ghost chain: seq<Node>)
      requires Structured() && key < maxKey
      modifies `row, row
      ensures Structured() && Nodes(row) <= Nodes(old(row)) && |row| == |old(row)| - |chain|
      ensures |chain| == UpTo(old(Contents()), key) && Contents() == old(Contents())[|chain|..]
      ensures Payloads(chain, |chain|) == Values(old(Contents())[..|chain|])
      ensures IsChain(chain) && Nodes(chain) !! Nodes(row) && start == if chain == [] then null else chain[0]
    {
      ghost var k;
      start, k := CutOff(key);
      chain := old(row)[1..k];
      ChainValues(old(row), k, k - 1);
    }

    method CutChain(prevs: seq<Node?>, ghost k: nat) returns (start: Node)
      requires Structured() && 1 < k < |row|
      requires |prevs| == MAX_LEVEL && forall i :: 0 <= i < maxLevel ==> prevs[i] == row[Pred(row, k, i)]
      modifies `row, row
      ensures Structured() && row == Cut(old(row), k) && IsChain(old(row)[1..k])
      ensures Nodes(old(row)[1..k]) !! Nodes(row) && start == old(row)[1]
    {
      assert PointsRight(row, 0, 0);
      start := head.next[0];
      CutAt(prevs, k);
    }

    /** What every removal does last. */
    method Settle(removed: nat)
      requires Structured() && length - removed == |row| - 2
      modifies `maxLevel, `length
      ensures Valid()
    {
      Shrink();
      length := length - removed;
    }

    /** `pop_less_eq`: removes the entries up to `key`, returning their payloads. */
    method PopLessEq(key: int) returns (res: seq<nat>)
      requires Valid() && key < maxKey
      modifies this, row
      ensures Valid()
      ensures var n := UpTo(old(Contents()), key);
        res == Values(old(Contents())[..n]) && Contents() == old(Contents())[n..]
      ensures Nodes(row) <= Nodes(old(row))
    {
      var start, chain := CutPrefix(key);
      res := Collect(start, chain);
      Settle(|res|);
    }

    /** One run of a callback that inserts entries. */
    method RunCallback(ins: seq<Insertion>)
      requires Structured() && LegalInsertions(ins, maxKey)
      modifies this, Nodes(row)
      ensures Structured() && length - |row| == old(length - |row|)
      ensures Contents() == InsertAll(old(Contents()), ins)
      ensures fresh(Nodes(row) - Nodes(old(row)))
    {
      for c := 0 to |ins|
        invariant Structured() && length - |row| == old(length - |row|)
        invariant Contents() == InsertAll(old(Contents()), ins[..c])
        invariant fresh(Nodes(row) - Nodes(old(row)))
      {
        assert ins[..c + 1][..c] == ins[..c];
        var cur := Emplace(ins[c].entry, ins[c].level);
      }
      assert ins[..|ins|] == ins;
    }

    /** `do_less_eq_then_pop`: visits and removes the entries up to `key`; the
        callback of visit `c` inserts `plan(c)` into the list meanwhile. */
    method DoLessEqThenPop(key: int, plan: nat -> seq<Insertion>) returns (visited: seq<nat>)
      requires Valid() && key < maxKey && forall c :: LegalInsertions(plan(c), maxKey)
      modifies this, Nodes(row)
      ensures Valid()
      ensures var n := UpTo(old(Contents()), key);
        visited == Values(old(Contents())[..n]) && Contents() == InsertAll(old(Contents())[n..], Planned(plan, n))
      ensures fresh(Nodes(row) - Nodes(old(row)))
    {
      var start, chain := CutPrefix(key);
      visited := Drain(start, plan, chain);
      Settle(|visited|);
    }

    /** In the middle of a drain: the list holds `want` in `nodes`, apart from the chain. */
    ghost predicate Midway(want: seq<Entry>, chain: seq<Node>, excess: int, nodes: set<Node>)
      reads this, nodes, chain
    {
      && Nodes(row) == nodes && Structured() && length - |row| == excess
      && Contents() == want && IsChain(chain) && Nodes(chain) !! nodes
    }

    /** One callback in the middle of a drain. */
    method Visit(ins: seq<Insertion>, ghost want: seq<Entry>, ghost chain: seq<Node>, ghost excess: int, ghost nodes: set<Node>)
      returns (ghost nodes': set<Node>)
      requires Midway(want, chain, excess, nodes) && LegalInsertions(ins, maxKey)
      modifies this, nodes
      ensures Midway(InsertAll(want, ins), chain, excess, nodes') && fresh(nodes' - nodes)
    {
      RunCallback(ins);
      nodes' := Nodes(row);
    }

    /** One turn of the walk: the next node is read before the callback runs. */
    method VisitNext(cur: Node, plan: nat -> seq<Insertion>, c: nat, ghost log: DrainLog, ghost chain: seq<Node>, ghost excess: int, ghost nodes: set<Node>)
      returns (next: Node?, ghost nodes': set<Node>)
      requires log.Describes(plan, chain) && c < |chain| && cur == chain[c] && LegalInsertions(plan(c), maxKey)
      requires Midway(log.wants[c], chain, excess, nodes)
      modifies this, nodes
      ensures Midway(log.wants[c + 1], chain, excess, nodes') && fresh(nodes' - nodes)
      ensures next == (if c + 1 < |chain| then chain[c + 1] else null) && cur.entry.value == log.values[c]
    {
      LogStep(log, plan, chain, c);
      assert LeadsOn(chain, c);
      next := cur.next[0];
      nodes' := Visit(plan(c), log.wants[c], chain, excess, nodes);
    }

    /** The walk of `do_less_eq_then_pop` along the detached chain. */
    method Drain(start: Node?, plan: nat -> seq<Insertion>, ghost chain: seq<Node>) returns (visited: seq<nat>)
      requires Structured() && IsChain(chain) && start == (if chain == [] then null else chain[0])
      requires Nodes(chain) !! Nodes(row)
      requires forall c :: LegalInsertions(plan(c), maxKey)
      modifies this, Nodes(row)
      ensures Structured() && length - |row| == old(length - |row|)
      ensures |visited| == |chain| && visited == Payloads(chain, |chain|)
      ensures Contents() == InsertAll(old(Contents()), Planned(plan, |chain|))
      ensures fresh(Nodes(row) - Nodes(old(row)))
    {
      ghost var n := |chain|;
      ghost var log := DrainLog(Contents(), Wants(Contents(), plan, n + 1), Payloads(chain, n));
      WantsAt(log.base, plan, n + 1, 0);
      WantsAt(log.base, plan, n + 1, n);
      ghost var nodes;
      visited, nodes := Walk(start, plan, log, chain, length - |row|, Nodes(row));
    }

    method Walk(start: Node?, plan: nat -> seq<Insertion>, ghost log: DrainLog, ghost chain: seq<Node>, ghost excess: int, ghost nodes: set<Node>)
      returns (visited: seq<nat>, ghost nodes': set<Node>)
      requires log.Describes(plan, chain) && start == (if chain == [] then null else chain[0])
      requires Midway(log.wants[0], chain, excess, nodes) && forall c :: LegalInsertions(plan(c), maxKey)
      modifies this, nodes
      ensures Midway(log.wants[|chain|], chain, excess, nodes') && fresh(nodes' - nodes)
      ensures visited == log.values
    {
      visited := [];
      var cur, cnt := start, 0;
      nodes' := nodes;
      while cur != null
        invariant 0 <= cnt <= |chain| && cur == (if cnt < |chain| then chain[cnt] else null)
        invariant visited == log.values[..cnt]
        invariant Midway(log.wants[cnt], chain, excess, nodes') && fresh(nodes' - nodes)
        decreases |chain| - cnt
      {
        var value := cur.entry.value;
        ghost var before := nodes';
        cur, nodes' := VisitNext(cur, plan, cnt, log, chain, excess, before);
        AddedInSteps(nodes, before, nodes');
        visited, cnt := visited + [value], cnt + 1;
      }
    }
  }

  /** What a drain will do: the contents from before the first visit to after the last,
      and the payloads visited. */
  datatype DrainLog = DrainLog(base: seq<Entry>, wants: seq<seq<Entry>>, values: seq<nat>) {
    ghost predicate Describes(plan: nat -> seq<Insertion>, chain: seq<Node>) {
      && |wants| == |chain| + 1 && wants == Wants(base, plan, |chain| + 1)
      && |values| == |chain| && values == Payloads(chain, |chain|)
    }
  }

  ghost function Wants(base: seq<Entry>, plan: nat -> seq<Insertion>, n: nat): (w: seq<seq<Entry>>)
    ensures |w| == n
  {
    if n == 0 then [] else Wants(base, plan, n - 1) + [InsertAll(base, Planned(plan, n - 1))]
  }

  lemma {:induction false} WantsAt(base: seq<Entry>, plan: nat -> seq<Insertion>, n: nat, c: nat)
    requires c < n
    ensures Wants(base, plan, n)[c] == InsertAll(base, Planned(plan, c))
  {
    if c < n - 1 { WantsAt(base, plan, n - 1, c); }
  }

  lemma LogStep(log: DrainLog, plan: nat -> seq<Insertion>, chain: seq<Node>, c: nat)
    requires log.Describes(plan, chain) && c < |chain|
    ensures log.wants[c + 1] == InsertAll(log.wants[c], plan(c)) && log.values[c] == chain[c].entry.value
  {
    WantsAt(log.base, plan, |chain| + 1, c);
    WantsAt(log.base, plan, |chain| + 1, c + 1);
    InsertAllTwice(log.base, Planned(plan, c), plan(c));
    PayloadAt(chain, |chain|, c);
  }

  lemma {:induction false} PayloadAt(chain: seq<Node>, n: nat, c: nat)
    requires c < n <= |chain|
    ensures Payloads(chain, n)[c] == chain[c].entry.value
  {
    if c < n - 1 { PayloadAt(chain, n - 1, c); }
  }

  ghost predicate LegalInsertions(ins: seq<Insertion>, maxKey: int) {
    forall i :: 0 <= i < |ins| ==> ins[i].entry.key <= maxKey && 1 <= ins[i].level <= MAX_LEVEL
  }

  /** Everything the callbacks of the first `n` visits insert, in order. */
  ghost function Planned(plan: nat -> seq<Insertion>, n: nat): seq<Insertion> {
    if n == 0 then [] else Planned(plan, n - 1) + plan(n - 1)
  }

  lemma {:induction false} InsertAllTwice(s: seq<Entry>, a: seq<Insertion>, b: seq<Insertion>)
    ensures InsertAll(InsertAll(s, a), b) == InsertAll(s, a + b)
    decreases |b|
  {
    if b == [] {
      assert a + b == a;
    } else {
      InsertAllTwice(s, a, b[..|b| - 1]);
      assert (a + b)[..|a + b| - 1] == a + b[..|b| - 1];
    }
  }

  /** The walk of `pop_less_eq` along a detached chain. */
  method Collect(start: Node?, ghost chain: seq<Node>) returns (res: seq<nat>)
    requires IsChain(chain) && start == if chain == [] then null else chain[0]
    ensures |res| == |chain| && res == Payloads(chain, |chain|)
  {
    res := [];
    var cur := start;
    while cur != null
      invariant |res| <= |chain| && cur == if |res| < |chain| then chain[|res|] else null
      invariant res == Payloads(chain, |res|)
      decreases |chain| - |res|
    {
      assert LeadsOn(chain, |res|);
      var next := cur.next[0];
      res := res + [cur.entry.value];
      cur := next;
    }
  }

  lemma AddedInSteps(a: set<Node>, b: set<Node>, c: set<Node>)
    ensures c - a <= (c - b) + (b - a)
  {
  }

  /** The payloads of the first `n` nodes. */
  ghost function Payloads(chain: seq<Node>, n: nat): (p: seq<nat>)
    requires n <= |chain|
    ensures |p| == n
  {
    if n == 0 then [] else Payloads(chain, n - 1) + [chain[n - 1].entry.value]
  }

  lemma {:induction false} ChainValues(row: seq<Node>, k: nat, n: nat)
    requires 1 <= k < |row| && n <= k - 1
    ensures Payloads(row[1..k], n) == Values(Entries(row)[..n])
  {
    if n > 0 {
      ChainValues(row, k, n - 1);
      assert Entries(row)[..n] == Entries(row)[..n - 1] + [row[n].entry];
    }
  }

  lemma EntriesCut(row: seq<Node>, key: int, k: nat)
    requires Shape(row) && IsUpper(row, key, k)
    ensures var s := Entries(row);
      UpTo(s, key) == k - 1 && Entries(Cut(row, k)) == s[k - 1..]
  {
    UpperIsUpTo(row, key, k);
  }

  /** A detached chain: each node leads to the next, the last one to null. */
  ghost predicate IsChain(chain: seq<Node>)
    reads Nodes(chain)
  {
    forall j :: 0 <= j < |chain| ==> LeadsOn(chain, j)
  }

  ghost predicate LeadsOn(chain: seq<Node>, j: nat)
    requires j < |chain|
    reads chain[j]
  {
    |chain[j].next| > 0 && chain[j].next[0] == if j + 1 < |chain| then chain[j + 1] else null
  }

  /** The pointer at (p, i) once the nodes before position `k` are cut off. */
  ghost predicate Beheaded(row: seq<Node>, k: nat, levels: nat, p: nat, i: nat)
    requires Shape(row) && 1 < k < |row| && p < |row| - 1 && i < row[p].height && |row[p].next| == row[p].height
    reads row
  {
    row[p].next[i] ==
    if p == 0 then row[Succ(row, Pred(row, k, i), i)]
    else if i < levels && p == Pred(row, k, i) then null
    else row[Succ(row, p, i)]
  }

  lemma OrderCut(row: seq<Node>, k: nat, m: nat)
    requires Shape(row) && Distinct(row) && Ascending(row) && Bounded(row, m) && 1 <= k < |row|
    ensures var row' := Cut(row, k);
      && Shape(row') && Distinct(row') && Ascending(row') && Bounded(row', m)
      && row'[0] == row[0] && row'[|row'| - 1] == row[|row| - 1]
    ensures Nodes(row[1..k]) !! Nodes(Cut(row, k))
  {
    var row' := Cut(row, k);
    assert row'[|row'| - 1] == row[|row| - 1];
    forall p, q | 0 <= p < q < |row'|
      ensures Differ(row', p, q) && (p >= 1 ==> InOrder(row', p, q))
    {
      var p0, q0 := if p == 0 then 0 else p + k - 1, q + k - 1;
      assert Differ(row, p0, q0) && (p0 >= 1 ==> InOrder(row, p0, q0));
    }
    forall n | n in row[1..k] ensures n !in row' {
      var a :| 1 <= a < k && row[a] == n;
      forall q | 0 <= q < |row'| ensures row'[q] != n {
        if q == 0 { assert Differ(row, 0, a); } else { assert Differ(row, a, q + k - 1); }
      }
    }
  }

  lemma LinkedCut(row: seq<Node>, k: nat, m: nat)
    requires Shape(row) && 1 < k < |row| && Sized(row) && Bounded(row, m) && 1 <= m
    requires forall p, i :: 0 <= p < |row| - 1 && 0 <= i < row[p].height ==> Beheaded(row, k, m, p, i)
    ensures Shape(Cut(row, k)) && Linked(Cut(row, k))
  {
    var row' := Cut(row, k);
    assert row'[|row'| - 1] == row[|row| - 1];
    forall p, i | 0 <= p < |row'| - 1 && 0 <= i < row'[p].height
      ensures PointsRight(row', p, i)
    {
      var q := if p == 0 then 0 else p + k - 1;
      assert Beheaded(row, k, m, q, i);
      CutPoints(row, k, q, i);
    }
  }

  lemma ChainCut(row: seq<Node>, k: nat, m: nat)
    requires Shape(row) && 1 < k < |row| && Sized(row) && 1 <= m
    requires forall p, i :: 0 <= p < |row| - 1 && 0 <= i < row[p].height ==> Beheaded(row, k, m, p, i)
    ensures IsChain(row[1..k])
  {
    var chain := row[1..k];
    forall j | 0 <= j < |chain|
      ensures LeadsOn(chain, j)
    {
      assert Beheaded(row, k, m, j + 1, 0);
    }
  }

  lemma CutPoints(row: seq<Node>, k: nat, q: nat, i: nat)
    requires Shape(row) && 1 < k < |row| && (q == 0 || k <= q < |row| - 1) && i < row[q].height == |row[q].next|
    requires Shape(Cut(row, k))
    requires row[q].next[i] == if q == 0 then row[Succ(row, Pred(row, k, i), i)] else row[Succ(row, q, i)]
    ensures PointsRight(Cut(row, k), if q == 0 then 0 else q - k + 1, i)
  {
    SuccCut(row, k, q, i);
    var s := if q == 0 then Succ(row, Pred(row, k, i), i) else Succ(row, q, i);
    assert Cut(row, k)[s - k + 1] == row[s];
  }

  /** A head-to-tail level has no element on it. */
  lemma OnlySentinels(row: seq<Node>, i: nat)
    requires Shape(row) && Distinct(row) && i < MAX_LEVEL && row[Succ(row, 0, i)] == row[|row| - 1]
    ensures Bounded(row, i)
  {
    var s := Succ(row, 0, i);
    assert s < |row| - 1 ==> Differ(row, s, |row| - 1);
  }

  lemma EntriesRemove(row: seq<Node>, k: nat, key: int)
    requires Shape(row) && IsLower(row, key, k)
    ensures k < |row| - 1 && row[k].entry.key == key ==> Entries(RemoveAt(row, k)) == Erase(Entries(row), key)
    ensures k == |row| - 1 || row[k].entry.key != key ==> Entries(row) == Erase(Entries(row), key)
  {
    LowerIsBelow(row, key, k);
    assert k < |row| - 1 ==> Entries(row)[k - 1] == row[k].entry;
  }

  lemma OrderRemove(row: seq<Node>, k: nat, m: nat)
    requires Shape(row) && Distinct(row) && Ascending(row) && Bounded(row, m) && 1 <= k < |row| - 1
    ensures var row' := RemoveAt(row, k);
      && Shape(row') && Distinct(row') && Ascending(row') && Bounded(row', m)
      && row'[0] == row[0] && row'[|row'| - 1] == row[|row| - 1]
  {
    var row' := RemoveAt(row, k);
    assert row'[|row'| - 1] == row[|row| - 1];
    forall p, q | 0 <= p < q < |row'|
      ensures Differ(row', p, q) && (p >= 1 ==> InOrder(row', p, q))
    {
      var p0, q0 := if p < k then p else p + 1, if q < k then q else q + 1;
      assert Differ(row, p0, q0) && (p0 >= 1 ==> InOrder(row, p0, q0));
    }
  }

  /** The pointer at (p, i) once the node at position `k` is skipped. */
  ghost predicate Skipped(row: seq<Node>, k: nat, p: nat, i: nat)
    requires Shape(row) && 1 <= k < |row| - 1 && p < |row| - 1 && i < row[p].height && |row[p].next| == row[p].height
    reads row
  {
    row[p].next[i] ==
    if i < row[k].height && p == Pred(row, k, i) then row[Succ(row, k, i)] else row[Succ(row, p, i)]
  }

  lemma SkippedPoints(row: seq<Node>, k: nat, p: nat, i: nat)
    requires Shape(row) && 1 <= k < |row| - 1 && p < |row| - 1 && p != k && i < row[p].height
    requires |row[p].next| == row[p].height && Skipped(row, k, p, i) && Shape(RemoveAt(row, k))
    ensures PointsRight(RemoveAt(row, k), if p < k then p else p - 1, i)
  {
    var row' := RemoveAt(row, k);
    if p < k {
      SuccRemoveBefore(row, k, p, i);
      var s := Succ(row, p, i);
      var t := if s == k then Succ(row, k, i) else s;
      assert t > k ==> row'[t - 1] == row[t];
    } else {
      SuccRemoveAfter(row, k, p, i);
      assert row'[Succ(row, p, i) - 1] == row[Succ(row, p, i)];
    }
  }

  lemma LinkedRemove(row: seq<Node>, k: nat)
    requires Shape(row) && 1 <= k < |row| - 1 && Sized(row)
    requires forall p, i :: 0 <= p < |row| - 1 && p != k && 0 <= i < row[p].height ==> Skipped(row, k, p, i)
    ensures Shape(RemoveAt(row, k)) && Linked(RemoveAt(row, k))
  {
    var row' := RemoveAt(row, k);
    assert row'[|row'| - 1] == row[|row| - 1];
    forall p, i | 0 <= p < |row'| - 1 && 0 <= i < row'[p].height
      ensures PointsRight(row', p, i)
    {
      SkippedPoints(row, k, if p < k then p else p + 1, i);
    }
  }

  lemma EntriesInsert(row: seq<Node>, k: nat, cur: Node)
    requires Shape(row) && IsLower(row, cur.entry.key, k)
    ensures Entries(InsertAt(row, k, cur)) == Insert(Entries(row), cur.entry)
  {
    LowerIsBelow(row, cur.entry.key, k);
  }

  lemma NodesInsert(row: seq<Node>, k: nat, cur: Node)
    requires k <= |row|
    ensures Nodes(InsertAt(row, k, cur)) == Nodes(row) + {cur}
  {
    var row' := InsertAt(row, k, cur);
    assert row == row[..k] + row[k..];
    assert row' == row[..k] + [cur] + row[k..];
  }

  lemma NodesFewer(row: seq<Node>, k: nat)
    requires 1 <= k < |row|
    ensures Nodes(RemoveAt(row, k)) <= Nodes(row) && Nodes(Cut(row, k)) <= Nodes(row)
  {
    assert row == row[..k] + [row[k]] + row[k + 1..];
    assert RemoveAt(row, k) == row[..k] + row[k + 1..];
    assert Cut(row, k) == [row[0]] + row[k..];
  }

  lemma HeightsInsert(row: seq<Node>, k: nat, cur: Node, m: nat)
    requires 1 <= k < |row| && Bounded(row, m)
    ensures var row' := InsertAt(row, k, cur); var m' := if cur.height > m then cur.height else m;
      && Bounded(row', m')
      && (Reached(row, m) ==> Reached(row', m'))
      && row'[0] == row[0] && row'[|row'| - 1] == row[|row| - 1]
  {
    var row' := InsertAt(row, k, cur);
    assert cur.height >= m ==> row'[k].height == cur.height;
    if cur.height < m && m > 1 && Reached(row, m) {
      var p :| 1 <= p < |row| - 1 && row[p].height == m;
      assert row'[if p < k then p else p + 1] == row[p];
    }
  }

  lemma OrderInsert(row: seq<Node>, k: nat, cur: Node)
    requires Shape(row) && Distinct(row) && Ascending(row) && IsLower(row, cur.entry.key, k)
    requires cur !in row && 1 <= cur.height <= MAX_LEVEL
    ensures Shape(InsertAt(row, k, cur)) && Distinct(InsertAt(row, k, cur)) && Ascending(InsertAt(row, k, cur))
  {
    var row' := InsertAt(row, k, cur);
    assert row'[|row'| - 1] == row[|row| - 1];
    forall p, q | 0 <= p < q < |row'|
      ensures Differ(row', p, q) && (p >= 1 ==> InOrder(row', p, q))
    {
      if p != k && q != k {
        var p0, q0 := if p < k then p else p - 1, if q < k then q else q - 1;
        assert Differ(row, p0, q0) && (p0 >= 1 ==> InOrder(row, p0, q0));
      }
    }
  }

  /** The pointer at (p, i) once `cur` has been spliced in at position `k`. */
  ghost predicate Spliced(row: seq<Node>, k: nat, cur: Node, p: nat, i: nat)
    requires Shape(row) && 1 <= k < |row| && p < |row| - 1 && i < row[p].height && |row[p].next| == row[p].height
    reads row
  {
    row[p].next[i] == if i < cur.height && p == Pred(row, k, i) then cur else row[Succ(row, p, i)]
  }

  lemma SplicedPoints(row: seq<Node>, k: nat, cur: Node, p: nat, i: nat)
    requires Shape(row) && 1 <= k < |row| && p < |row| - 1 && i < row[p].height && |row[p].next| == row[p].height
    requires Shape(InsertAt(row, k, cur)) && Spliced(row, k, cur, p, i)
    ensures PointsRight(InsertAt(row, k, cur), if p < k then p else p + 1, i)
  {
    SuccInsert(row, k, cur, p, i);
  }

  lemma NewNodePoints(row: seq<Node>, k: nat, cur: Node, i: nat)
    requires Shape(row) && 1 <= k < |row| && Shape(InsertAt(row, k, cur)) && i < cur.height == |cur.next|
    requires cur.next[i] == row[Succ(row, Pred(row, k, i), i)]
    ensures PointsRight(InsertAt(row, k, cur), k, i)
  {
    SuccInsertNew(row, k, cur, i);
    SuccCut(row, k, 0, i);
    var s := Succ(row, Pred(row, k, i), i);
    assert InsertAt(row, k, cur)[s + 1] == row[s];
  }

  /** Splicing `cur` in at position `k` on its own levels links the longer row. */
  lemma LinkedInsert(row: seq<Node>, k: nat, cur: Node)
    requires Shape(row) && 1 <= k < |row| && Shape(InsertAt(row, k, cur)) && Sized(row) && |cur.next| == cur.height
    requires forall l :: 0 <= l < cur.height ==> cur.next[l] == row[Succ(row, Pred(row, k, l), l)]
    requires forall p, i :: 0 <= p < |row| - 1 && 0 <= i < row[p].height ==> Spliced(row, k, cur, p, i)
    ensures Linked(InsertAt(row, k, cur))
  {
    var row' := InsertAt(row, k, cur);
    forall p, i | 0 <= p < |row'| - 1 && 0 <= i < row'[p].height
      ensures PointsRight(row', p, i)
    {
      if p == k {
        NewNodePoints(row, k, cur, i);
      } else {
        SplicedPoints(row, k, cur, if p < k then p else p - 1, i);
      }
    }
  }
}
