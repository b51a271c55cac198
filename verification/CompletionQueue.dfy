/** Dispatch of completions: a loop over the completion ring whose callbacks may re-enter
    the context and release entries to the kernel while the loop is still running. */
module CompletionQueue {
  import opened Words
  import opened RingIndices

  datatype UserData = Null | Timeout | Token(id: nat)

  datatype Completion = Completion(data: UserData, res: int, flags: nat)

  /** The value an unsigned 32-bit ring index holds after storing `x`. */
  function Wrap32(x: int): (w: nat)
    ensures w < 0x1_0000_0000
  {
    x % 0x1_0000_0000
  }

  /** What the coroutines resumed by one completion, and the kernel meanwhile, do: the
      kernel posts completions, or a coroutine asks for a submission entry and spins once
      per round, the kernel posting while it waits. */
  datatype Act = Post(c: Completion) | GetSqe(rounds: seq<seq<Completion>>)

  /** The completions from `start` to `end` whose token is resolved, in order; null and
      timeout user data are passed over. */
  function Resolutions(cs: seq<Completion>, start: nat, end: nat): seq<Completion>
    requires start <= end <= |cs|
  {
    if start == end then []
    else
      var front := Resolutions(cs, start, end - 1);
      if cs[end - 1].data.Token? then front + [cs[end - 1]] else front
  }

  lemma {:induction false} SameResolutions(cs: seq<Completion>, more: seq<Completion>, start: nat, end: nat)
    requires start <= end <= |cs| && cs <= more
    ensures Resolutions(cs, start, end) == Resolutions(more, start, end)
  {
    if start < end { SameResolutions(cs, more, start, end - 1); }
  }

  ghost predicate Tokens(positions: seq<nat>, cs: seq<Completion>, start: nat, end: nat)
    requires end <= |cs|
  {
    forall k :: 0 <= k < |positions| ==> start <= positions[k] < end && cs[positions[k]].data.Token?
  }

  ghost predicate Ascending(positions: seq<nat>) {
    forall j, k :: 0 <= j < k < |positions| ==> positions[j] < positions[k]
  }

  ghost predicate Complete(positions: seq<nat>, cs: seq<Completion>, start: nat, end: nat)
    requires end <= |cs|
  {
    forall i :: start <= i < end && cs[i].data.Token? ==> i in positions
  }

  /** The positions from `start` to `end` at which a token is to be resolved: in ascending
      order, all of them, and no others. Null and timeout user data are passed over. */
  ghost predicate Picks(positions: seq<nat>, cs: seq<Completion>, start: nat, end: nat) {
    end <= |cs| && Tokens(positions, cs, start, end) && Ascending(positions) && Complete(positions, cs, start, end)
  }

  /** `after` is `before` and then the completions at the positions. */
  ghost predicate Appends(before: seq<Completion>, after: seq<Completion>, cs: seq<Completion>, positions: seq<nat>) {
    && |after| == |before| + |positions| && before <= after
    && forall k :: 0 <= k < |positions| ==> positions[k] < |cs| && after[|before| + k] == cs[positions[k]]
  }

  lemma TokenPositions(cs: seq<Completion>, start: nat, end: nat) returns (positions: seq<nat>)
    requires start <= end <= |cs|
    ensures Picks(positions, cs, start, end)
    ensures forall before :: Appends(before, before + Resolutions(cs, start, end), cs, positions)
  {
    positions := FindPositions(cs, start, end);
  }

  lemma {:induction false} FindPositions(cs: seq<Completion>, start: nat, end: nat) returns (positions: seq<nat>)
    requires start <= end <= |cs|
    ensures Picks(positions, cs, start, end)
    ensures Appends([], Resolutions(cs, start, end), cs, positions)
    decreases end - start
  {
    positions := [];
    if start < end {
      var front := FindPositions(cs, start, end - 1);
      PicksMore(front, cs, start, end);
      AppendsMore(Resolutions(cs, start, end - 1), cs, front, end - 1);
      positions := if cs[end - 1].data.Token? then front + [end - 1] else front;
    }
  }

  lemma AppendsMore(after: seq<Completion>, cs: seq<Completion>, positions: seq<nat>, i: nat)
    requires Appends([], after, cs, positions) && i < |cs|
    ensures Appends([], after + [cs[i]], cs, positions + [i])
  {
  }

  lemma PicksMore(positions: seq<nat>, cs: seq<Completion>, start: nat, end: nat)
    requires start < end <= |cs| && Picks(positions, cs, start, end - 1)
    ensures Picks(if cs[end - 1].data.Token? then positions + [end - 1] else positions, cs, start, end)
  {
    if cs[end - 1].data.Token? {
      AscendingMore(positions, end - 1);
      TokensMore(positions, cs, start, end);
      CompleteMore(positions, cs, start, end);
    } else {
      PassedOver(positions, cs, start, end);
    }
  }

  lemma TokensMore(positions: seq<nat>, cs: seq<Completion>, start: nat, end: nat)
    requires start < end <= |cs| && Tokens(positions, cs, start, end - 1) && cs[end - 1].data.Token?
    ensures Tokens(positions + [end - 1], cs, start, end)
  {
  }

  lemma PassedOver(positions: seq<nat>, cs: seq<Completion>, start: nat, end: nat)
    requires start < end <= |cs| && !cs[end - 1].data.Token?
    requires Tokens(positions, cs, start, end - 1) && Complete(positions, cs, start, end - 1)
    ensures Tokens(positions, cs, start, end) && Complete(positions, cs, start, end)
  {
  }

  lemma AscendingMore(positions: seq<nat>, i: nat)
    requires Ascending(positions) && forall k :: 0 <= k < |positions| ==> positions[k] < i
    ensures Ascending(positions + [i])
  {
  }

  lemma CompleteMore(positions: seq<nat>, cs: seq<Completion>, start: nat, end: nat)
    requires start < end <= |cs| && Complete(positions, cs, start, end - 1)
    ensures Complete(positions + [end - 1], cs, start, end)
  {
  }

  // ---------------------------------------------------------------------------
  // The shared ring
  // ---------------------------------------------------------------------------

  /** Ring memory of capacity 2^order, the two indices, and `count` entries taken but not
      released, against all completions ever posted, of which the first `taken` are taken. */
  ghost predicate InStep(order: nat, cqes: seq<Completion>, khead: nat, ktail: nat, count: nat, posted: seq<Completion>, taken: nat) {
    && 1 <= order <= 31 && |cqes| == Pow2(order)
    && count <= taken <= |posted| <= taken - count + Pow2(order)
    && khead == Wrap32(taken - count) && ktail == Wrap32(|posted|)
    && Held(cqes, posted, taken - count)
  }

  /** Every entry from `from` on is still in its slot. */
  ghost predicate Held(cqes: seq<Completion>, posted: seq<Completion>, from: nat)
    requires |cqes| > 0
  {
    forall i {:trigger posted[i]} :: from <= i < |posted| ==> cqes[Slot(i, |cqes|)] == posted[i]
  }

  /** A slot written more than a round before `from` holds no entry from there on. */
  lemma HeldMore(cqes: seq<Completion>, posted: seq<Completion>, from: nat, c: Completion)
    requires |cqes| > 0 && Held(cqes, posted, from) && |posted| < from + |cqes|
    ensures Held(cqes[Slot(|posted|, |cqes|) := c], posted + [c], from)
  {
    var n, cap := |posted|, |cqes|;
    var after, more := cqes[Slot(n, cap) := c], posted + [c];
    forall i | from <= i < |more| ensures after[Slot(i, cap)] == more[i] {
      if i < n {
        SlotsDiffer(i, n, cap);
        assert cqes[Slot(i, cap)] == posted[i];
      }
    }
  }

  lemma OrderBound(order: nat)
    requires 1 <= order <= 31
    ensures 2 <= Pow2(order) <= 0x8000_0000
    ensures 0x1_0000_0000 == Pow2(order) * Pow2(32 - order)
  {
    var byte := 8;
    assert Pow2(byte) == 0x100;
    Pow2Square(byte, 0x100, 16);
    Pow2Square(16, 0x1_0000, 32);
    Pow2Add(order, 32 - order);
    Pow2Monotone(1, order);
    Pow2Monotone(order, 31);
    assert Pow2(32) == 2 * Pow2(31);
  }

  /** Masking a 32-bit index gives the slot of the unbounded count. */
  lemma SlotOf32(order: nat, n: nat)
    requires 1 <= order <= 31
    ensures BitAnd(Wrap32(n), Mask(Pow2(order))) == Slot(n, Pow2(order))
  {
    OrderBound(order);
    MaskIsMod(Wrap32(n), order);
    ModOfMod(n, Pow2(order), Pow2(32 - order));
    SlotIsMod(n, Pow2(order));
  }

  lemma Distance32(a: nat, b: nat)
    requires a <= b <= a + 0x8000_0000
    ensures Wrap32(Wrap32(b) - Wrap32(a)) == b - a
    ensures Wrap32(a) == Wrap32(b) <==> a == b
  {
  }

  lemma Next32(n: nat, k: nat)
    ensures Wrap32(Wrap32(n) + k) == Wrap32(n + k)
  {
    var r, q := n % 0x1_0000_0000, n / 0x1_0000_0000;
    assert n + k == r + k + 0x1_0000_0000 * q;
    ModShift(r + k, 0x1_0000_0000, q);
  }

  /** What the comparison and the difference of the indices mean. */
  lemma IndicesCompare(order: nat, cqes: seq<Completion>, khead: nat, ktail: nat, count: nat, posted: seq<Completion>, taken: nat)
    requires InStep(order, cqes, khead, ktail, count, posted, taken)
    ensures Wrap32(taken) == ktail <==> taken == |posted|
    ensures Wrap32(ktail - khead) == |posted| - (taken - count)
  {
    OrderBound(order);
    Distance32(taken, |posted|);
    Distance32(taken - count, |posted|);
  }

  /** A completion goes into a slot that holds no unreleased entry. */
  lemma PostKeeps(order: nat, cqes: seq<Completion>, khead: nat, ktail: nat, count: nat, posted: seq<Completion>, taken: nat, c: Completion)
    requires InStep(order, cqes, khead, ktail, count, posted, taken) && |posted| < taken - count + Pow2(order)
    ensures BitAnd(ktail, Mask(Pow2(order))) < |cqes|
    ensures InStep(order, cqes[BitAnd(ktail, Mask(Pow2(order))) := c], khead, Wrap32(ktail + 1), count, posted + [c], taken)
  {
    SlotOf32(order, |posted|);
    Next32(|posted|, 1);
    HeldMore(cqes, posted, taken - count, c);
  }

  // ---------------------------------------------------------------------------
  // The context
  // ---------------------------------------------------------------------------

  class Context {
    const order: nat
    var cqes: seq<Completion>
    var khead: nat
    var ktail: nat
    var cqeCount: nat
    /** Tokens resolved, with the result passed. */
    var resolved: seq<Completion>
    ghost var posted: seq<Completion>
    ghost var taken: nat

    /** In particular `khead` plus `cqeCount` is the number of completions taken. */
    ghost predicate Valid()
      reads this
    {
      InStep(order, cqes, khead, ktail, cqeCount, posted, taken)
    }

    constructor (order: nat, memory: seq<Completion>)
      requires 1 <= order <= 31 && |memory| == Pow2(order)
      ensures Valid() && cqeCount == 0 && posted == [] && taken == 0 && resolved == []
    {
      this.order, cqes, khead, ktail, cqeCount, resolved := order, memory, 0, 0, 0, [];
      posted, taken := [], 0;
    }

    /** The kernel posts, unless the ring is full. */
    method KernelPosts(c: Completion)
      requires Valid()
      modifies `cqes, `ktail, `posted
      ensures Valid()
      ensures posted == old(posted) || posted == old(posted) + [c]
      ensures posted == old(posted) <==> |old(posted)| == taken - cqeCount + Pow2(order)
    {
      IndicesCompare(order, cqes, khead, ktail, cqeCount, posted, taken);
      if Wrap32(ktail - khead) < Pow2(order) {
        PostKeeps(order, cqes, khead, ktail, cqeCount, posted, taken, c);
        cqes := cqes[BitAnd(ktail, Mask(Pow2(order))) := c];
        ktail := Wrap32(ktail + 1);
        posted := posted + [c];
      }
    }

    method KernelPostsAll(cs: seq<Completion>)
      requires Valid()
      modifies `cqes, `ktail, `posted
      ensures Valid() && old(posted) <= posted && (cs == [] ==> posted == old(posted) && ktail == old(ktail))
    {
      for i := 0 to |cs|
        invariant Valid() && old(posted) <= posted && (i == 0 ==> posted == old(posted) && ktail == old(ktail))
      {
        KernelPosts(cs[i]);
      }
    }

    /** `io_uring_cq_advance(&ring, cqe_count); cqe_count = 0`: exactly what is taken is released. */
    method ReleaseTaken()
      requires Valid()
      modifies `khead, `cqeCount
      ensures Valid() && cqeCount == 0 && khead == Wrap32(taken)
    {
      Next32(taken - cqeCount, cqeCount);
      khead := Wrap32(khead + cqeCount);
      cqeCount := 0;
    }

    /** `io_uring_get_sqe_safe`, spinning once per round. */
    method GetSqeSafe(rounds: seq<seq<Completion>>)
      requires Valid()
      modifies `cqes, `ktail, `posted, `khead, `cqeCount
      ensures Valid() && old(posted) <= posted
      ensures cqeCount == if rounds == [] then old(cqeCount) else 0
    {
      for i := 0 to |rounds|
        invariant Valid() && old(posted) <= posted
        invariant cqeCount == if i == 0 then old(cqeCount) else 0
      {
        ReleaseTaken();
        KernelPostsAll(rounds[i]);
      }
    }

    method PerformAll(acts: seq<Act>)
      requires Valid()
      modifies `cqes, `ktail, `posted, `khead, `cqeCount
      ensures Valid() && old(posted) <= posted && (acts == [] ==> posted == old(posted))
    {
      for i := 0 to |acts|
        invariant Valid() && old(posted) <= posted && (i == 0 ==> posted == old(posted))
      {
        match acts[i]
        case Post(c) => KernelPosts(c);
        case GetSqe(rounds) => GetSqeSafe(rounds);
      }
    }

    /** One turn on the entry at `head`: it is the next completion, it is taken, and its
        token, if any, is resolved before anything else happens. */
    method TakeOne(head: nat, acts: seq<Act>) returns (next: nat)
      requires Valid() && taken < |posted| && AtHead(head)
      modifies this
      ensures Valid() && old(posted) <= posted && taken == old(taken) + 1
      ensures acts == [] ==> posted == old(posted)
      ensures AtHead(next)
      ensures var c := old(posted)[old(taken)]; resolved == if c.data.Token? then old(resolved) + [c] else old(resolved)
    {
      Next32(taken, 1);
      next := Wrap32(head + 1);
      SlotOf32(order, taken);
      var cqe := cqes[BitAnd(head, Mask(Pow2(order)))];
      assert cqe == posted[taken];
      cqeCount := cqeCount + 1;
      taken := taken + 1;
      if cqe.data.Token? { resolved := resolved + [cqe]; }
      PerformAll(acts);
      IndicesCompare(order, cqes, khead, ktail, cqeCount, posted, taken);
    }

    /** `handle_completions`; `plan` says what happens while each completion is handled, and
        `late` is what the kernel posts between the last look at the tail and the release.
        Everything posted before the last look is taken and released, and no more; the tokens
        resolved are those at `positions`, each once, in order and with its own result. */
    method HandleCompletions(plan: seq<seq<Act>>, late: seq<Completion>) returns (ghost positions: seq<nat>)
      requires Valid() && cqeCount == 0
      modifies this
      ensures Valid() && old(posted) <= posted
      ensures cqeCount == 0 && old(taken) <= taken && |old(posted)| <= taken <= |posted| && khead == Wrap32(taken)
      ensures Picks(positions, posted, old(taken), taken)
      ensures Appends(old(resolved), resolved, posted, positions)
      ensures late == [] ==> taken == |posted| && khead == ktail
    {
      DispatchAll(plan, late);
      positions := TokenPositions(posted, old(taken), taken);
    }

    method DispatchAll(plan: seq<seq<Act>>, late: seq<Completion>)
      requires Valid() && cqeCount == 0
      modifies this
      ensures Valid() && old(posted) <= posted
      ensures cqeCount == 0 && old(taken) <= taken && |old(posted)| <= taken <= |posted| && khead == Wrap32(taken)
      ensures resolved == old(resolved) + Resolutions(posted, old(taken), taken)
      ensures late == [] ==> taken == |posted| && khead == ktail
    {
      IndicesCompare(order, cqes, khead, ktail, cqeCount, posted, taken);
      ForEach(plan);
      ghost var seen := posted;
      KernelPostsAll(late);
      SameResolutions(seen, posted, old(taken), taken);
      ReleaseTaken();
    }

    /** The loop: a local head, the tail read again on every turn. */
    method ForEach(plan: seq<seq<Act>>)
      requires Valid() && AtHead(khead)
      modifies this
      ensures Valid() && old(posted) <= posted && old(taken) <= taken == |posted| && ktail == Wrap32(taken)
      ensures resolved == old(resolved) + Resolutions(posted, old(taken), |posted|)
    {
      var head := khead;
      var rest := plan;
      ghost var start := taken;
      while head != ktail
        invariant Valid() && AtHead(head) && old(posted) <= posted && start <= taken <= |posted|
        invariant resolved == old(resolved) + Resolutions(posted, start, taken)
        decreases |rest|, |posted| - taken
      {
        ghost var before, was := posted, taken;
        var acts := if rest == [] then [] else rest[0];
        rest := if rest == [] then [] else rest[1..];
        head := TakeOne(head, acts);
        SameResolutions(before, posted, start, was);
      }
    }

    /** A local head at the next completion; it meets the tail when there is none. */
    ghost predicate AtHead(head: nat)
      reads this
    {
      head == Wrap32(taken) && (head == ktail <==> taken == |posted|)
    }
  }
}
