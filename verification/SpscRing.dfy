/** The single-producer single-consumer ring: free-running 64-bit indices, a
    power-of-two capacity, one slot kept free, and a two-phase bulk copy. */
module RingIndices {
  import opened Words

  const WORD_BITS: nat := 64
  const WORD: nat := 0x1_0000_0000_0000_0000

  /** Capacities are 2^k; they must leave the 64-bit difference unambiguous. */
  ghost predicate IsOrder(k: nat) {
    1 <= k < WORD_BITS
  }

  /** The value an unsigned 64-bit variable holds after storing `x`. */
  function Wrap(x: int): (w: nat)
    ensures w < WORD
  {
    x % WORD
  }

  function Mask(cap: nat): nat
    requires cap > 0
  {
    cap - 1
  }

  /** The slot that the unbounded count `n` falls on. */
  function Slot(n: nat, cap: nat): (s: nat)
    requires cap > 0
    ensures s < cap
  {
    if n < cap then n else Slot(n - cap, cap)
  }

  lemma Pow2Square(n: nat, v: nat, m: nat)
    requires Pow2(n) == v && m == 2 * n
    ensures Pow2(m) == v * v
  {
    Pow2Add(n, n);
  }

  lemma WordIsPow2()
    ensures WORD == Pow2(WORD_BITS)
  {
    var byte := 8;
    assert Pow2(byte) == 0x100;
    Pow2Square(byte, 0x100, 16);
    Pow2Square(16, 0x1_0000, 32);
    Pow2Square(32, 0x1_0000_0000, WORD_BITS);
  }

  lemma CapacityDividesWord(k: nat)
    requires IsOrder(k)
    ensures WORD == Pow2(k) * Pow2(WORD_BITS - k)
    ensures 2 <= Pow2(k) < WORD
  {
    WordIsPow2();
    Pow2Add(k, WORD_BITS - k);
    Pow2Monotone(1, k);
    Pow2Monotone(k + 1, WORD_BITS);
  }

  lemma {:induction false} SlotIsMod(n: nat, cap: nat)
    requires cap > 0
    ensures Slot(n, cap) == n % cap
    decreases n
  {
    if n >= cap {
      SlotIsMod(n - cap, cap);
      ModShift(n, cap, -1);
    } else {
      DivMod(n, cap, 0, n);
    }
  }

  /** Masking a free-running index gives the slot of the unbounded count. */
  lemma SlotOfCount(k: nat, n: nat)
    requires IsOrder(k)
    ensures BitAnd(Wrap(n), Mask(Pow2(k))) == Slot(n, Pow2(k))
  {
    CapacityDividesWord(k);
    MaskIsMod(Wrap(n), k);
    ModOfMod(n, Pow2(k), Pow2(WORD_BITS - k));
    SlotIsMod(n, Pow2(k));
  }

  /** The difference of two wrapped indices is the difference of the counts. */
  lemma WrappedDifference(a: nat, b: nat, c: int)
    requires 0 <= c + a - b < WORD
    ensures Wrap(c + Wrap(a) - Wrap(b)) == c + a - b
  {
  }

  lemma WrapNext(n: nat, k: nat)
    ensures Wrap(Wrap(n) + k) == Wrap(n + k)
  {
  }

  /** Counts less than a capacity apart walk round the slots once. */
  lemma {:induction false} SlotStep(a: nat, j: nat, cap: nat)
    requires j <= cap && cap > 0
    ensures Slot(a + j, cap) == if Slot(a, cap) + j < cap then Slot(a, cap) + j else Slot(a, cap) + j - cap
    decreases a
  {
    if a >= cap { SlotStep(a - cap, j, cap); }
  }

  lemma SlotsDiffer(a: nat, b: nat, cap: nat)
    requires a < b < a + cap
    ensures Slot(a, cap) != Slot(b, cap)
  {
    SlotStep(a, b - a, cap);
  }

  /** Where `batch_out` reads the `j`-th of its entries: straight on when the write
      slot lies ahead of the read slot, otherwise up to the end and then from 0. */
  function BatchSlot(cap: nat, from: nat, to: nat, j: nat): int
  {
    if to > from then from + j
    else if j < cap - from then from + j else j - (cap - from)
  }

  /** `batch_out` reads the slots of the next `n` counts, and never sees its read
      and write slot coincide. */
  lemma BatchSlots(cap: nat, r: nat, n: nat, j: nat)
    requires j < n < cap
    ensures Slot(r + n, cap) != Slot(r, cap)
    ensures Slot(r + n, cap) < Slot(r, cap) ==> n >= cap - Slot(r, cap)
    ensures BatchSlot(cap, Slot(r, cap), Slot(r + n, cap), j) == Slot(r + j, cap)
  {
    SlotStep(r, n, cap);
    SlotStep(r, j, cap);
  }

  /** The `n` entries that follow count `from` in a buffer. */
  ghost function Window(d: seq<nat>, from: nat, n: nat): (s: seq<nat>)
    requires |d| > 0
    ensures |s| == n
    ensures forall j {:trigger s[j]} :: 0 <= j < n ==> s[j] == d[Slot(from + j, |d|)]
  {
    seq(n, j requires 0 <= j < n => d[Slot(from + j, |d|)])
  }

  /** One block copy or two: both give the window. */
  lemma BlockCopies(d: seq<nat>, r: nat, n: nat)
    requires 0 < n < |d|
    ensures var from, to := Slot(r, |d|), Slot(r + n, |d|);
      if to > from then from + n <= |d| && Window(d, r, n) == d[from..from + n]
      else 0 <= n - (|d| - from) <= |d| && Window(d, r, n) == d[from..] + d[..n - (|d| - from)]
  {
    var from, to, cap := Slot(r, |d|), Slot(r + n, |d|), |d|;
    SlotStep(r, n, cap);
    var copy := if to > from then d[from..from + n] else d[from..] + d[..n - (cap - from)];
    forall j | 0 <= j < n ensures copy[j] == Window(d, r, n)[j] {
      BatchSlots(cap, r, n, j);
    }
  }

  /** Writing the slot of the next count leaves the window alone and extends it. */
  lemma WindowPush(d: seq<nat>, from: nat, n: nat, v: nat)
    requires n < |d|
    ensures Window(d[Slot(from + n, |d|) := v], from, n + 1) == Window(d, from, n) + [v]
  {
    var d' := d[Slot(from + n, |d|) := v];
    forall j | 0 <= j < n + 1 ensures Window(d', from, n + 1)[j] == (Window(d, from, n) + [v])[j] {
      if j < n { SlotsDiffer(from + j, from + n, |d|); }
    }
  }

  lemma WindowPop(d: seq<nat>, from: nat, n: nat, k: nat)
    requires k <= n && |d| > 0
    ensures Window(d, from + k, n - k) == Window(d, from, n)[k..]
  {
    forall j | 0 <= j < n - k ensures Window(d, from + k, n - k)[j] == Window(d, from, n)[k..][j] {
      assert from + k + j == from + (k + j);
    }
  }
}

/** The ring as one thread uses it. */
module SpscRing {
  import opened Words
  import opened RingIndices

  class Ring {
    const order: nat
    const capacity: nat
    const data: array<nat>
    var indexWrite: int
    var indexRead: int
    /** unbounded counts of entries written and read so far */
    ghost var written: nat
    ghost var taken: nat

    ghost predicate Valid()
      reads this
    {
      && IsOrder(order) && capacity == Pow2(order) && data.Length == capacity
      && taken <= written <= taken + capacity - 1
      && indexWrite == Wrap(written) && indexRead == Wrap(taken)
    }

    ghost function Contents(): seq<nat>
      requires Valid()
      reads this, data
    {
      Window(data[..], taken, written - taken)
    }

    constructor (order: nat)
      requires IsOrder(order)
      ensures Valid() && Contents() == [] && this.order == order && fresh(data)
    {
      CapacityDividesWord(order);
      this.order, capacity, data := order, Pow2(order), new nat[Pow2(order)];
      indexWrite, indexRead, written, taken := 0, 0, 0, 0;
    }

    /** `try_emplace`: refuses exactly when capacity - 1 entries are inside. */
    method TryEmplace(v: nat) returns (ok: bool)
      requires Valid()
      modifies this, data
      ensures Valid() && taken == old(taken)
      ensures ok <==> |old(Contents())| < capacity - 1
      ensures Contents() == if ok then old(Contents()) + [v] else old(Contents())
    {
      CapacityDividesWord(order);
      var w, r := indexWrite, indexRead;
      var free := Wrap(Mask(capacity) + r - w);
      WrappedDifference(taken, written, capacity - 1);
      if free == 0 { return false; }
      SlotOfCount(order, written);
      WrapNext(written, 1);
      WindowPush(data[..], taken, written - taken, v);
      data[BitAnd(w, Mask(capacity))] := v;
      indexWrite, written := Wrap(w + 1), written + 1;
      return true;
    }

    /** `front` followed by reading through the pointer it returns. */
    method Front() returns (some: bool, v: nat)
      requires Valid()
      ensures some <==> Contents() != []
      ensures some ==> v == Contents()[0]
    {
      CapacityDividesWord(order);
      var r, w := indexRead, indexWrite;
      WrappedDifference(written, taken, 0);
      if Wrap(w - r) == 0 { return false, 0; }
      SlotOfCount(order, taken);
      return true, data[BitAnd(r, Mask(capacity))];
    }

    /** `pop`: the caller has seen a non-null `front`. */
    method Pop()
      requires Valid() && Contents() != []
      modifies `indexRead, `taken
      ensures Valid() && Contents() == old(Contents())[1..] && taken == old(taken) + 1
    {
      WrapNext(taken, 1);
      WindowPop(data[..], taken, written - taken, 1);
      var r := indexRead;
      indexRead, taken := Wrap(r + 1), taken + 1;
    }

    method Size() returns (n: nat)
      requires Valid()
      ensures n == |Contents()| <= capacity - 1
    {
      CapacityDividesWord(order);
      WrappedDifference(written, taken, 0);
      n := Wrap(indexWrite - indexRead);
    }

    /** The block copies of `batch_out`. */
    method CopyOut(from: nat, to: nat, entries: nat) returns (copy: seq<nat>)
      requires Valid() && 0 < entries == written - taken
      requires from == Slot(taken, capacity) && to == Slot(written, capacity)
      ensures copy == Contents()
    {
      BlockCopies(data[..], taken, entries);
      if to > from {
        copy := data[from..from + entries];
        assert data[..][from..from + entries] == copy;
      } else {
        var part1 := capacity - from;
        var part2 := entries - part1;
        copy := data[from..from + part1] + data[..part2];
        assert data[..][from..] + data[..][..part2] == copy;
      }
    }

    /** `batch_out`: everything inside, in order, by one or two block copies. */
    method BatchOut(v: seq<nat>) returns (ok: bool, v': seq<nat>)
      requires Valid()
      modifies `indexRead, `taken
      ensures Valid() && Contents() == [] && taken == old(written) && written == old(written)
      ensures ok <==> old(Contents()) != []
      ensures v' == v + old(Contents())
    {
      CapacityDividesWord(order);
      var r, w := indexRead, indexWrite;
      WrappedDifference(written, taken, 0);
      var entries := Wrap(w - r);
      if entries == 0 { return false, v; }
      SlotOfCount(order, taken);
      SlotOfCount(order, written);
      var copy := CopyOut(BitAnd(r, Mask(capacity)), BitAnd(w, Mask(capacity)), entries);
      v' := v + copy;
      WrapNext(taken, entries);
      indexRead, taken := Wrap(r + entries), written;
      ok := true;
    }

    /** Repeating `front` and `pop` for as many entries as were inside: the same
        values, the same final state as `BatchOut`. */
    method PopAll(v: seq<nat>) returns (ok: bool, v': seq<nat>)
      requires Valid()
      modifies `indexRead, `taken
      ensures Valid() && Contents() == [] && taken == old(written) && written == old(written)
      ensures ok <==> old(Contents()) != []
      ensures v' == v + old(Contents())
    {
      v', ok := v, false;
      var n := Size();
      for i := 0 to n
        invariant Valid() && Contents() == old(Contents())[i..] && taken == old(taken) + i
        invariant ok <==> i > 0
        invariant v' == v + old(Contents())[..i]
      {
        var some, x := Front();
        v' := v' + [x];
        ok := true;
        Pop();
      }
    }
  }
}
