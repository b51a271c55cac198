/** The vendored formatter's `bigint`: words plus an exponent counting implicit
    low zero words, updated in place. */
module BigInt {
  import opened Words
  import opened BigIntSpec

  class BigInt {
    var bigits: seq<nat>
    var exp: nat

    ghost predicate Valid()
      reads this
    {
      bigits != [] && Bigits(bigits)
    }

    ghost function Value(): nat
      reads this
    {
      Up(Val(bigits), exp)
    }

    function NumBigits(): nat
      reads this
    {
      |bigits| + exp
    }

    /** The top word is nonzero, so the word count bounds the value from below. */
    ghost predicate TopNonzero()
      requires bigits != []
      reads this
    {
      bigits[|bigits| - 1] != 0
    }

    ghost predicate IsZero()
      reads this
    {
      bigits == [0]
    }

    constructor ()
      ensures bigits == [] && exp == 0
    {
      bigits, exp := [], 0;
    }

    /** `assign(uint64_t)`. */
    method AssignWord(n: nat)
      requires n < B * B
      modifies this
      ensures Valid() && Value() == n && exp == 0
      ensures if n == 0 then IsZero() else TopNonzero()
    {
      bigits, exp := [n % B], 0;
      var m: nat := n / B;
      while m != 0
        invariant exp == 0 && bigits + CarryWords(m) == [n % B] + CarryWords(n / B)
        decreases m
      {
        bigits := bigits + [m % B];
        m := m / B;
      }
      assert bigits + CarryWords(m) == bigits;
      CarryWordsVal(n / B);
      assert bigits[1..] == CarryWords(n / B);
    }

    /** `assign(const bigint &)`: resize, then copy word by word. Whatever was held before,
        this is now the other number, as normalised as that one. */
    method Assign(other: BigInt)
      modifies this
      ensures bigits == old(other.bigits) && exp == old(other.exp)
      ensures old(other.Valid()) ==> Valid() && Value() == old(other.Value())
      ensures old(other.Valid() && other.TopNonzero()) ==> Valid() && TopNonzero()
    {
      var data, e, was := other.bigits, other.exp, bigits;
      var size := |data|;
      bigits := if size <= |was| then was[..size] else was + Zeros(size - |was|);
      for i := 0 to size
        invariant |bigits| == size && forall j :: 0 <= j < i ==> bigits[j] == data[j]
      {
        bigits := bigits[i := data[i]];
      }
      exp := e;
    }

    /** What both `multiply` members and `operator<<=` do: a loop over the words, then
        the words of the last carry are pushed. */
    method RippleWords(f: WordStep<nat>)
      requires Valid()
      modifies `bigits
      ensures bigits == Scaled(old(bigits), f)
    {
      var w, carry := RippleLoop(bigits, f);
      bigits := w;
      PushCarry(carry);
    }

    method PushCarry(carry: nat)
      modifies `bigits
      ensures bigits == old(bigits) + CarryWords(carry)
    {
      var c: nat := carry;
      while c != 0
        invariant bigits + CarryWords(c) == old(bigits) + CarryWords(carry)
        decreases c
      {
        bigits, c := bigits + [c % B], c / B;
      }
    }

    /** `multiply(uint32_t)`; the caller asserts a positive factor. */
    method Multiply32(value: nat)
      requires Valid() && 0 < value < B
      modifies `bigits
      ensures Valid() && Value() == old(Value()) * value
      ensures old(TopNonzero()) ==> TopNonzero()
      ensures old(IsZero()) ==> IsZero()
    {
      Times32Splits(value);
      ScaledVal(bigits, Times32(value), value, B);
      UpTimes(Val(bigits), value, exp);
      RippleWords(Times32(value));
    }

    /** `multiply(uint64_t)`. */
    method Multiply64(value: nat)
      requires Valid() && 0 < value < B * B
      modifies `bigits
      ensures Valid() && Value() == old(Value()) * value
      ensures old(TopNonzero()) ==> TopNonzero()
    {
      Times64Splits(value);
      ScaledVal(bigits, Times64(value), value, B * B);
      UpTimes(Val(bigits), value, exp);
      RippleWords(Times64(value));
    }

    /** `operator<<=`: whole words go to the exponent, the rest through the words. */
    method ShiftLeft(shift: nat)
      requires Valid()
      modifies this
      ensures Valid() && Value() == old(Value()) * Pow2(shift) && exp == old(exp) + shift / 32
      ensures old(TopNonzero()) ==> TopNonzero()
    {
      var k := shift % 32;
      ShiftValue(Val(bigits), exp, shift);
      exp := exp + shift / 32;
      if k == 0 { return; }
      ShiftSplits(k);
      ScaledVal(bigits, ShiftBy(k), Pow2(k), Pow2(k));
      RippleWords(ShiftBy(k));
    }

    /** `square`: column sums with a wide accumulator. */
    method Square()
      requires Valid()
      modifies this
      ensures Valid() && Value() == old(Value()) * old(Value()) && exp == 2 * old(exp)
      ensures old(TopNonzero()) ==> TopNonzero()
    {
      ghost var n := bigits;
      var words := SquareWords(bigits);
      SquareVal(n);
      StripVal(words);
      SquareValue(Val(n), exp);
      bigits, exp := Strip(words), 2 * exp;
      if old(TopNonzero()) { SquareTop(n, bigits); }
    }
  }

  /** A loop over words that carries from one to the next. */
  method RippleLoop<T>(s: seq<T>, f: WordStep<T>) returns (w: seq<nat>, carry: nat)
    ensures (w, carry) == Ripple(s, f, 0)
  {
    w, carry := [], 0;
    for i := 0 to |s|
      invariant w + Ripple(s[i..], f, carry).0 == Ripple(s, f, 0).0
      invariant Ripple(s[i..], f, carry).1 == Ripple(s, f, 0).1
    {
      assert s[i..][1..] == s[i + 1..] && s[i..][0] == s[i];
      w, carry := w + [f.low(s[i], carry)], f.next(s[i], carry);
    }
    assert s[|s|..] == [] && w + [] == w;
  }

  /** The column loops of `square`: a wide accumulator, one word out per column. */
  method SquareWords(n: seq<nat>) returns (words: seq<nat>)
    requires n != [] && Bigits(n)
    ensures words == CarryOut(n, 0, 2 * |n|, 0).0
  {
    words := [];
    var sum: nat := 0;
    ghost var rest := CarryOut(n, 0, 2 * |n|, 0).0;
    for k := 0 to 2 * |n|
      invariant sum <= |n| * (B - 1)
      invariant rest == CarryOut(n, k, 2 * |n| - k, sum).0
      invariant words + rest == CarryOut(n, 0, 2 * |n|, 0).0
    {
      var col := ColumnSum(n, k);
      ColumnBound(n, n, k, 0);
      SumFits(sum, col, |n|);
      assert |n| < B ==> sum + col < 0x1_0000_0000_0000_0000_0000_0000_0000_0000;
      CarryOutStep(n, k, 2 * |n| - k, sum, col);
      var low: nat, next: nat := (sum + col) % B, (sum + col) / B;
      rest := CarryOut(n, k + 1, 2 * |n| - k - 1, next).0;
      words, sum := words + [low], next;
    }
  }

  /** The inner loops of `square`: the low columns start at index 0, the high ones
      where both indices are in range. */
  method ColumnSum(n: seq<nat>, k: nat) returns (sum: nat)
    requires n != [] && k < 2 * |n|
    ensures sum == Column(n, n, k, 0)
  {
    var i := if k < |n| then 0 else k - (|n| - 1);
    ColumnSkip(n, n, k, i);
    sum := 0;
    while i < |n| && i <= k
      invariant 0 <= i <= |n| && i <= k + 1 && k - i < |n|
      invariant sum + Column(n, n, k, i) == Column(n, n, k, 0)
    {
      sum := sum + n[i] * n[k - i];
      i := i + 1;
    }
    if i == k + 1 { ColumnBefore(n, n, k, i); }
  }

  /** Indices whose partner lies beyond the top contribute nothing. */
  lemma {:induction false} ColumnSkip(a: seq<nat>, b: seq<nat>, k: nat, i: nat)
    requires i <= |a| && (i > 0 ==> k - (i - 1) >= |b|)
    ensures Column(a, b, k, 0) == Column(a, b, k, i)
    decreases i
  {
    if i > 0 { ColumnSkip(a, b, k, i - 1); }
  }

  lemma {:induction false} ColumnBound(a: seq<nat>, b: seq<nat>, k: int, i: nat)
    requires Bigits(a) && Bigits(b) && i <= |a|
    ensures Column(a, b, k, i) <= (|a| - i) * ((B - 1) * (B - 1))
    decreases |a| - i
  {
    if i < |a| {
      ColumnBound(a, b, k, i + 1);
      ProductBound(a[i], At(b, k - i));
    }
  }

  /** The accumulator stays below len * 2^64, and the carry below len words; with a word
      count that fits a word, below 2^96. */
  lemma SumFits(sum: nat, col: nat, len: nat)
    requires sum <= len * (B - 1) && col <= len * ((B - 1) * (B - 1))
    ensures sum + col <= len * (B * B) && (sum + col) / B <= len * (B - 1)
    ensures len < B ==> sum + col < B * B * B
  {
    assert sum + col <= len * (B - 1) * B;
    if len < B { MulLt(len, B, B * B); }
  }

  lemma SquareValue(v: nat, e: nat)
    ensures Up(v * v, 2 * e) == Up(v, e) * Up(v, e)
  {
    UpUp(v * v, e, e);
    UpTimes(v, v, e);
    var x := Up(v, e);
    assert Up(v * v, e) == x * v == v * x;
    UpTimes(v, x, e);
  }

  lemma SquareTop(n: seq<nat>, r: seq<nat>)
    requires n != [] && Topped(n) && Val(r) == Val(n) * Val(n) && r != [] && (|r| > 1 ==> Topped(r))
    ensures Topped(r)
  {
    ValTop(n);
    UpMonotone(0, 1, |n| - 1);
    UpZero(|n| - 1);
    MulLe(1, Val(n), Val(n));
    if |r| == 1 { assert r[1..] == []; }
  }

  lemma {:induction false} PowBIsPow2(q: nat)
    ensures PowB(q) == Pow2(32 * q)
  {
    if q > 0 {
      PowBIsPow2(q - 1);
      Pow2Add(32, 32 * (q - 1));
      Pow2At32();
    }
  }

  /** Shifting by whole words and a rest is multiplying by the power of two. */
  lemma ShiftValue(v: nat, e: nat, shift: nat)
    ensures Up(v * Pow2(shift % 32), e + shift / 32) == Up(v, e) * Pow2(shift)
  {
    var q, k := shift / 32, shift % 32;
    UpIsTimes(v, e, q);
    UpTimes(v, Pow2(k), e + q);
    assert Pow2(shift) == Pow2(32 * q) * Pow2(k) by {
      Pow2Add(32 * q, k);
      assert 32 * q + k == shift;
    }
    MulAssoc(Up(v, e), Pow2(32 * q), Pow2(k));
  }

  lemma UpIsTimes(v: nat, e: nat, q: nat)
    ensures Up(v, e + q) == Up(v, e) * Pow2(32 * q)
  {
    UpUp(v, e, q);
    UpTimes(1, Up(v, e), q);
    PowBIsPow2(q);
    assert Up(Up(v, e), q) == Pow2(32 * q) * Up(v, e);
  }
}
