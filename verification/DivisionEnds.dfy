/** When the subtraction loop of `divmod_assign` ends. */
module DivisionEnds {
  import opened Words
  import opened BigIntSpec
  import opened BigInt
  import opened BigIntDivision

  /** One turn of the loop, on the dividend's words. */
  type Turn = seq<nat> -> seq<nat>

  /** `compare` finds the aligned dividend smaller: its words begin `off` below the divisor's. */
  ghost predicate Lower(a: seq<nat>, b: seq<nat>, off: nat) {
    Val(a) < Up(Val(b), off)
  }

  /** The do-while loop, started on the words `a`, ends after exactly `n` turns. */
  ghost predicate EndsAfter(turn: Turn, a: seq<nat>, b: seq<nat>, off: nat, n: nat)
    decreases n
  {
    && n > 0
    && if n == 1 then Lower(turn(a), b, off) else !Lower(turn(a), b, off) && EndsAfter(turn, turn(a), b, off, n - 1)
  }

  ghost predicate Ends(turn: Turn, a: seq<nat>, b: seq<nat>, off: nat) {
    exists n: nat :: EndsAfter(turn, a, b, off, n)
  }

  /** The loop's turn: `subtract_aligned`. */
  ghost function Subtraction(f: WordStep<(nat, nat)>, b: seq<nat>, off: nat): Turn {
    (a: seq<nat>) => if off + |b| <= |a| then Difference(f, a, b, off) else a
  }

  // ---------------------------------------------------------------------------
  // Too long a dividend
  // ---------------------------------------------------------------------------

  ghost predicate Long(a: seq<nat>, b: seq<nat>, off: nat) {
    off + |b| + 2 <= |a| && Bigits(a) && Topped(a)
  }

  /** Two words above the subtrahend are out of the subtraction's reach. */
  lemma TopUntouched(f: WordStep<(nat, nat)>, a: seq<nat>, b: seq<nat>, off: nat)
    requires Long(a, b, off) && Bigits(b) && Subtracts(f)
    ensures Long(Difference(f, a, b, off), b, off)
  {
    var top := a[off..];
    SubTopVal(f, top, b);
    var r := a[..off] + SubTop(f, top, b);
    assert r[|a| - 1] == a[|a| - 1];
    assert Strip(r) == r;
  }

  lemma LongIsNotLower(a: seq<nat>, b: seq<nat>, off: nat)
    requires Long(a, b, off) && Bigits(b)
    ensures !Lower(a, b, off)
  {
    FullVal(b, off);
    MoreWords(a, Full(b, off));
  }

  ghost predicate StaysLong(turn: Turn, b: seq<nat>, off: nat) {
    forall a {:trigger turn(a)} :: Long(a, b, off) ==> Long(turn(a), b, off)
  }

  lemma {:induction false} LongNeverEnds(turn: Turn, a: seq<nat>, b: seq<nat>, off: nat, n: nat)
    requires StaysLong(turn, b, off) && Long(a, b, off) && Bigits(b)
    ensures !EndsAfter(turn, a, b, off, n)
    decreases n
  {
    if n > 0 {
      LongIsNotLower(turn(a), b, off);
      LongNeverEnds(turn, turn(a), b, off, n - 1);
    }
  }

  // ---------------------------------------------------------------------------
  // A dividend at most one word longer
  // ---------------------------------------------------------------------------

  ghost predicate Short(a: seq<nat>, b: seq<nat>, off: nat) {
    off + |b| <= |a| <= off + |b| + 1 && Bigits(a) && Topped(a) && !Lower(a, b, off)
  }

  lemma NotLowerIsLong(a: seq<nat>, b: seq<nat>, off: nat)
    requires Bigits(a) && Bigits(b) && Topped(b) && !Lower(a, b, off)
    ensures off + |b| <= |a| && Val(a) > 0 && Up(Val(b), off) > 0
  {
    var full := Full(b, off);
    FullVal(b, off);
    if |a| < |full| { MoreWords(full, a); }
    ValTop(full);
    PowBPositive(|full| - 1);
  }

  /** A turn takes the divisor away exactly, and the words stay short. */
  lemma ExactTurn(f: WordStep<(nat, nat)>, a: seq<nat>, b: seq<nat>, off: nat)
    requires Short(a, b, off) && Bigits(b) && Topped(b) && Subtracts(f)
    ensures var r := Difference(f, a, b, off);
      Val(r) + Up(Val(b), off) == Val(a) && (Lower(r, b, off) || Short(r, b, off))
  {
    var top := a[off..];
    SplitVal(a, off);
    UpAtLeast(Val(top), Val(b), Val(a[..off]), off);
    assert top[|top| - 1] == a[|a| - 1];
    TopPaysBorrow(top, b);
    SubAtVal(f, a, b, off);
    var words := a[..off] + SubTop(f, top, b);
    StripVal(words);
    if !Lower(Strip(words), b, off) { ToppedAfterStrip(words, b, off); }
  }

  lemma ToppedAfterStrip(words: seq<nat>, b: seq<nat>, off: nat)
    requires Bigits(words) && Bigits(b) && Topped(b) && Bigits(Strip(words)) && !Lower(Strip(words), b, off)
    ensures off + |b| <= |Strip(words)| && Topped(Strip(words))
  {
    var r := Strip(words);
    NotLowerIsLong(r, b, off);
    if |r| == 1 { assert r[1..] == [] && Val(r) == r[0]; }
  }

  ghost predicate TakesAway(turn: Turn, b: seq<nat>, off: nat) {
    forall a {:trigger turn(a)} :: Short(a, b, off) ==>
      Val(turn(a)) + Up(Val(b), off) == Val(a) && (Lower(turn(a), b, off) || Short(turn(a), b, off))
  }

  lemma {:induction false} ShortEnds(turn: Turn, a: seq<nat>, b: seq<nat>, off: nat) returns (n: nat)
    requires TakesAway(turn, b, off) && Short(a, b, off) && Up(Val(b), off) > 0
    ensures EndsAfter(turn, a, b, off, n)
    decreases Val(a)
  {
    if Lower(turn(a), b, off) {
      n := 1;
    } else {
      var m := ShortEnds(turn, turn(a), b, off);
      n := m + 1;
    }
  }

  /** The loop makes as many turns as the divisor fits into the dividend. */
  lemma {:induction false} TurnsAreQuotient(turn: Turn, a: seq<nat>, b: seq<nat>, off: nat, n: nat)
    requires TakesAway(turn, b, off) && Short(a, b, off) && Up(Val(b), off) > 0
    requires n * Up(Val(b), off) <= Val(a) < (n + 1) * Up(Val(b), off)
    ensures EndsAfter(turn, a, b, off, n)
    decreases n
  {
    var u, v := Up(Val(b), off), Val(a);
    assert n > 0;
    assert (n - 1) * u == n * u - u && (n + 1) * u == n * u + u;
    if n > 1 {
      MulLe(1, n - 1, u);
      TurnsAreQuotient(turn, turn(a), b, off, n - 1);
    }
  }

  // ---------------------------------------------------------------------------
  // The exact condition
  // ---------------------------------------------------------------------------

  lemma SubtractionTurns(b: seq<nat>, off: nat)
    requires Bigits(b) && Topped(b)
    ensures var turn := Subtraction(SubtractBigits(), b, off); StaysLong(turn, b, off) && TakesAway(turn, b, off)
  {
    var f := SubtractBigits();
    SubtractBigitsSubtracts();
    var turn := Subtraction(f, b, off);
    forall a | Long(a, b, off) ensures Long(turn(a), b, off) { TopUntouched(f, a, b, off); }
    forall a | Short(a, b, off)
      ensures Val(turn(a)) + Up(Val(b), off) == Val(a) && (Lower(turn(a), b, off) || Short(turn(a), b, off))
    {
      ExactTurn(f, a, b, off);
    }
  }

  lemma LoopEnds(turn: Turn, a: seq<nat>, b: seq<nat>, off: nat)
    requires StaysLong(turn, b, off) && TakesAway(turn, b, off)
    requires Bigits(a) && Bigits(b) && Topped(a) && Topped(b) && !Lower(a, b, off)
    ensures Ends(turn, a, b, off) <==> |a| <= off + |b| + 1
  {
    NotLowerIsLong(a, b, off);
    if |a| <= off + |b| + 1 {
      var n := ShortEnds(turn, a, b, off);
      assert EndsAfter(turn, a, b, off, n);
    } else {
      forall n: nat ensures !EndsAfter(turn, a, b, off, n) { LongNeverEnds(turn, a, b, off, n); }
    }
  }

  /** The dividend's words once `align` has made its exponent at most the divisor's. */
  ghost function AlignedWords(a: BigInt, divisor: BigInt): seq<nat>
    reads a, divisor
  {
    if a.exp > divisor.exp then Full(a.bigits, a.exp - divisor.exp) else a.bigits
  }

  ghost function Offset(a: BigInt, divisor: BigInt): nat
    reads a, divisor
  {
    if a.exp > divisor.exp then 0 else divisor.exp - a.exp
  }

  /** For operands with nonzero top words, of which the dividend is not smaller, the loop of
      `divmod_assign` ends if and only if the dividend has at most one word more than the
      divisor. */
  lemma DivisionEnds(a: BigInt, divisor: BigInt)
    requires a.Valid() && divisor.Valid() && a.TopNonzero() && divisor.TopNonzero() && a.Value() >= divisor.Value()
    ensures var b, off := divisor.bigits, Offset(a, divisor);
      Ends(Subtraction(SubtractBigits(), b, off), AlignedWords(a, divisor), b, off) <==> a.NumBigits() <= divisor.NumBigits() + 1
  {
    var w, b, off := AlignedWords(a, divisor), divisor.bigits, Offset(a, divisor);
    AlignedNotLower(a, divisor);
    SubtractionTurns(b, off);
    LoopEnds(Subtraction(SubtractBigits(), b, off), w, b, off);
  }

  lemma AlignedNotLower(a: BigInt, divisor: BigInt)
    requires a.Valid() && divisor.Valid() && a.TopNonzero() && a.Value() >= divisor.Value()
    ensures var w, b, off := AlignedWords(a, divisor), divisor.bigits, Offset(a, divisor);
      Bigits(w) && Topped(w) && !Lower(w, b, off) && |w| - off - |b| == a.NumBigits() - divisor.NumBigits()
  {
    var w, b, off := AlignedWords(a, divisor), divisor.bigits, Offset(a, divisor);
    var e := if a.exp > divisor.exp then divisor.exp else a.exp;
    if a.exp > divisor.exp {
      FullVal(a.bigits, a.exp - divisor.exp);
      UpUp(Val(a.bigits), a.exp - divisor.exp, e);
    }
    UpUp(Val(b), off, e);
    PowBPositive(e);
    UpAtLeast(Val(w), Up(Val(b), off), 0, e);
  }

  /** 2^64 divided by 1: the top word is never reached and the loop does not end. */
  lemma NeverEnds()
    ensures !Ends(Subtraction(SubtractBigits(), [1], 0), [0, 0, 1], [1], 0)
  {
    SubtractionTurns([1], 0);
    var turn := Subtraction(SubtractBigits(), [1], 0);
    forall n: nat ensures !EndsAfter(turn, [0, 0, 1], [1], 0, n) { LongNeverEnds(turn, [0, 0, 1], [1], 0, n); }
  }
}
