/** Fixed-precision digit generation (`format_dragon` with a digit count): exact
    big-integer division, then rounding half to even. */
module Dragon {
  import opened Words
  import opened BigIntSpec
  import opened BigInt
  import opened BigIntDivision
  import opened Pow10

  // ---------------------------------------------------------------------------
  // What is computed
  // ---------------------------------------------------------------------------

  /** The scaled numerator and denominator: value = f * 2^e = (num / den) * 10^exp10. */
  ghost function Num(f: nat, e: int, shift: nat, exp10: int): nat {
    if e >= 0 then f * Pow2(shift) * Pow2(e)
    else if exp10 < 0 then Pow(10, -exp10) * (f * Pow2(shift))
    else f * Pow2(shift)
  }

  ghost function Den(e: int, shift: nat, exp10: int): nat
    requires e >= 0 ==> exp10 >= 0
  {
    if e >= 0 then Pow(10, exp10) * Pow2(shift)
    else if exp10 < 0 then Pow2(shift - e)
    else Pow(10, exp10) * Pow2(shift - e)
  }

  ghost function Up2(k: int): nat {
    if k >= 0 then Pow2(k) else 1
  }

  ghost function Up10(k: int): nat {
    if k >= 0 then Pow(10, k) else 1
  }

  /** num / den is f * 2^e / 10^exp10, with negative powers moved across. */
  lemma RatioIsValue(f: nat, e: int, shift: nat, exp10: int)
    requires e >= 0 ==> exp10 >= 0
    ensures Num(f, e, shift, exp10) * (Up10(exp10) * Up2(-e)) ==
      Den(e, shift, exp10) * (f * (Up2(e) * Up10(-exp10)))
  {
    var s, x := Pow2(shift), Pow(10, if exp10 < 0 then -exp10 else exp10);
    if e >= 0 {
      Shuffle(f, s, Pow2(e), x);
    } else {
      Pow2Add(shift, -e);
      if exp10 < 0 { Shuffle(f, s, Pow2(-e), x); } else { Shuffle(f, s, Pow2(-e), x); }
    }
  }

  lemma Shuffle(f: nat, s: nat, p: nat, x: nat)
    ensures (f * s * p) * (x * 1) == (x * s) * (f * (p * 1))
    ensures (x * (f * s)) * (1 * p) == (s * p) * (f * (1 * x))
    ensures (f * s) * (x * p) == (x * (s * p)) * (f * (1 * 1))
  {
    FourFactors(f, s, p, x);
  }

  lemma FourFactors(f: nat, s: nat, p: nat, x: nat)
    ensures (f * s * p) * x == f * (s * (p * x)) == (x * s) * (f * p)
    ensures (x * (f * s)) * p == f * (s * (p * x)) == (s * p) * (f * x)
    ensures (f * s) * (x * p) == f * (s * (p * x)) == (x * (s * p)) * f
  {
  }

  /** The number that decimal digits spell, most significant first. */
  ghost function DigVal(s: seq<nat>): nat {
    if s == [] then 0 else 10 * DigVal(s[..|s| - 1]) + s[|s| - 1]
  }

  /** `r` is the integer nearest to x / d, the even one of two equally near. */
  ghost predicate Nearest(x: nat, d: nat, r: nat) {
    var diff: int := 2 * (x - r * d);
    0 <= diff + d && diff <= d && (diff == d || diff + d == 0 ==> r % 2 == 0)
  }

  /** `r` is the multiple of 10^u nearest to f * 2^e, in units of 10^u, the even one of two
      equally near; negative powers are moved across. */
  ghost predicate NearestDecimal(f: nat, e: int, u: int, r: nat) {
    Nearest(f * (Up2(e) * Up10(-u)), Up10(u) * Up2(-e), r)
  }

  lemma SameSign(a: int, p: nat, b: int, q: nat)
    requires a * p == b * q && p > 0 && q > 0
    ensures (a >= 0 <==> b >= 0) && (a <= 0 <==> b <= 0)
  {
    if a > 0 { assert a * p > 0; }
    if a < 0 { assert a * p < 0; }
    if b > 0 { assert b * q > 0; }
    if b < 0 { assert b * q < 0; }
  }

  /** Nearness depends on the ratio only. */
  lemma NearestOfRatio(x: nat, d: nat, y: nat, c: nat, r: nat)
    requires d > 0 && c > 0 && x * c == y * d && Nearest(x, d, r)
    ensures Nearest(y, c, r)
  {
    var m, n := 2 * (x - r * d), 2 * (y - r * c);
    assert m * c == n * d by { assert (r * d) * c == (r * c) * d; }
    assert (m + d) * c == (n + c) * d && (m - d) * c == (n - c) * d;
    SameSign(m + d, c, n + c, d);
    SameSign(m - d, c, n - c, d);
  }

  /** 10^x / 10^u is 10^(x - u), whatever the signs. */
  lemma PowersCross(x: int, u: int)
    requires x >= u
    ensures Up10(x) * Up10(-u) == Up10(-x) * Up10(u) * Pow(10, x - u)
  {
    if u >= 0 { PowAdd(10, u, x - u); }
    else if x >= 0 { PowAdd(10, x, -u); }
    else { PowAdd(10, -x, x - u); }
  }

  /** From the ratio at 10^x to the ratio at 10^u: a / a' = 10^x, b / b' = 10^u. */
  lemma RatioAt(num: nat, den: nat, a: nat, a': nat, b: nat, b': nat, k: nat, k': nat, two: nat, v: nat)
    requires num * (a * two) == den * (v * a') && a * b' * k' == a' * b * k && a' > 0
    ensures (num * k) * (b * two) == (v * b') * (den * k')
  {
    var p, q := num * (a * two), den * (v * a');
    var x, y := (num * k) * (b * two), (v * b') * (den * k');
    var m, n := a * b' * k', a' * b * k;
    assert a' * x == num * two * n by { Regroup5(a', num, k, b, two); }
    assert num * two * m == p * (b' * k') by { Regroup5(num, two, a, b', k'); }
    assert q * (b' * k') == a' * y by { Regroup6(den, v, a', b', k'); }
    Cancel(x, y, a');
  }

  lemma Regroup5(a: nat, b: nat, c: nat, d: nat, e: nat)
    ensures a * ((b * c) * (d * e)) == b * e * (a * d * c)
    ensures a * b * (c * d * e) == (a * (c * b)) * (d * e)
  {
  }

  lemma Regroup6(d: nat, v: nat, a: nat, b: nat, k: nat)
    ensures (d * (v * a)) * (b * k) == a * ((v * b) * (d * k))
  {
  }

  lemma {:induction false} Up10Positive(k: int)
    ensures Up10(k) > 0
    decreases if k >= 0 then k else 0
  {
    if k > 0 { Up10Positive(k - 1); }
  }

  lemma {:induction false} Pow2Positive(k: int)
    ensures Up2(k) > 0
    decreases if k >= 0 then k else 0
  {
    if k > 0 { Pow2Positive(k - 1); }
  }

  lemma DenPositive(e: int, shift: nat, exp10: int)
    requires e >= 0 ==> exp10 >= 0
    ensures Den(e, shift, exp10) > 0
  {
    Up10Positive(exp10);
    Pow2Positive(shift);
    Pow2Positive(shift - e);
    MulLt(0, Up10(exp10), Up2(shift));
    MulLt(0, Up10(exp10), Up2(shift - e));
  }

  lemma NearestFromParts(num: nat, den: nat, a: nat, a': nat, b: nat, b': nat, k: nat, k': nat, f: nat, up: nat, down: nat, r: nat)
    requires num * (a * down) == den * (f * (up * a')) && a * b' * k' == a' * b * k
    requires a' > 0 && b > 0 && down > 0 && den > 0 && k' > 0 && Nearest(num * k, den * k', r)
    ensures Nearest(f * (up * b'), b * down, r)
  {
    var v := f * up;
    assert v * a' == f * (up * a') && v * b' == f * (up * b') by { MulAssoc(f, up, a'); MulAssoc(f, up, b'); }
    RatioAt(num, den, a, a', b, b', k, k', down, v);
    MulLt(0, b, down);
    MulLt(0, den, k');
    NearestOfRatio(num * k, den * k', v * b', b * down, r);
  }

  /** What is nearest in terms of numerator and denominator is nearest to f * 2^e. */
  lemma NearestToValue(f: nat, e: int, shift: nat, exp10: int, u: int, r: nat)
    requires e >= 0 ==> exp10 >= 0
    requires u <= exp10 + 1
    requires var n, d := Num(f, e, shift, exp10), Den(e, shift, exp10);
      if u <= exp10 then Nearest(n * Pow(10, exp10 - u), d, r) else Nearest(n, 10 * d, r)
    ensures NearestDecimal(f, e, u, r)
  {
    var n, d := Num(f, e, shift, exp10), Den(e, shift, exp10);
    var k, k' := if u <= exp10 then Pow(10, exp10 - u) else 1, if u <= exp10 then 1 else 10;
    RatioIsValue(f, e, shift, exp10);
    PowersMeet(exp10, u, k, k');
    Up10Positive(-exp10);
    DenPositive(e, shift, exp10);
    Up10Positive(u);
    Pow2Positive(-e);
    NearestFromParts(n, d, Up10(exp10), Up10(-exp10), Up10(u), Up10(-u), k, k', f, Up2(e), Up2(-e), r);
  }

  lemma PowersMeet(x: int, u: int, k: nat, k': nat)
    requires u <= x + 1 && k == (if u <= x then Pow(10, x - u) else 1) && k' == (if u <= x then 1 else 10)
    ensures Up10(x) * Up10(-u) * k' == Up10(-x) * Up10(u) * k
  {
    if u <= x {
      PowersCross(x, u);
    } else {
      PowersCross(u, x);
      assert Pow(10, 0) == 1 && Pow(10, 1) == 10;
    }
  }

  lemma {:induction false} DigValConcat(a: seq<nat>, b: seq<nat>)
    ensures DigVal(a + b) == DigVal(a) * Pow(10, |b|) + DigVal(b)
    decreases |b|
  {
    if b == [] {
      assert a + b == a;
    } else {
      DigValConcat(a, b[..|b| - 1]);
      assert (a + b)[..|a + b| - 1] == a + b[..|b| - 1];
      var x, p := DigVal(a), Pow(10, |b| - 1);
      assert 10 * (x * p) == x * (10 * p);
    }
  }

  // ---------------------------------------------------------------------------
  // Scaling
  // ---------------------------------------------------------------------------

  /** The first part of `format_dragon`. The boundaries it also prepares belong to
      the shortest-digits mode and are not modelled. */
  method Scale(f: nat, e: int, shift: nat, exp10: int) returns (num: BigInt, den: BigInt)
    requires 0 < f < 0x4000_0000_0000_0000 && 1 <= shift <= 2 && (e >= 0 ==> exp10 >= 0)
    requires -0x4000_0000 < exp10 < 0x4000_0000
    ensures fresh(num) && fresh(den) && num != den
    ensures num.Valid() && num.TopNonzero() && num.Value() == Num(f, e, shift, exp10)
    ensures den.Valid() && den.TopNonzero() && den.Value() == Den(e, shift, exp10)
    ensures num.exp == (if e >= 0 then e / 32 else if exp10 < 0 then -exp10 / 32 else 0)
    ensures den.exp == (if e >= 0 then exp10 / 32 else if exp10 < 0 then (shift - e) / 32 else exp10 / 32 + (shift - e) / 32)
  {
    num := new BigInt();
    den := new BigInt();
    SignificandFits(f, shift);
    var significand := f * Pow2(shift);
    if e >= 0 {
      num.AssignWord(significand);
      num.ShiftLeft(e);
      AssignPow10(den, exp10);
      den.ShiftLeft(shift);
    } else if exp10 < 0 {
      AssignPow10(num, -exp10);
      num.Multiply64(significand);
      den.AssignWord(1);
      den.ShiftLeft(shift - e);
    } else {
      num.AssignWord(significand);
      AssignPow10(den, exp10);
      den.ShiftLeft(shift - e);
    }
  }

  /** The shifted significand still fits a 64-bit word. */
  lemma SignificandFits(f: nat, shift: nat)
    requires 0 < f < 0x4000_0000_0000_0000 && 1 <= shift <= 2
    ensures 0 < f * Pow2(shift) < B * B
  {
    assert Pow2(1) == 2 && Pow2(2) == 4;
  }

  // ---------------------------------------------------------------------------
  // The one comparison that divmod_assign gets wrong cannot come up
  // ---------------------------------------------------------------------------

  lemma {:induction false} Pow5Odd(t: nat)
    ensures Pow(5, t) % 2 == 1 && Pow(5, t) > 0
  {
    if t > 0 { Pow5Odd(t - 1); }
  }

  /** If a multiple of an odd number is f * 2^e, then f is a multiple of it. */
  lemma {:induction false} OddPart(f: nat, e: nat, o: nat, q: nat)
    requires o % 2 == 1 && f > 0 && f * Pow2(e) == o * q
    ensures o <= f
  {
    if e == 0 {
      if f < o && q > 0 { MulLe(1, q, o); }
    } else {
      assert f * Pow2(e) == 2 * (f * Pow2(e - 1));
      EvenFactor(o, q);
      assert o * q == 2 * (o * (q / 2)) by { assert q == 2 * (q / 2); }
      OddPart(f, e - 1, o, q / 2);
    }
  }

  lemma EvenFactor(o: nat, q: nat)
    requires o % 2 == 1 && (o * q) % 2 == 0
    ensures q % 2 == 0
  {
    var h := o / 2;
    assert o * q == 2 * (h * q) + q by { assert o == 2 * h + 1; }
  }

  lemma {:induction false} PowMonotone(b: nat, x: nat, y: nat)
    requires b >= 1 && x <= y
    ensures 1 <= Pow(b, x) <= Pow(b, y)
  {
    if x < y {
      PowMonotone(b, x, y - 1);
      MulLe(1, b, Pow(b, y - 1));
    } else if x > 0 {
      PowMonotone(b, x - 1, y - 1);
      MulMono(1, b, 1, Pow(b, x - 1));
    }
  }

  lemma Pow5At27()
    ensures Pow(5, 27) >= 0x4000_0000_0000_0000
  {
    var three := 3;
    assert Pow(5, three) == 125;
    PowAdd(5, 3, 3);
    PowAdd(5, 6, 6);
    PowAdd(5, 12, 12);
    PowAdd(5, 24, 3);
  }

  /** A value with at most 62 significant bits that is a power of ten has a small
      binary exponent. */
  lemma PowerOfTenIsSmall(f: nat, e: nat, t: nat)
    requires 0 < f < 0x4000_0000_0000_0000 && f * Pow2(e) == Pow(10, t)
    ensures e < 32
  {
    PowTen(t);
    Pow5Odd(t);
    OddPart(f, e, Pow(5, t), Pow2(t));
    if t >= 27 {
      PowMonotone(5, 27, t);
      Pow5At27();
    }
    if e >= 32 {
      Pow2Monotone(t + 1, e);
      Larger(Pow(5, t), f, Pow2(t), Pow2(e));
    }
  }

  lemma Larger(x: nat, y: nat, u: nat, v: nat)
    requires 0 < x <= y && u < v
    ensures x * u < y * v
  {
    MulLt(u, v, x);
    MulLe(x, y, v);
    assert u * x == x * u && v * x == x * v;
  }

  lemma Cancel(x: nat, y: nat, a: nat)
    requires a > 0 && x * a == y * a
    ensures x == y
  {
    if x < y { MulLt(x, y, a); }
    if y < x { MulLt(y, x, a); }
  }

  /** With `i` leading zero digits so far, the remainder is num * 10^i. If it equals
      the denominator, the numerator's exponent is not the larger one. */
  lemma NoLateTie(f: nat, e: int, shift: nat, exp10: int, i: nat)
    requires 0 < f < 0x4000_0000_0000_0000 && e >= 0 && exp10 >= 0
    requires Num(f, e, shift, exp10) * Pow(10, i) == Den(e, shift, exp10)
    ensures e / 32 == 0
  {
    CancelScale(f, Pow2(shift), Pow2(e), Pow(10, i), Pow(10, exp10));
    MulMono(1, f, 1, Pow2(e));
    TensDivideOut(f * Pow2(e), i, exp10);
    PowerOfTenIsSmall(f, e, exp10 - i);
  }

  lemma CancelScale(f: nat, s: nat, p: nat, x: nat, y: nat)
    requires s > 0 && (f * s * p) * x == y * s
    ensures (f * p) * x == y
  {
    assert (f * s * p) * x == ((f * p) * x) * s by { FourFactors(f, s, p, x); FourFactors(f, p, x, s); }
    Cancel((f * p) * x, y, s);
  }

  lemma TensDivideOut(v: nat, i: nat, x: nat)
    requires v > 0 && v * Pow(10, i) == Pow(10, x)
    ensures i <= x && v == Pow(10, x - i)
  {
    PowMonotone(10, 0, i);
    PowMonotone(10, 0, x);
    if i <= x {
      PowAdd(10, x - i, i);
      Cancel(v, Pow(10, x - i), Pow(10, i));
    } else {
      assert Pow(10, i) == 10 * Pow(10, i - 1);
      PowMonotone(10, x, i - 1);
      MulLe(1, v, Pow(10, i));
    }
  }

  /** Below a power of ten the power of two in the denominator is large enough. */
  lemma SmallValueAligned(f: nat, e: int, shift: nat, exp10: int)
    requires f > 0 && e < 0 && exp10 < 0 && Num(f, e, shift, exp10) < 10 * Den(e, shift, exp10)
    ensures -exp10 <= shift - e
  {
    var m := -exp10;
    if m > shift - e {
      PowBeats(m - 1);
      Pow2Monotone(shift - e, m - 1);
      MulMono(1, f, 1, Pow2(shift));
      AtLeastFactor(Pow(10, m), f * Pow2(shift));
    }
  }

  lemma AtLeastFactor(x: nat, y: nat)
    requires y >= 1
    ensures x * y >= x
  {
    MulLe(1, y, x);
  }

  lemma {:induction false} PowBeats(n: nat)
    ensures Pow2(n) <= Pow(10, n)
  {
    if n > 0 { PowBeats(n - 1); }
  }

  // ---------------------------------------------------------------------------
  // Digit generation
  // ---------------------------------------------------------------------------

  /** No remainder n0 * 10^i meets the denominator with the larger exponent. */
  ghost predicate TieFree(n0: nat, d: nat, e0: nat, de: nat) {
    forall i: nat {:trigger Pow(10, i)} :: n0 * Pow(10, i) == d ==> e0 <= de
  }

  lemma ScaledTieFree(f: nat, e: int, shift: nat, exp10: int, e0: nat, de: nat)
    requires 0 < f < 0x4000_0000_0000_0000 && (e >= 0 ==> exp10 >= 0)
    requires Num(f, e, shift, exp10) < 10 * Den(e, shift, exp10)
    requires e0 == (if e >= 0 then e / 32 else if exp10 < 0 then -exp10 / 32 else 0)
    requires e < 0 && exp10 < 0 ==> de == (shift - e) / 32
    ensures TieFree(Num(f, e, shift, exp10), Den(e, shift, exp10), e0, de)
  {
    if e >= 0 {
      forall i: nat {:trigger Pow(10, i)} | Num(f, e, shift, exp10) * Pow(10, i) == Den(e, shift, exp10) ensures e0 <= de {
        NoLateTie(f, e, shift, exp10, i);
      }
    } else if exp10 < 0 {
      SmallValueAligned(f, e, shift, exp10);
    }
  }

  /** The numerator of digit generation: less than ten denominators, hence at most
      one word longer. */
  lemma AtMostOneWordMore(num: BigInt, den: BigInt)
    requires den.Valid() && den.TopNonzero() && Comparable(num, den.NumBigits())
    requires num.Value() < 10 * den.Value()
    ensures Dividend(num, den)
  {
    FullVal(num.bigits, num.exp);
    FullVal(den.bigits, den.exp);
    if num.NumBigits() > den.NumBigits() + 1 {
      ValTop(Full(num.bigits, num.exp));
      ValBound(Full(den.bigits, den.exp));
      PowBMonotone(den.NumBigits() + 1, num.NumBigits() - 1);
    }
  }

  /** What holds between two digits: the value splits into digits and remainder. */
  ghost predicate Generating(num: BigInt, den: BigInt, buf: seq<nat>, n0: nat, e0: nat)
    reads num, den
  {
    && num != den && den.Valid() && den.TopNonzero() && Comparable(num, den.NumBigits())
    && num.Value() < 10 * den.Value()
    && n0 * Pow(10, |buf|) == 10 * (den.Value() * DigVal(buf)) + num.Value()
    && (forall j :: 0 <= j < |buf| ==> buf[j] <= 9)
    && (num.exp <= den.exp || (num.exp == e0 && num.Value() == n0 * Pow(10, |buf|)))
  }

  /** One digit: floor(num / den), never confused by the comparison's tie rule. */
  method NextDigit(num: BigInt, den: BigInt, ghost buf: seq<nat>, ghost n0: nat, ghost e0: nat) returns (digit: nat)
    requires Generating(num, den, buf, n0, e0) && TieFree(n0, den.Value(), e0, den.exp)
    modifies num
    ensures den.Valid() && den.TopNonzero() && Comparable(num, den.NumBigits())
    ensures num.Value() < den.Value() && digit <= 9
    ensures digit * den.Value() + num.Value() == old(num.Value())
    ensures num.exp <= den.exp || (num.exp == e0 && num.Value() == old(num.Value()) == n0 * Pow(10, |buf|))
  {
    AtMostOneWordMore(num, den);
    digit := DivmodAssign(num, den);
    if digit > 9 { MulLe(10, digit, den.Value()); }
  }

  lemma DigitStep(n0: nat, p: nat, d: nat, v: nat, digit: nat, r: nat, x: nat)
    requires n0 * p == 10 * (d * v) + x && digit * d + r == x
    ensures n0 * p == d * (10 * v + digit) + r
    ensures n0 * (10 * p) == 10 * (d * (10 * v + digit)) + 10 * r
  {
    assert d * (10 * v + digit) == 10 * (d * v) + digit * d;
    assert n0 * (10 * p) == 10 * (n0 * p);
  }

  /** The digit loop and the last digit: `n` digits of n0 * 10^(n-1) / den, floored,
      with the exact remainder left in `num`. */
  method GenerateDigits(num: BigInt, den: BigInt, n: nat, ghost n0: nat, ghost e0: nat) returns (buf: seq<nat>)
    requires n > 0 && Generating(num, den, [], n0, e0) && TieFree(n0, den.Value(), e0, den.exp)
    modifies num
    ensures |buf| == n && forall j :: 0 <= j < n ==> buf[j] <= 9
    ensures den.Valid() && den.TopNonzero() && Comparable(num, den.NumBigits()) && num.Value() < den.Value()
    ensures n0 * Pow(10, n - 1) == den.Value() * DigVal(buf) + num.Value()
  {
    buf := [];
    for i := 0 to n - 1
      invariant |buf| == i && Generating(num, den, buf, n0, e0)
    {
      buf := DigitAndScale(num, den, buf, n0, e0);
    }
    ghost var before := num.Value();
    var digit := NextDigit(num, den, buf, n0, e0);
    DigitStep(n0, Pow(10, |buf|), den.Value(), DigVal(buf), digit, num.Value(), before);
    assert (buf + [digit])[..|buf|] == buf;
    buf := buf + [digit];
  }

  method DigitAndScale(num: BigInt, den: BigInt, buf: seq<nat>, ghost n0: nat, ghost e0: nat) returns (buf': seq<nat>)
    requires Generating(num, den, buf, n0, e0) && TieFree(n0, den.Value(), e0, den.exp)
    modifies num
    ensures |buf'| == |buf| + 1 && Generating(num, den, buf', n0, e0)
  {
    ghost var before := num.Value();
    var digit := NextDigit(num, den, buf, n0, e0);
    DigitStep(n0, Pow(10, |buf|), den.Value(), DigVal(buf), digit, num.Value(), before);
    num.Multiply32(10);
    buf' := buf + [digit];
    assert buf'[..|buf|] == buf;
  }

  // ---------------------------------------------------------------------------
  // Rounding
  // ---------------------------------------------------------------------------

  /** Rounding a quotient with remainder: up above a half, at a half if odd. */
  lemma RoundsToNearest(x: nat, d: nat, v: nat, r: nat, up: bool)
    requires x == d * v + r && r < d
    requires up <==> 2 * r > d || (2 * r == d && v % 2 == 1)
    ensures Nearest(x, d, if up then v + 1 else v)
  {
    assert (v + 1) * d == d * v + d && v * d == d * v;
  }

  lemma {:induction false} DigValZeros(n: nat)
    ensures DigVal(Zeros(n)) == 0
  {
    if n > 0 {
      assert Zeros(n)[..n - 1] == Zeros(n - 1);
      DigValZeros(n - 1);
    }
  }

  lemma TrailingZeros(a: seq<nat>, n: nat)
    ensures DigVal(a + Zeros(n)) == DigVal(a) * Pow(10, n)
  {
    DigValConcat(a, Zeros(n));
    DigValZeros(n);
  }

  /** The carry loop, entered with the last digit overflowed to ten: digits and bump
      of the decimal exponent spell the same number as before. */
  method PropagateCarry(start: seq<nat>) returns (buf: seq<nat>, bump: nat)
    requires |start| > 0 && start[|start| - 1] == 10
    requires forall j :: 0 <= j < |start| - 1 ==> start[j] <= 9
    ensures |buf| == |start| && bump <= 1 && (forall j :: 0 <= j < |buf| ==> buf[j] <= 9)
    ensures DigVal(buf) * Pow(10, bump) == DigVal(start)
    ensures bump == 1 ==> DigVal(buf) == Pow(10, |buf| - 1)
  {
    buf, bump := start, 0;
    var n, i := |start|, |start| - 1;
    while i > 0 && buf[i] == 10
      invariant 0 <= i < n == |buf| && buf[i] <= 10 && DigVal(buf) == DigVal(start)
      invariant forall j :: 0 <= j < i ==> buf[j] <= 9
      invariant forall j :: i < j < n ==> buf[j] == 0
    {
      CarryStep(buf, i);
      buf := buf[i := 0][i - 1 := buf[i - 1] + 1];
      i := i - 1;
    }
    if buf[0] == 10 {
      LeadingTen(buf);
      buf, bump := buf[0 := 1], 1;
    } else {
      assert DigVal(buf) * Pow(10, 0) == DigVal(buf);
    }
  }

  /** Moving a ten one place to the left keeps the number. */
  lemma CarryStep(buf: seq<nat>, i: nat)
    requires 0 < i < |buf| && buf[i] == 10
    ensures DigVal(buf[i := 0][i - 1 := buf[i - 1] + 1]) == DigVal(buf)
  {
    var next := buf[i := 0][i - 1 := buf[i - 1] + 1];
    var p, q, tail := buf[..i + 1], next[..i + 1], buf[i + 1..];
    assert buf == p + tail && next == q + tail;
    DigValConcat(p, tail);
    DigValConcat(q, tail);
    assert p[..i][..i - 1] == q[..i][..i - 1];
  }

  lemma LeadingTen(buf: seq<nat>)
    requires |buf| > 0 && buf[0] == 10 && forall j :: 1 <= j < |buf| ==> buf[j] == 0
    ensures DigVal(buf[0 := 1]) == Pow(10, |buf| - 1) && DigVal(buf[0 := 1]) * Pow(10, 1) == DigVal(buf)
  {
    var zeros := Zeros(|buf| - 1);
    assert buf[0 := 1] == [1] + zeros && buf == [10] + zeros;
    TrailingZeros([1], |zeros|);
    TrailingZeros([10], |zeros|);
    assert [1][..0] == [] && [10][..0] == [] && Pow(10, 1) == 10 * Pow(10, 0);
  }

  /** The rounding decision and its carry, on digits and an exact remainder. */
  method RoundDigits(buf: seq<nat>, num: BigInt, den: BigInt, ghost x: nat) returns (digits: seq<nat>, bump: nat)
    requires |buf| > 0 && forall j :: 0 <= j < |buf| ==> buf[j] <= 9
    requires den.Valid() && den.TopNonzero() && Comparable(num, den.NumBigits()) && num.Value() < den.Value()
    requires x == den.Value() * DigVal(buf) + num.Value()
    ensures |digits| == |buf| && bump <= 1 && (forall j :: 0 <= j < |digits| ==> digits[j] <= 9)
    ensures Nearest(x, den.Value(), DigVal(digits) * Pow(10, bump))
    ensures bump == 1 ==> DigVal(digits) == Pow(10, |buf| - 1)
  {
    ParityOfLast(buf);
    var up := RoundsUp(buf[|buf| - 1], num, den, x, DigVal(buf));
    if up { digits, bump := OneMore(buf); } else { digits, bump := buf, 0; }
    assert bump == 0 ==> DigVal(digits) * Pow(10, bump) == DigVal(digits);
  }

  lemma ParityOfLast(buf: seq<nat>)
    requires |buf| > 0
    ensures DigVal(buf) % 2 == buf[|buf| - 1] % 2
  {
    var q, d := DigVal(buf[..|buf| - 1]), buf[|buf| - 1];
    assert DigVal(buf) == d + 2 * (5 * q);
    ModShift(d, 2, 5 * q);
  }

  /** The decision: above half, or half after an odd digit. */
  method RoundsUp(digit: nat, num: BigInt, den: BigInt, ghost x: nat, ghost v: nat) returns (up: bool)
    requires den.Valid() && den.TopNonzero() && Comparable(num, den.NumBigits()) && num.Value() < den.Value()
    requires x == den.Value() * v + num.Value() && v % 2 == digit % 2
    ensures Nearest(x, den.Value(), if up then v + 1 else v)
  {
    var result := AddCompare(num, num, den);
    up := result > 0 || (result == 0 && digit % 2 != 0);
    RoundsToNearest(x, den.Value(), v, num.Value(), up);
  }

  /** Adding one in the last place; a carry out of all nines bumps the exponent. */
  method OneMore(buf: seq<nat>) returns (digits: seq<nat>, bump: nat)
    requires |buf| > 0 && forall j :: 0 <= j < |buf| ==> buf[j] <= 9
    ensures |digits| == |buf| && bump <= 1 && (forall j :: 0 <= j < |digits| ==> digits[j] <= 9)
    ensures DigVal(digits) * Pow(10, bump) == DigVal(buf) + 1
    ensures bump == 1 ==> DigVal(digits) == Pow(10, |buf| - 1)
  {
    var n := |buf|;
    var digit := buf[n - 1];
    if digit == 9 {
      ghost var over := buf[n - 1 := 10];
      assert over[..n - 1] == buf[..n - 1];
      digits, bump := PropagateCarry(buf[n - 1 := 10]);
    } else {
      digits, bump := buf[n - 1 := digit + 1], 0;
      assert digits[..n - 1] == buf[..n - 1];
      assert Pow(10, 0) == 1;
    }
  }

  /** `format_dragon` with a digit count, started with num < 10 * den: the digits times
      10^resultExp are the multiple of 10^u nearest to f * 2^e, ties to even, where u is the
      place of the last digit asked for. When all nines are rounded up, the digits are a one
      and zeros, and the exponent is one more. */
  method FormatDragon(f: nat, e: int, predecessorCloser: bool, numDigits: nat, exp10: int)
    returns (digits: seq<nat>, resultExp: int)
    requires 0 < f < 0x4000_0000_0000_0000 && (e >= 0 ==> exp10 >= 0)
    requires -0x4000_0000 < exp10 < 0x4000_0000
    requires var shift := if predecessorCloser then 2 else 1;
      Num(f, e, shift, exp10) < 10 * Den(e, shift, exp10)
    ensures forall j :: 0 <= j < |digits| ==> digits[j] <= 9
    ensures |digits| == if numDigits == 0 then 1 else numDigits
    ensures var u := exp10 - (numDigits - 1);
      && u <= resultExp <= u + 1
      && NearestDecimal(f, e, u, DigVal(digits) * Pow(10, resultExp - u))
      && (resultExp == u + 1 ==> DigVal(digits) == Pow(10, |digits| - 1))
  {
    var shift := if predecessorCloser then 2 else 1;
    var num, den := Scale(f, e, shift, exp10);
    ScaledTieFree(f, e, shift, exp10, num.exp, den.exp);
    var u := exp10 - (numDigits - 1);
    resultExp := u;
    if numDigits == 0 {
      digits := NoDigits(num, den);
      assert DigVal(digits) == digits[0] by { assert digits[..0] == []; }
      assert DigVal(digits) * Pow(10, 0) == digits[0];
      NearestToValue(f, e, shift, exp10, u, digits[0]);
      return;
    }
    var bump;
    digits, bump := FixedDigits(num, den, numDigits);
    resultExp := u + bump;
    NearestToValue(f, e, shift, exp10, u, DigVal(digits) * Pow(10, bump));
  }

  /** A positive digit count: generate, then round. */
  method FixedDigits(num: BigInt, den: BigInt, n: nat) returns (digits: seq<nat>, bump: nat)
    requires n > 0 && num != den && num.Valid() && num.TopNonzero() && den.Valid() && den.TopNonzero()
    requires num.Value() < 10 * den.Value() && TieFree(num.Value(), den.Value(), num.exp, den.exp)
    modifies num
    ensures |digits| == n && bump <= 1 && (forall j :: 0 <= j < n ==> digits[j] <= 9)
    ensures Nearest(old(num.Value()) * Pow(10, n - 1), den.Value(), DigVal(digits) * Pow(10, bump))
    ensures bump == 1 ==> DigVal(digits) == Pow(10, n - 1)
  {
    ghost var n0, e0 := num.Value(), num.exp;
    assert n0 * Pow(10, 0) == n0 && DigVal([]) == 0;
    var buf := GenerateDigits(num, den, n, n0, e0);
    digits, bump := RoundDigits(buf, num, den, n0 * Pow(10, n - 1));
  }

  /** The digit count 0: a single 1 exactly above five tenths. */
  method NoDigits(num: BigInt, den: BigInt) returns (digits: seq<nat>)
    requires num != den && num.Valid() && num.TopNonzero() && den.Valid() && den.TopNonzero()
    requires num.Value() < 10 * den.Value()
    modifies den
    ensures |digits| == 1 && digits[0] <= 1 && Nearest(num.Value(), 10 * old(den.Value()), digits[0])
  {
    den.Multiply32(10);
    var c := AddCompare(num, num, den);
    digits := [if c > 0 then 1 else 0];
    RoundsToNearest(num.Value(), den.Value(), 0, num.Value(), c > 0);
  }
}
