/** Decimal digits of machine integers: counting them by loop and by table, writing
    them two at a time, and reading them back through a wrapping accumulator. */
module Digits {
  import opened Words
  import opened BigIntSpec

  const INT_MAX: nat := 0x7fff_ffff

  // ---------------------------------------------------------------------------
  // Decimal text
  // ---------------------------------------------------------------------------

  predicate IsDigit(c: char) {
    '0' <= c <= '9'
  }

  function DigitOf(c: char): (d: nat)
    requires IsDigit(c)
    ensures d < 10
  {
    c as int - '0' as int
  }

  function DigitChar(d: nat): (c: char)
    requires d < 10
    ensures IsDigit(c) && DigitOf(c) == d
  {
    ('0' as int + d) as char
  }

  /** The decimal representation, without leading zeros. */
  function Decimal(n: nat): (s: string)
    ensures |s| >= 1
  {
    if n < 10 then [DigitChar(n)] else Decimal(n / 10) + [DigitChar(n % 10)]
  }

  predicate AllDigits(s: string) {
    forall i :: 0 <= i < |s| ==> IsDigit(s[i])
  }

  /** The number a string of digits denotes. */
  function Reading(s: string): nat
    requires AllDigits(s)
  {
    if s == [] then 0 else 10 * Reading(s[..|s| - 1]) + DigitOf(s[|s| - 1])
  }

  lemma {:induction false} DecimalReads(n: nat)
    ensures AllDigits(Decimal(n)) && Reading(Decimal(n)) == n
  {
    if n < 10 {
      assert Decimal(n)[..0] == [];
    } else {
      DecimalReads(n / 10);
      assert Decimal(n)[..|Decimal(n)| - 1] == Decimal(n / 10);
    }
  }

  /** The number of digits, by powers of ten. */
  lemma {:induction false} LengthAtMost(n: nat, k: nat)
    requires k >= 1
    ensures |Decimal(n)| <= k <==> n < Pow(10, k)
    decreases k
  {
    assert Pow(10, k) == 10 * Pow(10, k - 1);
    PowPositive(k - 1);
    if n >= 10 && k > 1 { LengthAtMost(n / 10, k - 1); }
  }

  lemma {:induction false} PowPositive(k: nat)
    ensures Pow(10, k) >= 1
  {
    if k > 0 { PowPositive(k - 1); }
  }

  // ---------------------------------------------------------------------------
  // count_digits
  // ---------------------------------------------------------------------------

  /** `count_digits_fallback`: four digits per division. */
  method CountDigitsFallback(value: nat) returns (count: nat)
    ensures count == |Decimal(value)|
  {
    var n := value;
    count := 1;
    while true
      invariant |Decimal(value)| == |Decimal(n)| + count - 1
      decreases n
    {
      if n < 10 { return; }
      if n < 100 { return count + 1; }
      OneMore(n);
      if n < 1000 { return count + 2; }
      OneMore(n / 10);
      if n < 10000 { return count + 3; }
      FourMore(n);
      n := n / 10000;
      count := count + 4;
    }
  }

  lemma OneMore(n: nat)
    requires n >= 10
    ensures |Decimal(n)| == 1 + |Decimal(n / 10)|
  {
  }

  lemma FourMore(n: nat)
    requires n >= 10000
    ensures |Decimal(n)| == 4 + |Decimal(n / 10000)|
  {
    OneMore(n);
    OneMore(n / 10);
    OneMore(n / 10 / 10);
    OneMore(n / 10 / 10 / 10);
    assert n / 10 / 10 / 10 / 10 == n / 10000;
  }

  /** Position of the highest set bit. */
  function HighestBit(n: nat): (b: nat)
    requires n >= 1
    ensures Pow2(b) <= n < Pow2(b + 1)
  {
    if n == 1 then 0 else 1 + HighestBit(n / 2)
  }

  /** `n | 1`. */
  function OrOne(n: nat): nat {
    if n % 2 == 0 then n + 1 else n
  }

  /** The builtin that counts leading zeros in a word of `width` bits. */
  function LeadingZeros(n: nat, width: nat): nat
    requires n >= 1 && HighestBit(n) < width
  {
    width - 1 - HighestBit(n)
  }

  /** A number with highest bit `b` has `t` or `t - 1` digits. */
  ghost predicate RowFits(b: nat, t: nat) {
    1 <= t <= 20 && Pow2(b + 1) <= Pow(10, t) && (t >= 2 ==> Pow(10, t - 2) <= Pow2(b))
  }

  /** Then comparing with one power of ten decides. */
  lemma RowDecides(n: nat, t: nat)
    requires RowFits(HighestBit(OrOne(n)), t)
    ensures |Decimal(n)| == if t >= 2 && n < Pow(10, t - 1) then t - 1 else t
  {
    var b := HighestBit(OrOne(n));
    LengthAtMost(n, t);
    if t >= 2 { LengthAtMost(n, t - 1); }
    if t >= 3 {
      assert b == 0 ==> Pow2(b) == 1;
      PowPositive(t - 3);
      assert Pow(10, t - 2) == 10 * Pow(10, t - 3);
      LengthAtMost(n, t - 2);
      EvenPower(b, n);
    }
  }

  /** Setting the lowest bit does not cross a power of two above one. */
  lemma EvenPower(b: nat, n: nat)
    requires Pow2(b) <= OrOne(n) && Pow2(b) >= 2
    ensures Pow2(b) <= n
  {
  }

  // The sixty-four entries of `bsr2log10`, in rows of eight.
  const Log10Row0: seq<nat> := [1, 1, 1, 2, 2, 2, 3, 3]
  const Log10Row1: seq<nat> := [3, 4, 4, 4, 4, 5, 5, 5]
  const Log10Row2: seq<nat> := [6, 6, 6, 7, 7, 7, 7, 8]
  const Log10Row3: seq<nat> := [8, 8, 9, 9, 9, 10, 10, 10]
  const Log10Row4: seq<nat> := [10, 11, 11, 11, 12, 12, 12, 13]
  const Log10Row5: seq<nat> := [13, 13, 13, 14, 14, 14, 15, 15]
  const Log10Row6: seq<nat> := [15, 16, 16, 16, 16, 17, 17, 17]
  const Log10Row7: seq<nat> := [18, 18, 18, 19, 19, 19, 19, 20]
  const BSR2LOG10: seq<nat> := Log10Row0 + Log10Row1 + Log10Row2 + Log10Row3 + Log10Row4 + Log10Row5 + Log10Row6 + Log10Row7

  function PowersOf10(factor: nat): seq<nat> {
    [factor * 10, factor * 100, factor * 1000, factor * 10000, factor * 100000, factor * 1000000,
     factor * 10000000, factor * 100000000, factor * 1000000000]
  }

  const ZERO_OR_POWERS_OF_10: seq<nat> :=
    [0, 0] + PowersOf10(1) + PowersOf10(1000000000) + [10000000000000000000]

  lemma PowersAt(f: nat, k: nat, i: nat)
    requires i < 9 && Pow(10, k) == f
    ensures PowersOf10(f)[i] == Pow(10, k + 1 + i)
    decreases i
  {
    assert Pow(10, k + 1) == 10 * f && Pow(10, k + 2) == 100 * f && Pow(10, k + 3) == 1000 * f;
    assert Pow(10, k + 4) == 10000 * f && Pow(10, k + 5) == 100000 * f && Pow(10, k + 6) == 1000000 * f;
    assert Pow(10, k + 7) == 10000000 * f && Pow(10, k + 8) == 100000000 * f && Pow(10, k + 9) == 1000000000 * f;
  }

  lemma PowerTable(t: nat)
    requires t <= 20
    ensures ZERO_OR_POWERS_OF_10[t] == if t < 2 then 0 else Pow(10, t - 1)
  {
    var k: nat, f: nat := 9, 1000000000;
    assert Pow(10, 0) == 1;
    PowersAt(1, 0, if 2 <= t < 11 then t - 2 else 8);
    if t >= 11 {
      PowersAt(1, 0, 8);
      PowersAt(f, k, if t < 20 then t - 11 else 8);
      assert Pow(10, 19) == 10 * Pow(10, 18);
    }
  }

  /** The first `n` entries of a row that starts at bit `at` are right. */
  ghost predicate Fit(row: seq<nat>, at: nat, n: nat) {
    n == 0 || (n <= |row| && RowFits(at + n - 1, row[n - 1]) && Fit(row, at, n - 1))
  }

  lemma {:induction false} FitAt(row: seq<nat>, at: nat, n: nat, i: nat)
    requires Fit(row, at, n) && i < n
    ensures i < |row| && RowFits(at + i, row[i])
    decreases n
  {
    if i < n - 1 { FitAt(row, at, n - 1, i); }
  }

  /** `m` entries from `j` on are `t`. */
  ghost predicate Same(row: seq<nat>, j: nat, m: nat, t: nat)
    decreases m
  {
    m == 0 || (j < |row| && row[j] == t && Same(row, j + 1, m - 1, t))
  }

  ghost function Doubled(p: nat, m: nat): nat
    decreases m
  {
    if m == 0 then p else Doubled(2 * p, m - 1)
  }

  lemma {:induction false} DoubledGrows(p: nat, m: nat)
    ensures Doubled(p, m) >= p
    decreases m
  {
    if m > 0 { DoubledGrows(2 * p, m - 1); }
  }

  /** `m` entries `t`, for bits whose powers run from `p` to `r`, between powers of ten. */
  ghost predicate Suits(row: seq<nat>, j: nat, m: nat, t: nat, p: nat, q: nat, r: nat) {
    && Same(row, j, m, t) && r == Doubled(p, m)
    && (m > 0 ==> 1 <= t <= 20 && (t >= 2 ==> q <= 100 * p) && r <= q)
  }

  lemma {:induction false} Group(row: seq<nat>, at: nat, j: nat, m: nat, t: nat, p: nat, q: nat, r: nat)
    requires Suits(row, j, m, t, p, q, r) && Fit(row, at, j) && Pow2(at + j) == p && Pow(10, t) == q
    ensures Fit(row, at, j + m) && Pow2(at + j + m) == r && Pow(10, t + 1) == 10 * q
    decreases m
  {
    if m > 0 {
      DoubledGrows(2 * p, m - 1);
      assert t >= 2 ==> q == 10 * Pow(10, t - 1) && Pow(10, t - 1) == 10 * Pow(10, t - 2);
      Group(row, at, j + 1, m - 1, t, 2 * p, q, r);
    }
  }

  lemma Log10Row0Fits()
    ensures Fit(Log10Row0, 0, 8) && Pow2(8) == 256 && Pow(10, 3) == 1000 && Pow(10, 4) == 10000
  {
    assert Pow2(0) == 1 && Pow(10, 0) == 1 && Pow(10, 1) == 10;
    var at: nat, t: nat := 0, 1;
    Group(Log10Row0, at, 0, 3, t, 1, 10, 8);
    Group(Log10Row0, at, 3, 3, t + 1, 8, 100, 64);
    Group(Log10Row0, at, 6, 2, t + 2, 64, 1000, 256);
  }

  lemma Log10Row1Fits()
    ensures Fit(Log10Row1, 8, 8) && Pow2(16) == 65536 && Pow(10, 5) == 100000 && Pow(10, 6) == 1000000
  {
    Log10Row0Fits();
    var at: nat, t: nat := 8, 3;
    Group(Log10Row1, at, 0, 1, t, 256, 1000, 512);
    Group(Log10Row1, at, 1, 4, t + 1, 512, 10000, 8192);
    Group(Log10Row1, at, 5, 3, t + 2, 8192, 100000, 65536);
  }

  lemma Log10Row2Fits()
    ensures Fit(Log10Row2, 16, 8) && Pow2(24) == 16777216 && Pow(10, 8) == 100000000 && Pow(10, 9) == 1000000000
  {
    Log10Row1Fits();
    var at: nat, t: nat := 16, 6;
    Group(Log10Row2, at, 0, 3, t, 65536, 1000000, 524288);
    Group(Log10Row2, at, 3, 4, t + 1, 524288, 10000000, 8388608);
    Group(Log10Row2, at, 7, 1, t + 2, 8388608, 100000000, 16777216);
  }

  lemma Log10Row3Fits()
    ensures Fit(Log10Row3, 24, 8) && Pow2(32) == 4294967296 && Pow(10, 10) == 10000000000 && Pow(10, 11) == 100000000000
  {
    Log10Row2Fits();
    var at: nat, t: nat := 24, 8;
    Group(Log10Row3, at, 0, 2, t, 16777216, 100000000, 67108864);
    Group(Log10Row3, at, 2, 3, t + 1, 67108864, 1000000000, 536870912);
    Group(Log10Row3, at, 5, 3, t + 2, 536870912, 10000000000, 4294967296);
  }

  lemma Log10Row4Fits()
    ensures Fit(Log10Row4, 32, 8) && Pow2(40) == 1099511627776 && Pow(10, 13) == 10000000000000 && Pow(10, 14) == 100000000000000
  {
    Log10Row3Fits();
    var at: nat, t: nat := 32, 10;
    Group(Log10Row4, at, 0, 1, t, 4294967296, 10000000000, 8589934592);
    Group(Log10Row4, at, 1, 3, t + 1, 8589934592, 100000000000, 68719476736);
    Group(Log10Row4, at, 4, 3, t + 2, 68719476736, 1000000000000, 549755813888);
    Group(Log10Row4, at, 7, 1, t + 3, 549755813888, 10000000000000, 1099511627776);
  }

  lemma Log10Row5Fits()
    ensures Fit(Log10Row5, 40, 8) && Pow2(48) == 281474976710656 && Pow(10, 15) == 1000000000000000 && Pow(10, 16) == 10000000000000000
  {
    Log10Row4Fits();
    var at: nat, t: nat := 40, 13;
    Group(Log10Row5, at, 0, 3, t, 1099511627776, 10000000000000, 8796093022208);
    Group(Log10Row5, at, 3, 3, t + 1, 8796093022208, 100000000000000, 70368744177664);
    Group(Log10Row5, at, 6, 2, t + 2, 70368744177664, 1000000000000000, 281474976710656);
  }

  lemma Log10Row6Fits()
    ensures Fit(Log10Row6, 48, 8) && Pow2(56) == 72057594037927936 && Pow(10, 17) == 100000000000000000 && Pow(10, 18) == 1000000000000000000
  {
    Log10Row5Fits();
    var at: nat, t: nat := 48, 15;
    Group(Log10Row6, at, 0, 1, t, 281474976710656, 1000000000000000, 562949953421312);
    Group(Log10Row6, at, 1, 4, t + 1, 562949953421312, 10000000000000000, 9007199254740992);
    Group(Log10Row6, at, 5, 3, t + 2, 9007199254740992, 100000000000000000, 72057594037927936);
  }

  lemma Log10Row7Fits()
    ensures Fit(Log10Row7, 56, 8) && Pow2(64) == 18446744073709551616 && Pow(10, 20) == 100000000000000000000 && Pow(10, 21) == 1000000000000000000000
  {
    Log10Row6Fits();
    var at: nat, t: nat := 56, 18;
    Group(Log10Row7, at, 0, 3, t, 72057594037927936, 1000000000000000000, 576460752303423488);
    Group(Log10Row7, at, 3, 4, t + 1, 576460752303423488, 10000000000000000000, 9223372036854775808);
    Group(Log10Row7, at, 7, 1, t + 2, 9223372036854775808, 100000000000000000000, 18446744073709551616);
  }

  lemma {:induction false} FitPrefix(a: seq<nat>, b: seq<nat>, at: nat, n: nat)
    requires n <= |a| && Fit(a, at, n)
    ensures Fit(a + b, at, n)
  {
    if n > 0 { FitPrefix(a, b, at, n - 1); }
  }

  lemma {:induction false} FitJoin(a: seq<nat>, b: seq<nat>, n: nat, m: nat)
    requires n == |a| && Fit(a, 0, n) && m <= |b| && Fit(b, n, m)
    ensures Fit(a + b, 0, n + m)
    decreases m
  {
    if m == 0 { FitPrefix(a, b, 0, n); } else { FitJoin(a, b, n, m - 1); }
  }

  /** Every entry of the 64-bit table. */
  lemma Table64Fits()
    ensures Fit(BSR2LOG10, 0, 64)
  {
    Log10Row0Fits(); Log10Row1Fits(); Log10Row2Fits(); Log10Row3Fits();
    Log10Row4Fits(); Log10Row5Fits(); Log10Row6Fits(); Log10Row7Fits();
    var r1 := Log10Row0 + Log10Row1;
    var r2 := r1 + Log10Row2;
    var r3 := r2 + Log10Row3;
    var r4 := r3 + Log10Row4;
    var r5 := r4 + Log10Row5;
    var r6 := r5 + Log10Row6;
    FitJoin(Log10Row0, Log10Row1, 8, 8);
    FitJoin(r1, Log10Row2, 16, 8);
    FitJoin(r2, Log10Row3, 24, 8);
    FitJoin(r3, Log10Row4, 32, 8);
    FitJoin(r4, Log10Row5, 40, 8);
    FitJoin(r5, Log10Row6, 48, 8);
    FitJoin(r6, Log10Row7, 56, 8);
  }

  lemma Entry64(b: nat)
    requires b < 64
    ensures |BSR2LOG10| == 64 && RowFits(b, BSR2LOG10[b])
  {
    Table64Fits();
    FitAt(BSR2LOG10, 0, 64, b);
  }

  lemma BitBelow(n: nat, width: nat)
    requires n < Pow2(width) && width >= 1
    ensures OrOne(n) < Pow2(width) && HighestBit(OrOne(n)) < width
  {
    var b := HighestBit(OrOne(n));
    assert Pow2(width) == 2 * Pow2(width - 1);
    if b >= width { Pow2Monotone(width, b); }
  }

  /** The 64-bit `do_count_digits`. */
  function CountDigits64(n: nat): nat
    requires n < Pow2(64)
  {
    BitBelow(n, 64);
    Entry64(HighestBit(OrOne(n)));
    var t := BSR2LOG10[63 - LeadingZeros(OrOne(n), 64)];
    t - (if n < ZERO_OR_POWERS_OF_10[t] then 1 else 0)
  }

  /** The table form gives the length of the decimal text, as the loop does. */
  lemma CountDigits64IsLength(n: nat)
    requires n < Pow2(64)
    ensures CountDigits64(n) == |Decimal(n)|
  {
    BitBelow(n, 64);
    var b := HighestBit(OrOne(n));
    Entry64(b);
    var t := BSR2LOG10[b];
    RowDecides(n, t);
    PowerTable(t);
  }

  // The thirty-two thresholds of the 32-bit table, in rows of eight, and their lengths.
  const IncRow0: seq<nat> := [0, 0, 0, 10, 10, 10, 100, 100]
  const IncRow1: seq<nat> := [100, 1000, 1000, 1000, 10000, 10000, 10000, 100000]
  const IncRow2: seq<nat> := [100000, 100000, 1000000, 1000000, 1000000, 10000000, 10000000, 10000000]
  const IncRow3: seq<nat> := [100000000, 100000000, 100000000, 1000000000, 1000000000, 1000000000, 1000000000, 1000000000]
  const THRESHOLDS: seq<nat> := IncRow0 + IncRow1 + IncRow2 + IncRow3

  const IncDigitsRow1: seq<nat> := [3, 4, 4, 4, 5, 5, 5, 6]
  const IncDigitsRow2: seq<nat> := [6, 6, 7, 7, 7, 8, 8, 8]
  const IncDigitsRow3: seq<nat> := [9, 9, 9, 10, 10, 10, 10, 10]
  const THRESHOLD_DIGITS: seq<nat> := Log10Row0 + IncDigitsRow1 + IncDigitsRow2 + IncDigitsRow3

  lemma IncDigitsRow1Fits()
    ensures Fit(IncDigitsRow1, 8, 8) && Pow2(16) == 65536 && Pow(10, 6) == 1000000 && Pow(10, 7) == 10000000
  {
    Log10Row0Fits();
    var at: nat, t: nat := 8, 3;
    Group(IncDigitsRow1, at, 0, 1, t, 256, 1000, 512);
    Group(IncDigitsRow1, at, 1, 3, t + 1, 512, 10000, 4096);
    Group(IncDigitsRow1, at, 4, 3, t + 2, 4096, 100000, 32768);
    Group(IncDigitsRow1, at, 7, 1, t + 3, 32768, 1000000, 65536);
  }

  lemma IncDigitsRow2Fits()
    ensures Fit(IncDigitsRow2, 16, 8) && Pow2(24) == 16777216 && Pow(10, 8) == 100000000 && Pow(10, 9) == 1000000000
  {
    IncDigitsRow1Fits();
    var at: nat, t: nat := 16, 6;
    Group(IncDigitsRow2, at, 0, 2, t, 65536, 1000000, 262144);
    Group(IncDigitsRow2, at, 2, 3, t + 1, 262144, 10000000, 2097152);
    Group(IncDigitsRow2, at, 5, 3, t + 2, 2097152, 100000000, 16777216);
  }

  lemma IncDigitsRow3Fits()
    ensures Fit(IncDigitsRow3, 24, 8) && Pow2(32) == 4294967296 && Pow(10, 10) == 10000000000 && Pow(10, 11) == 100000000000
  {
    IncDigitsRow2Fits();
    var at: nat, t: nat := 24, 9;
    Group(IncDigitsRow3, at, 0, 3, t, 16777216, 1000000000, 134217728);
    Group(IncDigitsRow3, at, 3, 5, t + 1, 134217728, 10000000000, 4294967296);
  }

  lemma Table32Fits()
    ensures Fit(THRESHOLD_DIGITS, 0, 32)
  {
    Log10Row0Fits(); IncDigitsRow1Fits(); IncDigitsRow2Fits(); IncDigitsRow3Fits();
    var r1 := Log10Row0 + IncDigitsRow1;
    var r2 := r1 + IncDigitsRow2;
    FitJoin(Log10Row0, IncDigitsRow1, 8, 8);
    FitJoin(r1, IncDigitsRow2, 16, 8);
    FitJoin(r2, IncDigitsRow3, 24, 8);
  }

  /** The least number with `t` digits, zero for one digit. */
  ghost function Least(t: nat): nat {
    if t < 2 then 0 else Pow(10, t - 1)
  }

  lemma SmallPowers()
    ensures Least(1) == 0 && Least(2) == 10 && Least(3) == 100 && Least(4) == 1000 && Least(5) == 10000
    ensures Least(6) == 100000 && Least(7) == 1000000 && Least(8) == 10000000
    ensures Least(9) == 100000000 && Least(10) == 1000000000
  {
    var k: nat := 0;
    PowersAt(1, k, 0); PowersAt(1, k, 1); PowersAt(1, k, 2); PowersAt(1, k, 3); PowersAt(1, k, 4);
    PowersAt(1, k, 5); PowersAt(1, k, 6); PowersAt(1, k, 7); PowersAt(1, k, 8);
  }

  ghost predicate Leasts(thresholds: seq<nat>, digits: seq<nat>) {
    |thresholds| == |digits| && forall i :: 0 <= i < |digits| ==> thresholds[i] == Least(digits[i]) <= 1000000000
  }

  lemma LeastRows()
    ensures Leasts(IncRow0, Log10Row0) && Leasts(IncRow1, IncDigitsRow1)
    ensures Leasts(IncRow2, IncDigitsRow2) && Leasts(IncRow3, IncDigitsRow3)
  {
    SmallPowers();
  }

  lemma LeastTable()
    ensures Leasts(THRESHOLDS, THRESHOLD_DIGITS)
  {
    LeastRows();
  }

  lemma LeastLength(t: nat)
    requires t >= 1
    ensures |Decimal(Least(t))| == t
  {
    LengthAtMost(Least(t), t);
    if t >= 2 {
      PowPositive(t - 1);
      LengthAtMost(Least(t), t - 1);
    }
  }

  /** A table entry: the length of the threshold's text in the upper half, less the threshold. */
  function Inc(threshold: nat): int {
    |Decimal(threshold)| * 0x1_0000_0000 - threshold
  }

  /** The 32-bit `do_count_digits`. */
  function CountDigits32(n: nat): int
    requires n < Pow2(32)
  {
    BitBelow(n, 32);
    Upper(n, Inc(THRESHOLDS[31 - LeadingZeros(OrOne(n), 32)]))
  }

  /** Upper half of a 64-bit sum. */
  function Upper(n: nat, inc: int): int {
    (n + inc) % 0x1_0000_0000_0000_0000 / 0x1_0000_0000
  }

  lemma UpperHalf(n: nat, t: nat, least: nat)
    requires n < 0x1_0000_0000 && 1 <= t <= 20 && least <= 0x1_0000_0000 && |Decimal(least)| == t
    ensures Upper(n, Inc(least)) == if n < least then t - 1 else t
  {
    var sum := n + Inc(least);
    assert 0 <= sum < 0x1_0000_0000_0000_0000;
    UpperOf(sum);
    if n < least {
      DivMod(sum, 0x1_0000_0000, t - 1, n + 0x1_0000_0000 - least);
    } else {
      DivMod(sum, 0x1_0000_0000, t, n - least);
    }
  }

  lemma UpperOf(sum: nat)
    requires sum < 0x1_0000_0000_0000_0000
    ensures sum % 0x1_0000_0000_0000_0000 / 0x1_0000_0000 == sum / 0x1_0000_0000
  {
  }

  lemma Threshold32(n: nat) returns (t: nat)
    requires n < Pow2(32)
    ensures OrOne(n) < Pow2(32) && HighestBit(OrOne(n)) < 32
    ensures THRESHOLDS[HighestBit(OrOne(n))] == Least(t) <= 1000000000
    ensures RowFits(HighestBit(OrOne(n)), t)
  {
    BitBelow(n, 32);
    Table32Fits();
    LeastTable();
    var b := HighestBit(OrOne(n));
    t := THRESHOLD_DIGITS[b];
    FitAt(THRESHOLD_DIGITS, 0, 32, b);
  }

  lemma WordBound(n: nat)
    requires n < Pow2(32)
    ensures n < 0x1_0000_0000
  {
    IncDigitsRow3Fits();
  }

  /** The addition carries into the upper half exactly when one more digit is needed. */
  lemma CountDigits32IsLength(n: nat)
    requires n < Pow2(32)
    ensures CountDigits32(n) == |Decimal(n)|
  {
    var t := Threshold32(n);
    WordBound(n);
    RowDecides(n, t);
    LeastLength(t);
    UpperHalf(n, t, Least(t));
  }
}
