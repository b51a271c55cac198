/** Writing decimal text two digits at a time, and reading it with an accumulator that
    wraps like a 32-bit unsigned integer. */
module DecimalText {
  import opened Digits
  import opened BigIntSpec

  // ---------------------------------------------------------------------------
  // format_decimal
  // ---------------------------------------------------------------------------

  /** The texts of the numbers below one hundred, two characters each. */
  const DIGITS2: string :=
    "00010203040506070809" + "10111213141516171819" + "20212223242526272829" + "30313233343536373839" +
    "40414243444546474849" + "50515253545556575859" + "60616263646566676869" + "70717273747576777879" +
    "80818283848586878889" + "90919293949596979899"

  function PairRow(d: char): string {
    [d, '0', d, '1', d, '2', d, '3', d, '4', d, '5', d, '6', d, '7', d, '8', d, '9']
  }

  function PairRows(k: nat): (s: string)
    requires k <= 10
    ensures |s| == 20 * k
  {
    if k == 0 then "" else PairRows(k - 1) + PairRow(DigitChar(k - 1))
  }

  lemma RowPair(d: char, u: nat)
    requires u < 10
    ensures PairRow(d)[2 * u] == d && PairRow(d)[2 * u + 1] == DigitChar(u)
  {
  }

  lemma {:induction false} RowsPair(k: nat, v: nat)
    requires k <= 10 && v < 10 * k
    ensures PairRows(k)[2 * v] == DigitChar(v / 10) && PairRows(k)[2 * v + 1] == DigitChar(v % 10)
    decreases k
  {
    if v < 10 * (k - 1) {
      RowsPair(k - 1, v);
      EarlierRow(k, 2 * v);
      EarlierRow(k, 2 * v + 1);
    } else {
      LastRowPair(k, v - 10 * (k - 1));
      TensAndUnits(k - 1, v - 10 * (k - 1), v);
    }
  }

  lemma EarlierRow(k: nat, i: nat)
    requires 1 <= k <= 10 && i < 20 * (k - 1)
    ensures PairRows(k)[i] == PairRows(k - 1)[i]
  {
  }

  lemma TensAndUnits(d: nat, u: nat, v: nat)
    requires u < 10 && v == 10 * d + u
    ensures v / 10 == d && v % 10 == u
  {
  }

  lemma LastRowPair(k: nat, u: nat)
    requires 1 <= k <= 10 && u < 10
    ensures var at := 20 * (k - 1) + 2 * u; PairRows(k)[at] == DigitChar(k - 1) && PairRows(k)[at + 1] == DigitChar(u)
  {
    var last := PairRow(DigitChar(k - 1));
    RowPair(DigitChar(k - 1), u);
    assert PairRows(k) == PairRows(k - 1) + last;
  }

  lemma RowsUnfold()
    ensures PairRows(10) == PairRow('0') + PairRow('1') + PairRow('2') + PairRow('3') + PairRow('4') + PairRow('5')
      + PairRow('6') + PairRow('7') + PairRow('8') + PairRow('9')
  {
    assert PairRows(1) == "" + PairRow('0') == PairRow('0');
    assert PairRows(2) == PairRows(1) + PairRow('1');
    assert PairRows(3) == PairRows(2) + PairRow('2');
    assert PairRows(4) == PairRows(3) + PairRow('3');
    assert PairRows(5) == PairRows(4) + PairRow('4');
    assert PairRows(6) == PairRows(5) + PairRow('5');
    assert PairRows(7) == PairRows(6) + PairRow('6');
    assert PairRows(8) == PairRows(7) + PairRow('7');
    assert PairRows(9) == PairRows(8) + PairRow('8');
  }

  lemma RowTexts()
    ensures "00010203040506070809" == PairRow('0') && "10111213141516171819" == PairRow('1')
    ensures "20212223242526272829" == PairRow('2') && "30313233343536373839" == PairRow('3')
    ensures "40414243444546474849" == PairRow('4') && "50515253545556575859" == PairRow('5')
    ensures "60616263646566676869" == PairRow('6') && "70717273747576777879" == PairRow('7')
    ensures "80818283848586878889" == PairRow('8') && "90919293949596979899" == PairRow('9')
  {
  }

  lemma TableIsRows()
    ensures DIGITS2 == PairRows(10)
  {
    RowTexts();
    RowsUnfold();
  }

  lemma Digits2At(v: nat)
    requires v < 100
    ensures |DIGITS2| == 200 && DIGITS2[2 * v] == DigitChar(v / 10) && DIGITS2[2 * v + 1] == DigitChar(v % 10)
  {
    TableIsRows();
    RowsPair(10, v);
  }

  function Pair(v: nat): string
    requires v < 100
  {
    [DigitChar(v / 10), DigitChar(v % 10)]
  }

  lemma TwoDigits(v: nat)
    requires 10 <= v < 100
    ensures Decimal(v) == Pair(v)
  {
    assert Decimal(v / 10) == [DigitChar(v / 10)];
  }

  lemma TwoMore(v: nat)
    requires v >= 100
    ensures Decimal(v) == Decimal(v / 100) + Pair(v % 100)
  {
    assert v / 10 / 10 == v / 100 && v % 100 / 10 == v / 10 % 10 && v % 100 % 10 == v % 10;
    assert Decimal(v / 10) == Decimal(v / 10 / 10) + [DigitChar(v / 10 % 10)];
  }

  /** `copy2` of a table entry. */
  method Copy2(out: array<char>, at: nat, v: nat)
    requires at + 2 <= out.Length && v < 100
    modifies out
    ensures out[..] == old(out[..])[at := DigitChar(v / 10)][at + 1 := DigitChar(v % 10)]
  {
    Digits2At(v);
    out[at] := DIGITS2[2 * v];
    out[at + 1] := DIGITS2[2 * v + 1];
  }

  /** `buf` is `was` with `text` written from `begin` to `end`. */
  ghost predicate Written(buf: seq<char>, was: seq<char>, begin: nat, end: nat, text: string) {
    && |buf| == |was| && begin <= end <= |buf|
    && buf[begin..end] == text
    && forall i :: 0 <= i < |buf| && !(begin <= i < end) ==> buf[i] == was[i]
  }

  lemma WrittenOne(buf: seq<char>, was: seq<char>, begin: nat, end: nat, text: string, c: char)
    requires Written(buf, was, begin, end, text) && begin >= 1
    ensures Written(buf[begin - 1 := c], was, begin - 1, end, [c] + text)
  {
    assert buf[begin - 1 := c][begin - 1..end] == [c] + buf[begin..end];
  }

  lemma WrittenTwo(buf: seq<char>, was: seq<char>, begin: nat, end: nat, text: string, a: char, b: char)
    requires Written(buf, was, begin, end, text) && begin >= 2
    ensures Written(buf[begin - 2 := a][begin - 1 := b], was, begin - 2, end, [a, b] + text)
  {
    WrittenOne(buf, was, begin, end, text, b);
    WrittenOne(buf[begin - 1 := b], was, begin - 1, end, [b] + text, a);
    assert buf[begin - 2 := a][begin - 1 := b] == buf[begin - 1 := b][begin - 2 := a];
    assert [a, b] + text == [a] + ([b] + text);
  }

  /** `format_decimal`: exactly the decimal text, right-aligned in the space given. */
  method FormatDecimal(out: array<char>, at: nat, value: nat, size: nat) returns (begin: nat, end: nat)
    requires at + size <= out.Length && |Decimal(value)| <= size
    modifies out
    ensures end == at + size && begin == end - |Decimal(value)|
    ensures out[begin..end] == Decimal(value)
    ensures forall i :: 0 <= i < out.Length && !(begin <= i < end) ==> out[i] == old(out[i])
  {
    end := at + size;
    begin := end;
    var v := value;
    ghost var text: string := "";
    while v >= 100
      invariant at + |Decimal(v)| <= begin && Written(out[..], old(out[..]), begin, end, text)
      invariant Decimal(value) == Decimal(v) + text
    {
      TextMore(v, text);
      begin := NextPair(out, begin, end, v % 100, text, old(out[..]));
      text := Pair(v % 100) + text;
      v := v / 100;
    }
    begin := FirstDigits(out, begin, end, v, text, old(out[..]));
    assert out[..][begin..end] == out[begin..end];
  }

  lemma TextMore(v: nat, text: string)
    requires v >= 100
    ensures Decimal(v) + text == Decimal(v / 100) + (Pair(v % 100) + text) && |Decimal(v)| == |Decimal(v / 100)| + 2
  {
    TwoMore(v);
  }

  method NextPair(out: array<char>, at: nat, end: nat, v: nat, ghost text: string, ghost was: seq<char>) returns (begin: nat)
    requires v < 100 && at >= 2 && Written(out[..], was, at, end, text)
    modifies out
    ensures begin == at - 2 && Written(out[..], was, begin, end, Pair(v) + text)
  {
    WrittenTwo(out[..], was, at, end, text, DigitChar(v / 10), DigitChar(v % 10));
    begin := at - 2;
    Copy2(out, begin, v);
  }

  /** The last one or two digits to be written, which come first. */
  method FirstDigits(out: array<char>, at: nat, end: nat, v: nat, ghost text: string, ghost was: seq<char>) returns (begin: nat)
    requires v < 100 && |Decimal(v)| <= at && Written(out[..], was, at, end, text)
    modifies out
    ensures begin == at - |Decimal(v)| && Written(out[..], was, begin, end, Decimal(v) + text)
  {
    if v < 10 {
      WrittenOne(out[..], was, at, end, text, DigitChar(v));
      begin := at - 1;
      out[begin] := DigitChar(v);
    } else {
      TwoDigits(v);
      begin := NextPair(out, at, end, v, text, was);
    }
  }

  // ---------------------------------------------------------------------------
  // parse_nonnegative_int
  // ---------------------------------------------------------------------------

  /** Where the run of digits that starts at `from` ends. */
  function DigitsEnd(s: string, from: nat): (to: nat)
    requires from <= |s|
    ensures from <= to <= |s| && AllDigits(s[from..to])
    ensures to == |s| || !IsDigit(s[to])
    decreases |s| - from
  {
    if from < |s| && IsDigit(s[from]) then
      var to := DigitsEnd(s, from + 1);
      assert s[from..to] == [s[from]] + s[from + 1..to];
      to
    else from
  }

  /** What the number read is: its value when it has at most ten digits, leading zeros
      included, and does not exceed `INT_MAX`. */
  function ParsedInt(run: string, errorValue: int): int
    requires AllDigits(run)
  {
    if |run| <= 10 && Reading(run) <= INT_MAX then Reading(run) else errorValue
  }

  lemma {:induction false} ReadingBound(run: string)
    requires AllDigits(run)
    ensures Reading(run) < Pow(10, |run|)
  {
    if run != [] { ReadingBound(run[..|run| - 1]); }
  }

  lemma {:induction false} PowGrows(a: nat, b: nat)
    requires a <= b
    ensures Pow(10, a) <= Pow(10, b)
  {
    if a < b { PowGrows(a, b - 1); }
  }

  lemma ShortRuns(run: string)
    requires AllDigits(run)
    ensures |run| <= 9 ==> Reading(run) < 1000000000
    ensures |run| == 10 ==> Reading(run) < 10000000000
  {
    ReadingBound(run);
    if |run| <= 9 { PowGrows(|run|, 9); }
    SmallPowers();
  }

  /** The accumulator holds the value modulo the word. */
  lemma WrappedStep(v: nat, d: nat)
    requires d < 10
    ensures (v % 0x1_0000_0000 * 10 + d) % 0x1_0000_0000 == (10 * v + d) % 0x1_0000_0000
    ensures (10 * v + d) / 10 == v
  {
  }

  lemma ReadingStep(s: string, from: nat, p: nat)
    requires from <= p < |s| && AllDigits(s[from..p]) && IsDigit(s[p])
    ensures AllDigits(s[from..p + 1]) && Reading(s[from..p + 1]) == 10 * Reading(s[from..p]) + DigitOf(s[p])
  {
    assert s[from..p + 1] == s[from..p] + [s[p]];
  }

  /** The check for overflow, from what the accumulator kept. */
  function Checked(digits: nat, value: nat, prev: nat, last: nat, errorValue: int): int {
    if digits <= 9 then value
    else if digits == 10 && prev * 10 + last <= INT_MAX then value else errorValue
  }

  lemma CheckedIsParsed(run: string, v: nat, last: nat, errorValue: int)
    requires AllDigits(run) && v == Reading(run) && last == v % 10
    ensures Checked(|run|, v % 0x1_0000_0000, v / 10 % 0x1_0000_0000, last, errorValue) == ParsedInt(run, errorValue)
  {
    ShortRuns(run);
  }

  /** `parse_nonnegative_int`, on a range whose first character is a digit. */
  method ParseNonnegativeInt(s: string, from: nat, errorValue: int) returns (result: int, next: nat)
    requires from < |s| && IsDigit(s[from])
    ensures next == DigitsEnd(s, from) > from
    ensures result == ParsedInt(s[from..next], errorValue)
  {
    var value: nat, prev: nat := 0, 0;
    var p: nat := from;
    ghost var exact: nat := 0;
    while p == from || (p < |s| && IsDigit(s[p]))
      invariant from <= p <= |s| && DigitsEnd(s, from) == DigitsEnd(s, p)
      invariant AllDigits(s[from..p]) && exact == Reading(s[from..p])
      invariant value == exact % 0x1_0000_0000 && prev == exact / 10 % 0x1_0000_0000
      invariant p > from ==> IsDigit(s[p - 1]) && DigitOf(s[p - 1]) == exact % 10
      decreases |s| - p
    {
      var d := DigitOf(s[p]);
      ReadingStep(s, from, p);
      WrappedStep(exact, d);
      exact := 10 * exact + d;
      prev := value;
      value := (value * 10 + d) % 0x1_0000_0000;
      p := p + 1;
    }
    CheckedIsParsed(s[from..p], exact, exact % 10, errorValue);
    result, next := Checked(p - from, value, prev, DigitOf(s[p - 1]), errorValue), p;
  }

  /** Formatted text is read back exactly up to `INT_MAX`; anything larger gives the error value. */
  lemma ReadBack(n: nat, rest: string, errorValue: int)
    requires rest == [] || !IsDigit(rest[0])
    ensures var s := Decimal(n) + rest; var to := DigitsEnd(s, 0);
      to == |Decimal(n)| && ParsedInt(s[0..to], errorValue) == if n <= INT_MAX then n else errorValue
  {
    var s := Decimal(n) + rest;
    DecimalReads(n);
    EndOfRun(s, 0, |Decimal(n)|);
    assert s[0..|Decimal(n)|] == Decimal(n);
    LengthAtMost(n, 10);
    assert Pow(10, 10) == 10 * Pow(10, 9);
    SmallPowers();
  }

  lemma {:induction false} EndOfRun(s: string, from: nat, to: nat)
    requires from <= to <= |s| && (forall i :: from <= i < to ==> IsDigit(s[i])) && (to == |s| || !IsDigit(s[to]))
    ensures DigitsEnd(s, from) == to
    decreases |s| - from
  {
    if from < to { EndOfRun(s, from + 1, to); }
  }

  lemma {:induction false} PaddedReading(zeros: string, run: string)
    requires (forall i :: 0 <= i < |zeros| ==> zeros[i] == '0') && AllDigits(run)
    ensures AllDigits(zeros + run) && Reading(zeros + run) == Reading(run)
    decreases |run|, |zeros|
  {
    var s := zeros + run;
    if run != [] {
      PaddedReading(zeros, run[..|run| - 1]);
      assert s[..|s| - 1] == zeros + run[..|run| - 1];
    } else if zeros != [] {
      PaddedReading(zeros[..|zeros| - 1], run);
      assert s[..|s| - 1] == zeros[..|zeros| - 1] + run;
    }
  }

  /** Leading zeros count as digits: a padded number is read back if and only if the
      padding keeps it within ten characters. */
  lemma PaddedReadBack(zeros: string, n: nat, errorValue: int)
    requires forall i :: 0 <= i < |zeros| ==> zeros[i] == '0'
    requires n <= INT_MAX && errorValue != n
    ensures AllDigits(zeros + Decimal(n))
    ensures ParsedInt(zeros + Decimal(n), errorValue) == n <==> |zeros| + |Decimal(n)| <= 10
  {
    DecimalReads(n);
    PaddedReading(zeros, Decimal(n));
  }
}
