/** Comparing, aligning, subtracting and dividing `bigint`s. */
module BigIntDivision {
  import opened Words
  import opened BigIntSpec
  import opened BigInt

  /** All words of a number, the implicit low zeros included. */
  ghost function Full(bigits: seq<nat>, exp: nat): (s: seq<nat>)
    ensures |s| == exp + |bigits|
  {
    Zeros(exp) + bigits
  }

  lemma FullVal(bigits: seq<nat>, exp: nat)
    requires Bigits(bigits)
    ensures Bigits(Full(bigits, exp)) && Val(Full(bigits, exp)) == Up(Val(bigits), exp)
  {
    ValZeros(exp);
    ValConcat(Zeros(exp), bigits);
  }

  lemma {:induction false} PowBMonotone(a: nat, b: nat)
    requires a <= b
    ensures PowB(a) <= PowB(b)
  {
    if a < b { PowBMonotone(a, b - 1); }
  }

  /** A number with more words, the top one nonzero, is larger. */
  lemma MoreWords(a: seq<nat>, b: seq<nat>)
    requires Bigits(a) && Bigits(b) && |a| > |b| && Topped(a)
    ensures Val(a) > Val(b)
  {
    ValTop(a);
    ValBound(b);
    PowBMonotone(|b|, |a| - 1);
  }

  ghost function Sign(x: int): int {
    if x > 0 then 1 else if x < 0 then -1 else 0
  }

  /** Operands the comparisons are made for: a nonzero top word, or a zero with no
      more words than the number it is compared with. */
  ghost predicate Comparable(a: BigInt, limit: nat)
    reads a
  {
    a.Valid() && (a.TopNonzero() || (a.IsZero() && a.NumBigits() <= limit))
  }

  /** `compare`: the order of the values; between equal values the word count
      decides. */
  method Compare(lhs: BigInt, rhs: BigInt) returns (r: int)
    requires rhs.Valid() && rhs.TopNonzero() && Comparable(lhs, rhs.NumBigits())
    ensures r == if lhs.Value() != rhs.Value() then Sign(lhs.Value() - rhs.Value())
                 else Sign(|lhs.bigits| - |rhs.bigits|)
  {
    ghost var a, b := Full(lhs.bigits, lhs.exp), Full(rhs.bigits, rhs.exp);
    FullVal(lhs.bigits, lhs.exp);
    FullVal(rhs.bigits, rhs.exp);
    if lhs.NumBigits() != rhs.NumBigits() {
      if |a| > |b| { MoreWords(a, b); } else { MoreWords(b, a); }
      return if lhs.NumBigits() > rhs.NumBigits() then 1 else -1;
    }
    r := CompareWords(lhs, rhs);
  }

  /** The word loop of `compare`, most significant first. */
  method CompareWords(lhs: BigInt, rhs: BigInt) returns (r: int)
    requires lhs.Valid() && rhs.Valid() && lhs.NumBigits() == rhs.NumBigits()
    ensures r == if lhs.Value() != rhs.Value() then Sign(lhs.Value() - rhs.Value())
                 else Sign(|lhs.bigits| - |rhs.bigits|)
  {
    ghost var le, re := lhs.exp, rhs.exp;
    var l, r' := lhs.bigits, rhs.bigits;
    ghost var a, b := Full(l, le), Full(r', re);
    FullVal(l, le);
    FullVal(r', re);
    var i, j := |l| - 1, |r'| - 1;
    var end := if i - j < 0 then 0 else i - j;
    while i >= end
      invariant end - 1 <= i < |l| && i + le == j + re && j >= -1
      invariant a[i + 1 + le..] == b[i + 1 + le..]
    {
      ghost var p: nat := i + le;
      assert a[p] == l[i] && b[p] == r'[j];
      if l[i] != r'[j] {
        FirstDifference(a, b, p);
        return if l[i] > r'[j] then 1 else -1;
      }
      EqualFrom(a, b, p);
      i, j := i - 1, j - 1;
    }
    TailDecides(l, le, r', re, i + 1 + le);
    if i != j { return if i > j then 1 else -1; }
    return 0;
  }

  /** The highest word that differs decides. */
  lemma FirstDifference(a: seq<nat>, b: seq<nat>, p: nat)
    requires p < |a| == |b| && Bigits(a) && Bigits(b) && a[p] != b[p] && a[p + 1..] == b[p + 1..]
    ensures Val(a) != Val(b) && Sign(Val(a) - Val(b)) == if a[p] > b[p] then 1 else -1
  {
    if a[p] < b[p] { ValCompare(a, b, p); } else { ValCompare(b, a, p); }
  }

  lemma EqualFrom(a: seq<nat>, b: seq<nat>, p: nat)
    requires p < |a| == |b| && a[p] == b[p] && a[p + 1..] == b[p + 1..]
    ensures a[p..] == b[p..]
  {
    assert a[p..] == [a[p]] + a[p + 1..] && b[p..] == [b[p]] + b[p + 1..];
  }

  /** When all common words agree, only the longer number can be larger. */
  lemma TailDecides(l: seq<nat>, le: nat, r: seq<nat>, re: nat, m: nat)
    requires Bigits(l) && Bigits(r) && |l| + le == |r| + re && m == (if le < re then re else le)
    requires Full(l, le)[m..] == Full(r, re)[m..]
    ensures Up(Val(l), le) != Up(Val(r), re) ==> Sign(Up(Val(l), le) - Up(Val(r), re)) == Sign(|l| - |r|)
  {
    var a, b := Full(l, le), Full(r, re);
    FullVal(l, le);
    FullVal(r, re);
    if le <= re { LongerTail(a, b, m); }
    if re <= le { LongerTail(b, a, m); }
  }

  /** Equal from `m` up, and one has only zeros below: it is not larger. */
  lemma LongerTail(a: seq<nat>, b: seq<nat>, m: nat)
    requires |a| == |b| && m <= |a| && Bigits(a) && Bigits(b) && a[m..] == b[m..]
    requires forall k :: 0 <= k < m ==> b[k] == 0
    ensures Val(a) >= Val(b)
  {
    SplitVal(a, m);
    SplitVal(b, m);
    assert b[..m] == Zeros(m);
    ValZeros(m);
  }

  // ---------------------------------------------------------------------------
  // add_compare
  // ---------------------------------------------------------------------------

  /** The number formed by the words from position `i` up. */
  ghost function High(s: seq<nat>, i: nat): nat {
    if i <= |s| then Val(s[i..]) else 0
  }

  lemma HighStep(s: seq<nat>, i: nat)
    ensures High(s, i) == At(s, i) + B * High(s, i + 1)
  {
    if i < |s| { assert s[i..][1..] == s[i + 1..]; }
    if i == |s| { assert s[i..] == []; }
  }

  lemma HighSplit(s: seq<nat>, i: nat)
    requires Bigits(s)
    ensures Up(High(s, i), i) <= Val(s) < Up(High(s, i), i) + PowB(i)
  {
    if i <= |s| {
      SplitVal(s, i);
    } else {
      ValBound(s);
      PowBMonotone(|s|, i);
      UpZero(i);
    }
  }

  /** Below `m` there are only zeros: the high part is everything. */
  lemma HighExact(bigits: seq<nat>, exp: nat, m: nat)
    requires Bigits(bigits) && m <= exp
    ensures Val(Full(bigits, exp)) == Up(High(Full(bigits, exp), m), m)
  {
    var s := Full(bigits, exp);
    FullVal(bigits, exp);
    SplitVal(s, m);
    assert s[..m] == Zeros(m);
    ValZeros(m);
  }

  /** How far the high part of `c` exceeds the sum of those of `a` and `b`. */
  ghost function Excess(a: seq<nat>, b: seq<nat>, c: seq<nat>, i: nat): int {
    High(c, i) - High(a, i) - High(b, i)
  }

  lemma ExcessStep(a: seq<nat>, b: seq<nat>, c: seq<nat>, i: nat)
    ensures Excess(a, b, c, i) == At(c, i) - At(a, i) - At(b, i) + B * Excess(a, b, c, i + 1)
  {
    HighStep(a, i);
    HighStep(b, i);
    HighStep(c, i);
  }

  ghost function ExcessOf(l1: BigInt, l2: BigInt, r: BigInt, i: nat): int
    reads l1, l2, r
  {
    Excess(Full(l1.bigits, l1.exp), Full(l2.bigits, l2.exp), Full(r.bigits, r.exp), i)
  }

  lemma ExcessOfStep(l1: BigInt, l2: BigInt, r: BigInt, i: nat)
    ensures ExcessOf(l1, l2, r, i) ==
      GetBigit(r, i) - GetBigit(l1, i) - GetBigit(l2, i) + B * ExcessOf(l1, l2, r, i + 1)
  {
    ExcessStep(Full(l1.bigits, l1.exp), Full(l2.bigits, l2.exp), Full(r.bigits, r.exp), i);
  }

  lemma ExcessDecides(l1: BigInt, l2: BigInt, r: BigInt, i: nat)
    requires l1.Valid() && l2.Valid() && r.Valid()
    ensures ExcessOf(l1, l2, r, i) < 0 ==> l1.Value() + l2.Value() > r.Value()
    ensures ExcessOf(l1, l2, r, i) > 1 ==> l1.Value() + l2.Value() < r.Value()
  {
    FullVal(l1.bigits, l1.exp);
    FullVal(l2.bigits, l2.exp);
    FullVal(r.bigits, r.exp);
    if ExcessOf(l1, l2, r, i) < 0 {
      SumAbove(Full(l1.bigits, l1.exp), Full(l2.bigits, l2.exp), Full(r.bigits, r.exp), i);
    }
    if ExcessOf(l1, l2, r, i) > 1 {
      SumBelow(Full(l1.bigits, l1.exp), Full(l2.bigits, l2.exp), Full(r.bigits, r.exp), i);
    }
  }

  lemma SumAbove(a: seq<nat>, b: seq<nat>, c: seq<nat>, i: nat)
    requires Bigits(a) && Bigits(b) && Bigits(c) && Excess(a, b, c, i) < 0
    ensures Val(a) + Val(b) > Val(c)
  {
    HighSplit(a, i);
    HighSplit(b, i);
    HighSplit(c, i);
    UpSumAbove(High(a, i), High(b, i), High(c, i), i);
  }

  lemma UpSumAbove(x: nat, y: nat, z: nat, i: nat)
    requires x + y > z
    ensures Up(x, i) + Up(y, i) >= Up(z, i) + PowB(i)
  {
    UpPlus(x, y, i);
    UpStep(z, x + y, i);
  }

  lemma UpSumBelow(x: nat, y: nat, z: nat, i: nat)
    requires x + y + 1 < z
    ensures Up(x, i) + Up(y, i) + 2 * PowB(i) <= Up(z, i)
  {
    UpPlus(x, y, i);
    UpPlus(x + y, 1, i);
    UpStep(x + y + 1, z, i);
  }

  lemma SumBelow(a: seq<nat>, b: seq<nat>, c: seq<nat>, i: nat)
    requires Bigits(a) && Bigits(b) && Bigits(c) && Excess(a, b, c, i) > 1
    ensures Val(a) + Val(b) < Val(c)
  {
    HighSplit(a, i);
    HighSplit(b, i);
    HighSplit(c, i);
    UpSumBelow(High(a, i), High(b, i), High(c, i), i);
  }

  /** At the lowest position the excess of the high parts is all there is. */
  lemma SumEnds(l1: BigInt, l2: BigInt, r: BigInt, i: nat)
    requires l1.Valid() && l2.Valid() && r.Valid() && i <= l1.exp && i <= l2.exp && i <= r.exp
    requires 0 <= ExcessOf(l1, l2, r, i)
    ensures Sign(l1.Value() + l2.Value() - r.Value()) == Sign(-ExcessOf(l1, l2, r, i))
  {
    var x, y, z := High(Full(l1.bigits, l1.exp), i), High(Full(l2.bigits, l2.exp), i), High(Full(r.bigits, r.exp), i);
    FullVal(l1.bigits, l1.exp);
    FullVal(l2.bigits, l2.exp);
    FullVal(r.bigits, r.exp);
    HighExact(l1.bigits, l1.exp, i);
    HighExact(l2.bigits, l2.exp, i);
    HighExact(r.bigits, r.exp, i);
    UpSumSign(x, y, z, i);
  }

  lemma UpSumSign(x: nat, y: nat, z: nat, i: nat)
    requires x + y <= z
    ensures Sign(Up(x, i) + Up(y, i) - Up(z, i)) == Sign(x + y - z)
  {
    UpPlus(x, y, i);
    UpMonotone(x + y, z, i);
  }

  lemma FarFewerWords(a: seq<nat>, b: seq<nat>, c: seq<nat>)
    requires Bigits(a) && Bigits(b) && Bigits(c) && |a| + 1 < |c| && |b| + 1 < |c| && Topped(c)
    ensures Val(a) + Val(b) < Val(c)
  {
    ValBound(a);
    ValBound(b);
    ValTop(c);
    PowBMonotone(|a|, |c| - 2);
    PowBMonotone(|b|, |c| - 2);
    assert PowB(|c| - 1) == B * PowB(|c| - 2);
  }

  function GetBigit(n: BigInt, i: int): nat
    reads n
  {
    if n.exp <= i < n.NumBigits() then n.bigits[i - n.exp] else 0
  }

  /** `add_compare`: the sign of lhs1 + lhs2 - rhs. */
  method AddCompare(lhs1: BigInt, lhs2: BigInt, rhs: BigInt) returns (r: int)
    requires rhs.Valid() && rhs.TopNonzero()
    requires Comparable(lhs1, rhs.NumBigits()) && Comparable(lhs2, rhs.NumBigits())
    ensures r == Sign(lhs1.Value() + lhs2.Value() - rhs.Value())
  {
    ghost var a, b, c := Full(lhs1.bigits, lhs1.exp), Full(lhs2.bigits, lhs2.exp), Full(rhs.bigits, rhs.exp);
    FullVal(lhs1.bigits, lhs1.exp);
    FullVal(lhs2.bigits, lhs2.exp);
    FullVal(rhs.bigits, rhs.exp);
    var maxLhs := if lhs1.NumBigits() > lhs2.NumBigits() then lhs1.NumBigits() else lhs2.NumBigits();
    if maxLhs + 1 < rhs.NumBigits() {
      FarFewerWords(a, b, c);
      return -1;
    }
    if maxLhs > rhs.NumBigits() {
      if |a| > |c| { MoreWords(a, c); } else { MoreWords(b, c); }
      return 1;
    }
    r := AddCompareWords(lhs1, lhs2, rhs);
  }

  /** The word loop of `add_compare`, most significant first; the difference of the
      high parts stays 0 or 1 or decides. */
  method AddCompareWords(lhs1: BigInt, lhs2: BigInt, rhs: BigInt) returns (r: int)
    requires lhs1.Valid() && lhs2.Valid() && rhs.Valid()
    requires lhs1.NumBigits() <= rhs.NumBigits() && lhs2.NumBigits() <= rhs.NumBigits()
    ensures r == Sign(lhs1.Value() + lhs2.Value() - rhs.Value())
  {
    var minExp := Min(Min(lhs1.exp, lhs2.exp), rhs.exp);
    var borrow, i := 0, rhs.NumBigits();
    HighTop(Full(lhs1.bigits, lhs1.exp), i);
    HighTop(Full(lhs2.bigits, lhs2.exp), i);
    HighTop(Full(rhs.bigits, rhs.exp), i);
    while i > minExp
      invariant minExp <= i <= rhs.NumBigits()
      invariant borrow == B * ExcessOf(lhs1, lhs2, rhs, i) && 0 <= borrow <= B
      decreases i
    {
      i := i - 1;
      ExcessOfStep(lhs1, lhs2, rhs, i);
      ExcessDecides(lhs1, lhs2, rhs, i);
      var sum := GetBigit(lhs1, i) + GetBigit(lhs2, i);
      var rhsBigit := GetBigit(rhs, i);
      if sum > rhsBigit + borrow { return 1; }
      borrow := rhsBigit + borrow - sum;
      if borrow > 1 { return -1; }
      borrow := borrow * B;
    }
    SumEnds(lhs1, lhs2, rhs, i);
    return if borrow != 0 then -1 else 0;
  }

  function Min(a: nat, b: nat): nat {
    if a < b then a else b
  }

  lemma HighTop(s: seq<nat>, i: nat)
    requires i >= |s|
    ensures High(s, i) == 0
  {
  }

  // ---------------------------------------------------------------------------
  // align, subtract_aligned, divmod_assign
  // ---------------------------------------------------------------------------

  /** `align`: spells out low zero words until the exponent is no larger. */
  method Align(a: BigInt, other: BigInt)
    requires a.Valid()
    modifies a
    ensures a.Valid() && a.Value() == old(a.Value()) && a.NumBigits() == old(a.NumBigits())
    ensures a.exp == Min(old(a.exp), other.exp)
    ensures old(a.TopNonzero()) ==> a.TopNonzero()
    ensures old(a.exp) <= other.exp ==> a.bigits == old(a.bigits)
  {
    if a.exp <= other.exp { return; }
    var d, n := a.exp - other.exp, |a.bigits|;
    ghost var was := a.bigits;
    var w := a.bigits + Zeros(d);
    for i := n downto 0
      invariant |w| == n + d && w[..i] == was[..i]
      invariant w[i + d..] == was[i..]
    {
      w := w[i + d := w[i]];
      assert was[i..] == [was[i]] + was[i + 1..];
    }
    w := Zeros(d) + w[d..];
    FullVal(was, d);
    UpUp(Val(was), d, other.exp);
    a.bigits, a.exp := w, a.exp - d;
    assert w == Full(was, d);
  }

  /** The words that `subtract_aligned` leaves, `off` words apart, leading zeros removed. */
  ghost function Difference(f: WordStep<(nat, nat)>, a: seq<nat>, b: seq<nat>, off: nat): seq<nat>
    requires off + |b| <= |a|
  {
    Strip(a[..off] + SubTop(f, a[off..], b))
  }

  /** `subtract_aligned` as the source runs it: word by word, then the borrow loop on
      one index, then the leading zeros. The result is the difference if and only if
      no borrow remains or the word above is nonzero. */
  method SubtractAligned(a: BigInt, other: BigInt)
    requires a.Valid() && other.Valid() && a != other && other.exp >= a.exp
    requires a.Value() >= other.Value() && a.NumBigits() >= other.NumBigits()
    modifies a`bigits
    ensures a.Valid() && |a.bigits| <= |old(a.bigits)|
    ensures a.bigits == Difference(SubtractBigits(), old(a.bigits), other.bigits, other.exp - a.exp)
    ensures |a.bigits| > 1 ==> a.TopNonzero()
    ensures a.Value() + other.Value() == old(a.Value()) <==>
      BorrowPaid(old(a.bigits)[other.exp - a.exp..], other.bigits)
  {
    SubtractBigitsSubtracts();
    SubtractWith(a, SubtractBigits(), other);
  }

  method SubtractWith(a: BigInt, f: WordStep<(nat, nat)>, other: BigInt)
    requires a.Valid() && other.Valid() && a != other && other.exp >= a.exp && Subtracts(f)
    requires a.Value() >= other.Value() && a.NumBigits() >= other.NumBigits()
    modifies a`bigits
    ensures a.Valid() && |a.bigits| <= |old(a.bigits)|
    ensures a.bigits == Difference(f, old(a.bigits), other.bigits, other.exp - a.exp)
    ensures |a.bigits| > 1 ==> a.TopNonzero()
    ensures a.Value() + other.Value() == old(a.Value()) <==>
      BorrowPaid(old(a.bigits)[other.exp - a.exp..], other.bigits)
  {
    var off := other.exp - a.exp;
    ghost var r := Difference(f, a.bigits, other.bigits, off);
    AlignedSubtraction(f, a.bigits, other.bigits, a.exp, off);
    SubtractWords(a, f, other.bigits, off);
    a.bigits := Strip(a.bigits);
    assert a.bigits == r && a.exp + off == other.exp;
  }

  lemma AlignedSubtraction(f: WordStep<(nat, nat)>, a: seq<nat>, b: seq<nat>, exp: nat, off: nat)
    requires off + |b| <= |a| && Bigits(a) && Bigits(b) && Subtracts(f) && Up(Val(a), exp) >= Up(Val(b), exp + off)
    ensures BorrowOf(f, a[off..], b) <= 1 && (off + |b| < |a| || BorrowOf(f, a[off..], b) == 0)
    ensures var r := Strip(a[..off] + SubTop(f, a[off..], b));
      Bigits(r) && (Up(Val(r), exp) + Up(Val(b), exp + off) == Up(Val(a), exp) <==> BorrowPaid(a[off..], b))
  {
    var r := a[..off] + SubTop(f, a[off..], b);
    UpUp(Val(b), off, exp);
    PowBPositive(exp);
    UpAtLeast(Val(a), Up(Val(b), off), 0, exp);
    SubAtVal(f, a, b, off);
    StripVal(r);
    UpEqual(Val(a), Val(r), Up(Val(b), off), 0, exp);
  }

  method SubtractWords(a: BigInt, f: WordStep<(nat, nat)>, b: seq<nat>, off: nat)
    requires a.Valid() && off + |b| <= |a.bigits| && BorrowOf(f, a.bigits[off..], b) <= 1
    requires off + |b| < |a.bigits| || BorrowOf(f, a.bigits[off..], b) == 0
    modifies a`bigits
    ensures a.bigits == old(a.bigits)[..off] + SubTop(f, old(a.bigits)[off..], b)
  {
    var low, high := a.bigits[..off], a.bigits[off..];
    var w, borrow := RippleLoop(Zip(high[..|b|], b), f);
    a.bigits := low + (w + high[|b|..]);
    if borrow > 0 {
      PayBorrow(a, off + |b|);
      PaidAbove(low, w, high[|b|..]);
    }
  }

  lemma PaidAbove(low: seq<nat>, w: seq<nat>, post: seq<nat>)
    requires post != []
    ensures (low + (w + post))[|low| + |w| := if post[0] > 0 then post[0] - 1 else B - 2] == low + (w + PayFrom(post, 1))
  {
    var x := if post[0] > 0 then post[0] - 1 else B - 2;
    assert (w + post)[|w| := x] == w + PayFrom(post, 1);
    assert (low + (w + post))[|low| + |w| := x] == low + (w + post)[|w| := x];
  }

  /** The borrow loop, entered with borrow 1: it stays on index `i`. */
  method PayBorrow(a: BigInt, i: nat)
    requires i < |a.bigits| && a.bigits[i] < B
    modifies a`bigits
    ensures a.bigits == old(a.bigits)[i := if old(a.bigits)[i] > 0 then old(a.bigits)[i] - 1 else B - 2]
  {
    var x: nat, borrow: nat := a.bigits[i], 1;
    while borrow > 0
      invariant borrow <= 1 && x < B
      invariant borrow == 1 ==> x == old(a.bigits)[i] || (old(a.bigits)[i] == 0 && x == B - 1)
      invariant borrow == 0 ==> x == if old(a.bigits)[i] > 0 then old(a.bigits)[i] - 1 else B - 2
      decreases borrow, if x == 0 then 1 else 0
    {
      var wide := WideDifference(x, 0, borrow);
      x, borrow := wide % B, wide / (B * B / 2);
    }
    a.bigits := a.bigits[i := x];
  }

  /** A dividend at most one word longer than the divisor always has the borrow: the
      word above the divisor is its top word. */
  lemma TopPaysBorrow(a: seq<nat>, b: seq<nat>)
    requires |b| <= |a| <= |b| + 1 && Bigits(a) && Bigits(b) && Topped(a) && Val(a) >= Val(b)
    ensures BorrowPaid(a, b)
  {
    if |a| == |b| { assert a[..|b|] == a; }
  }

  lemma {:induction false} ValAtOffset(a: seq<nat>, b: nat, exp: nat, off: nat)
    requires off <= |a| && Bigits(a) && Up(Val(a), exp) >= Up(b, exp + off)
    ensures Val(a[off..]) >= b
  {
    UpUp(b, off, exp);
    PowBPositive(exp);
    UpAtLeast(Val(a), Up(b, off), 0, exp);
    SplitVal(a, off);
    UpAtLeast(Val(a[off..]), b, Val(a[..off]), off);
  }

  /** A number that is not smaller has no fewer words. */
  lemma NotFewerWords(a: BigInt, b: BigInt)
    requires a.Valid() && b.Valid() && b.TopNonzero() && a.Value() >= b.Value()
    ensures a.NumBigits() >= b.NumBigits()
    ensures a.Value() > 0
  {
    FullVal(a.bigits, a.exp);
    FullVal(b.bigits, b.exp);
    if a.NumBigits() < b.NumBigits() { MoreWords(Full(b.bigits, b.exp), Full(a.bigits, a.exp)); }
    ValTop(Full(b.bigits, b.exp));
    PowBPositive(b.NumBigits() - 1);
  }

  lemma ZeroHasNoValue(a: BigInt)
    requires a.IsZero()
    ensures a.Value() == 0
  {
    assert Val(a.bigits) == 0 by { assert a.bigits[1..] == []; }
    UpZero(a.exp);
  }

  /** A dividend the digit generation can meet. */
  ghost predicate Dividend(a: BigInt, divisor: BigInt)
    reads a, divisor
  {
    && divisor.Valid() && divisor.TopNonzero() && Comparable(a, divisor.NumBigits())
    && a.NumBigits() <= divisor.NumBigits() + 1
  }

  /** One turn of the loop of `divmod_assign`: an exact subtraction. */
  method SubtractOnce(a: BigInt, divisor: BigInt)
    requires a != divisor && Dividend(a, divisor) && a.exp <= divisor.exp && a.Value() >= divisor.Value()
    modifies a`bigits
    ensures Dividend(a, divisor)
    ensures a.Value() == old(a.Value()) - divisor.Value()
  {
    NotFewerWords(a, divisor);
    if a.IsZero() { ZeroHasNoValue(a); }
    ghost var off := divisor.exp - a.exp;
    ValAtOffset(a.bigits, Val(divisor.bigits), a.exp, off);
    assert Topped(a.bigits[off..]);
    TopPaysBorrow(a.bigits[off..], divisor.bigits);
    SubtractAligned(a, divisor);
    assert |a.bigits| == 1 && !a.TopNonzero() ==> a.bigits == [0];
  }

  /** Equal numbers have equally many words, so the exponents settle the lengths. */
  lemma EqualNumbers(a: BigInt, b: BigInt)
    requires Dividend(a, b) && a.Value() == b.Value()
    ensures |a.bigits| < |b.bigits| <==> a.exp > b.exp
  {
    NotFewerWords(a, b);
    if a.IsZero() { ZeroHasNoValue(a); }
    NotFewerWords(b, a);
  }

  /** The loop of `divmod_assign`, on aligned operands. */
  method DivideLoop(a: BigInt, divisor: BigInt) returns (quotient: nat)
    requires a != divisor && Dividend(a, divisor) && a.exp <= divisor.exp && a.Value() >= divisor.Value()
    modifies a`bigits
    ensures Dividend(a, divisor) && a.Value() < divisor.Value() && quotient > 0
    ensures quotient * divisor.Value() + a.Value() == old(a.Value())
  {
    quotient := 0;
    NotFewerWords(divisor, divisor);
    ghost var d, v := divisor.Value(), a.Value();
    while true
      invariant Dividend(a, divisor) && v == a.Value() >= d
      invariant quotient * d + v == old(a.Value())
      decreases v
    {
      SubtractOnce(a, divisor);
      DivideStep(quotient, d, v);
      quotient, v := quotient + 1, v - d;
      var r := Compare(a, divisor);
      if v == d { EqualNumbers(a, divisor); }
      if r < 0 { return; }
    }
  }

  lemma DivideStep(q: nat, d: nat, v: nat)
    ensures q * d + v == (q + 1) * d + (v - d)
  {
    MulPlus(q, 1, d);
  }

  /** `divmod_assign`: floor quotient and exact remainder, if and only if the operands
      are not equal numbers of which the dividend has the larger exponent; that one
      family is compared as smaller and answered with 0. */
  method DivmodAssign(a: BigInt, divisor: BigInt) returns (quotient: nat)
    requires a != divisor && Dividend(a, divisor)
    modifies a
    ensures Dividend(a, divisor) && a.exp <= old(a.exp)
    ensures quotient * divisor.Value() + a.Value() == old(a.Value())
    ensures a.Value() < divisor.Value() <==> !(old(a.Value()) == divisor.Value() && old(a.exp) > divisor.exp)
    ensures old(a.exp) <= divisor.exp || quotient > 0 ==> a.exp <= divisor.exp
    ensures quotient == 0 ==> a.exp == old(a.exp)
    ensures quotient < 0x8000_0000 <==> old(a.Value()) < 0x8000_0000 * divisor.Value()
  {
    NotFewerWords(divisor, divisor);
    if a.Value() == divisor.Value() { EqualNumbers(a, divisor); }
    var c := Compare(a, divisor);
    if c < 0 {
      FitsInt(0, divisor.Value(), a.Value());
      return 0;
    }
    NotFewerWords(a, divisor);
    if a.IsZero() { ZeroHasNoValue(a); }
    Align(a, divisor);
    quotient := DivideLoop(a, divisor);
    FitsInt(quotient, divisor.Value(), a.Value());
  }

  /** When the quotient fits the `int` that counts the subtractions. */
  lemma FitsInt(q: nat, d: nat, r: nat)
    requires r < d || (q == 0 && r == d > 0)
    ensures q < 0x8000_0000 <==> q * d + r < 0x8000_0000 * d
  {
    if q < 0x8000_0000 { MulLe(q, 0x7fff_ffff, d); } else { MulLe(0x8000_0000, q, d); }
  }

  // ---------------------------------------------------------------------------
  // Inputs on which the exact results fail
  // ---------------------------------------------------------------------------

  /** 2^64 - 1: the borrow meets a zero word and `subtract_aligned` is off. */
  lemma BorrowIsLost(f: WordStep<(nat, nat)>)
    requires Subtracts(f)
    ensures var a, b := [0, 0, 1], [1]; Val(a) >= Val(b) && Val(SubTop(f, a, b)) + Val(b) != Val(a)
  {
    var a, b := [0, 0, 1], [1];
    assert a[1..] == [0, 1] && a[1..][1..] == [1] && b[1..] == [];
    assert a[..1] == [0] && [0][1..] == [] && [1][1..] == [];
    assert Val([1]) == 1 && Val([0, 1]) == B && Val(a) == B * B;
    assert Val([0]) == 0;
    assert !BorrowPaid(a, b);
    SubTopVal(f, a, b);
  }

  /** 2^32 with an exponent against 2^32 with a zero word: `compare` calls the first one
      smaller, so `divmod_assign` leaves it as the remainder of itself. */
  lemma EqualNumbersUnequal()
    ensures Up(Val([1]), 1) == Up(Val([0, 1]), 0) && Sign(|[1]| - |[0, 1]|) == -1
  {
    assert [1][1..] == [] && [0, 1][1..] == [1];
    assert Val([1]) == 1 && Up(1, 0) == 1;
  }

  /** On that pair `divmod_assign` answers 0 and leaves the divisor's own value. */
  method EqualDivision() returns (a: BigInt, divisor: BigInt, quotient: nat)
    ensures a.Valid() && divisor.Valid() && quotient == 0 && a.Value() == divisor.Value() == B
  {
    a := new BigInt();
    a.AssignWord(1);
    ShiftedOne();
    a.ShiftLeft(32);
    divisor := new BigInt();
    divisor.AssignWord(B);
    NotFewerWords(divisor, a);
    NotFewerWords(a, divisor);
    quotient := DivmodAssign(a, divisor);
    if quotient > 0 { MulLe(1, quotient, B); }
  }

  lemma ShiftedOne()
    ensures 1 * Pow2(32) == B
  {
    Pow2At32();
  }
}
