/** What the big-integer loops compute, as functions of the words, and their
    numeric meaning. A number is a sequence of 32-bit words, lowest first. */
module BigIntSpec {
  import opened Words

  const B: nat := 0x1_0000_0000

  ghost predicate Bigits(s: seq<nat>) {
    forall i :: 0 <= i < |s| ==> s[i] < B
  }

  ghost function Val(s: seq<nat>): nat {
    if s == [] then 0 else s[0] + B * Val(s[1..])
  }

  /** v * B^e, by repeated multiplication. */
  ghost function Up(v: nat, e: nat): nat {
    if e == 0 then v else B * Up(v, e - 1)
  }

  ghost function PowB(e: nat): nat {
    Up(1, e)
  }

  ghost function Pow(b: nat, e: nat): nat {
    if e == 0 then 1 else b * Pow(b, e - 1)
  }

  function Zeros(n: nat): (s: seq<nat>)
    ensures |s| == n && forall i :: 0 <= i < n ==> s[i] == 0
  {
    seq(n, _ => 0)
  }

  // ---------------------------------------------------------------------------
  // Values of sequences
  // ---------------------------------------------------------------------------

  lemma {:induction false} UpTimes(v: nat, k: nat, e: nat)
    ensures Up(v * k, e) == Up(v, e) * k
  {
    if e > 0 {
      UpTimes(v, k, e - 1);
      assert B * (Up(v, e - 1) * k) == B * Up(v, e - 1) * k;
    }
  }

  lemma {:induction false} UpZero(e: nat)
    ensures Up(0, e) == 0
  {
    if e > 0 { UpZero(e - 1); }
  }

  lemma {:induction false} UpUp(v: nat, a: nat, b: nat)
    ensures Up(Up(v, a), b) == Up(v, a + b)
  {
    if b > 0 { UpUp(v, a, b - 1); }
  }

  lemma {:induction false} UpPlus(v: nat, w: nat, e: nat)
    ensures Up(v + w, e) == Up(v, e) + Up(w, e)
  {
    if e > 0 { UpPlus(v, w, e - 1); }
  }

  lemma {:induction false} UpMonotone(v: nat, w: nat, e: nat)
    requires v <= w
    ensures Up(v, e) <= Up(w, e)
    ensures v < w ==> Up(v, e) < Up(w, e)
  {
    if e > 0 { UpMonotone(v, w, e - 1); }
  }

  lemma {:induction false} ValConcat(a: seq<nat>, b: seq<nat>)
    ensures Val(a + b) == Val(a) + Up(Val(b), |a|)
  {
    if a == [] {
      assert a + b == b;
    } else {
      ValConcat(a[1..], b);
      assert (a + b)[1..] == a[1..] + b;
    }
  }

  lemma {:induction false} ValZeros(n: nat)
    ensures Val(Zeros(n)) == 0
  {
    if n > 0 {
      ValZeros(n - 1);
      assert Zeros(n)[1..] == Zeros(n - 1);
    }
  }

  lemma {:induction false} ValBound(s: seq<nat>)
    requires Bigits(s)
    ensures Val(s) < PowB(|s|)
  {
    if s != [] { ValBound(s[1..]); }
  }

  /** A nonzero top word bounds the value from below. */
  lemma ValTop(s: seq<nat>)
    requires s != [] && s[|s| - 1] > 0
    ensures Val(s) >= PowB(|s| - 1)
  {
    var low, top := s[..|s| - 1], s[|s| - 1];
    assert s == low + [top];
    ValConcat(low, [top]);
    assert Val([top]) == top;
    UpMonotone(1, top, |low|);
  }

  /** Equal lengths: the most significant difference decides. */
  lemma ValCompare(a: seq<nat>, b: seq<nat>, i: nat)
    requires |a| == |b| && Bigits(a) && Bigits(b) && i < |a|
    requires a[i + 1..] == b[i + 1..] && a[i] < b[i]
    ensures Val(a) < Val(b)
  {
    var va, vb := Val(a[i..]), Val(b[i..]);
    HeadDecides(a[i..], b[i..]);
    SplitVal(a, i);
    SplitVal(b, i);
    UpStep(va, vb, i);
  }

  lemma UpStep(v: nat, w: nat, e: nat)
    requires v < w
    ensures Up(v, e) + PowB(e) <= Up(w, e)
  {
    UpMonotone(v + 1, w, e);
    UpPlus(v, 1, e);
  }

  lemma HeadDecides(a: seq<nat>, b: seq<nat>)
    requires a != [] && b != [] && a[1..] == b[1..] && a[0] < b[0]
    ensures Val(a) + 1 <= Val(b)
  {
  }

  lemma SplitVal(s: seq<nat>, i: nat)
    requires i <= |s| && Bigits(s)
    ensures Val(s) == Val(s[..i]) + Up(Val(s[i..]), i) && Val(s[..i]) < PowB(i)
  {
    assert s == s[..i] + s[i..];
    ValConcat(s[..i], s[i..]);
    ValBound(s[..i]);
  }

  // ---------------------------------------------------------------------------
  // Multiplication by one and by two words
  // ---------------------------------------------------------------------------

  lemma ProductBound(x: nat, y: nat)
    requires x < B && y < B
    ensures x * y <= (B - 1) * (B - 1)
  {
    MulMono(x, B - 1, y, B - 1);
  }

  lemma WordTimes(a: nat, t: nat, v: nat)
    ensures (a + B * t) * v == a * v + B * (t * v)
  {
    MulPlus(a, B * t, v);
    MulAssoc(B, t, v);
  }

  lemma TimesWord(v: nat, a: nat, t: nat)
    ensures v * (a + B * t) == v * a + B * (v * t)
  {
    WordTimes(a, t, v);
    assert a * v == v * a && t * v == v * t && (a + B * t) * v == v * (a + B * t);
  }

  /** What a loop over the words does to each item `x` with the carry `c` so far:
      the word it stores and the carry it takes on. */
  datatype WordStep<!T> = WordStep(low: (T, nat) -> nat, next: (T, nat) -> nat)

  /** Words stored from `s` on, entered with carry `c`, and the last carry. */
  ghost function Ripple<T>(s: seq<T>, f: WordStep<T>, c: nat): (r: (seq<nat>, nat))
    ensures |r.0| == |s|
  {
    if s == [] then ([], c)
    else
      var (rest, last) := Ripple(s[1..], f, f.next(s[0], c));
      ([f.low(s[0], c)] + rest, last)
  }

  /** One step splits b * v + c into a word and a carry below `bound`. */
  ghost predicate Splits(f: WordStep<nat>, v: nat, bound: nat) {
    forall b: nat, c: nat {:trigger f.low(b, c)} {:trigger f.next(b, c)} :: b < B && c < bound ==>
      f.low(b, c) < B && f.next(b, c) < bound && b * v + c == f.low(b, c) + B * f.next(b, c)
  }

  /** Rippling such steps through all words multiplies the whole number by v. */
  lemma {:induction false} RippleVal(s: seq<nat>, f: WordStep<nat>, v: nat, bound: nat, c: nat)
    requires Bigits(s) && Splits(f, v, bound) && c < bound
    ensures var (r, last) := Ripple(s, f, c);
      Bigits(r) && last < bound && Val(r) + Up(last, |s|) == Val(s) * v + c
  {
    if s != [] {
      var x := f.next(s[0], c);
      RippleVal(s[1..], f, v, bound, x);
      WordTimes(s[0], Val(s[1..]), v);
      var (rest, last) := Ripple(s[1..], f, x);
      assert ([f.low(s[0], c)] + rest)[1..] == rest;
    }
  }

  ghost predicate Topped(s: seq<nat>) {
    s != [] && s[|s| - 1] != 0
  }

  lemma {:induction false} RippleTop(s: seq<nat>, f: WordStep<nat>, v: nat, bound: nat, c: nat)
    requires Bigits(s) && Splits(f, v, bound) && c < bound && v > 0 && Topped(s)
    ensures var (r, last) := Ripple(s, f, c); last > 0 || Topped(r)
  {
    var x := f.next(s[0], c);
    if |s| > 1 {
      RippleVal(s[..1], f, v, bound, c);
      assert s[..1][0] == s[0];
      RippleTop(s[1..], f, v, bound, x);
    } else {
      assert f.low(s[0], c) < B;
      MulLe(1, s[0], v);
      assert Ripple(s[1..], f, x) == ([], x);
    }
  }

  /** The words of a carry, as the multiplications push them. */
  function CarryWords(carry: nat): seq<nat> {
    if carry == 0 then [] else [carry % B] + CarryWords(carry / B)
  }

  lemma {:induction false} CarryWordsVal(carry: nat)
    ensures Bigits(CarryWords(carry)) && Val(CarryWords(carry)) == carry
    ensures carry > 0 ==> Topped(CarryWords(carry))
  {
    if carry != 0 {
      CarryWordsVal(carry / B);
      assert CarryWords(carry)[1..] == CarryWords(carry / B);
    }
  }

  /** All words, then the words of the last carry: the number times v. */
  ghost function Scaled(s: seq<nat>, f: WordStep<nat>): seq<nat> {
    Ripple(s, f, 0).0 + CarryWords(Ripple(s, f, 0).1)
  }

  lemma ScaledVal(s: seq<nat>, f: WordStep<nat>, v: nat, bound: nat)
    requires s != [] && Bigits(s) && Splits(f, v, bound) && v > 0 && bound > 0
    ensures Bigits(Scaled(s, f)) && Val(Scaled(s, f)) == Val(s) * v
    ensures Topped(s) ==> Topped(Scaled(s, f))
    ensures s == [0] ==> Scaled(s, f) == [0]
  {
    var (r, last) := Ripple(s, f, 0);
    RippleVal(s, f, v, bound, 0);
    CarryWordsVal(last);
    ValConcat(r, CarryWords(last));
    if Topped(s) { RippleTop(s, f, v, bound, 0); }
    if s == [0] {
      assert f.low(0, 0) < B && 0 * v == 0;
      assert Ripple(s[1..], f, f.next(0, 0)) == ([], f.next(0, 0));
    }
  }

  // ---------------------------------------------------------------------------
  // The three word steps
  // ---------------------------------------------------------------------------

  /** `multiply(uint32_t)`: a 64-bit product plus a one-word carry. */
  function Times32(v: nat): WordStep<nat> {
    WordStep((b: nat, c: nat) => (b * v + c) % B, (b: nat, c: nat) => (b * v + c) / B)
  }

  /** The 64-bit intermediate of `multiply(uint32_t)` never overflows. */
  lemma Times32Fits(b: nat, v: nat, c: nat)
    requires b < B && v < B && c < B
    ensures b * v + c < B * B
  {
    ProductBound(b, v);
  }

  lemma Times32Splits(v: nat)
    requires v < B
    ensures Splits(Times32(v), v, B)
  {
    forall b: nat, c: nat | b < B && c < B
      ensures Times32(v).low(b, c) < B && Times32(v).next(b, c) < B
      ensures b * v + c == Times32(v).low(b, c) + B * Times32(v).next(b, c)
    {
      Times32Fits(b, v, c);
    }
  }

  function Low64(b: nat, v: nat, c: nat): nat {
    b * (v % B) + c % B
  }

  function Next64(b: nat, v: nat, c: nat): nat {
    b * (v / B) + Low64(b, v, c) / B + c / B
  }

  /** `multiply(uint64_t)`: two half products, a 64-bit carry. */
  function Times64(v: nat): WordStep<nat> {
    WordStep((b: nat, c: nat) => Low64(b, v, c) % B, (b: nat, c: nat) => Next64(b, v, c))
  }

  /** Both 64-bit intermediates of `multiply(uint64_t)` fit. */
  lemma Times64Fits(b: nat, v: nat, c: nat)
    requires b < B && v < B * B && c < B * B
    ensures Low64(b, v, c) < B * B && Next64(b, v, c) < B * B
    ensures b * v + c == Low64(b, v, c) % B + B * Next64(b, v, c)
  {
    var lo, hi := v % B, v / B;
    assert hi < B && v == lo + B * hi;
    ProductBound(b, lo);
    ProductBound(b, hi);
    TimesWord(b, lo, hi);
  }

  /** The carry bound of `multiply(uint64_t)` has no slack. */
  lemma Times64FitsTightly()
    ensures Next64(B - 1, B * B - 1, B * B - 1) == B * B - 1
  {
  }

  lemma Times64Splits(v: nat)
    requires v < B * B
    ensures Splits(Times64(v), v, B * B)
  {
    forall b: nat, c: nat | b < B && c < B * B
      ensures Times64(v).low(b, c) < B && Times64(v).next(b, c) < B * B
      ensures b * v + c == Times64(v).low(b, c) + B * Times64(v).next(b, c)
    {
      Times64Fits(b, v, c);
    }
  }

  function ShiftedOut(b: nat, k: nat): nat
    requires k <= 32
  {
    DivNonnegative(b, Pow2(32 - k));
    b / Pow2(32 - k)
  }

  function ShiftedIn(b: nat, k: nat, c: nat): nat {
    (b * Pow2(k)) % B + c
  }

  /** The in-word part of `operator<<=`: the bits shifted out carry over. */
  function ShiftBy(k: nat): WordStep<nat>
    requires k <= 32
  {
    WordStep((b: nat, c: nat) => ShiftedIn(b, k, c), (b: nat, c: nat) => ShiftedOut(b, k))
  }

  lemma ShiftFits(b: nat, k: nat, c: nat)
    requires b < B && k <= 32 && c < Pow2(k)
    ensures b * Pow2(k) + c == ShiftedIn(b, k, c) + B * ShiftedOut(b, k)
    ensures ShiftedIn(b, k, c) < B && ShiftedOut(b, k) < Pow2(k)
  {
    Pow2Add(k, 32 - k);
    Pow2At32();
    ShiftArith(b, Pow2(k), Pow2(32 - k));
  }

  lemma ShiftArith(b: nat, p: nat, q: nat)
    requires b < B && p > 0 && q > 0 && p * q == B
    ensures b / q < p && (b * p) % B + p <= B
    ensures b * p == (b * p) % B + B * (b / q)
  {
    var c, d := b / q, b % q;
    assert b == q * c + d;
    assert b * p == B * c + d * p by {
      MulPlus(q * c, d, p);
      assert (q * c) * p == (p * q) * c;
    }
    assert d * p + p <= B by {
      MulLe(d + 1, q, p);
      MulPlus(d, 1, p);
    }
    DivMod(b * p, B, c, d * p);
    if c >= p { MulLe(p, c, q); }
  }

  lemma Pow2At32()
    ensures Pow2(32) == B
  {
    var byte := 8;
    assert Pow2(byte) == 0x100;
    Pow2Add(8, 8);
    Pow2Add(16, 16);
  }

  lemma ShiftSplits(k: nat)
    requires k <= 32
    ensures Splits(ShiftBy(k), Pow2(k), Pow2(k))
  {
    var f, p := ShiftBy(k), Pow2(k);
    forall b: nat, c: nat | b < B && c < p
      ensures f.low(b, c) < B && f.next(b, c) < p && b * p + c == f.low(b, c) + B * f.next(b, c)
    {
      ShiftFits(b, k, c);
      assert f.low(b, c) == ShiftedIn(b, k, c) && f.next(b, c) == ShiftedOut(b, k);
    }
  }

  // ---------------------------------------------------------------------------
  // Dropping leading zeros; subtraction
  // ---------------------------------------------------------------------------

  function Strip(s: seq<nat>): (r: seq<nat>)
    ensures |r| <= |s| && (s != [] ==> r != [])
    ensures |r| > 1 ==> r[|r| - 1] != 0
  {
    if |s| > 1 && s[|s| - 1] == 0 then Strip(s[..|s| - 1]) else s
  }

  lemma {:induction false} StripVal(s: seq<nat>)
    requires Bigits(s)
    ensures Bigits(Strip(s)) && Val(Strip(s)) == Val(s) && Strip(s) <= s
  {
    if |s| > 1 && s[|s| - 1] == 0 {
      var low := s[..|s| - 1];
      StripVal(low);
      assert s == low + [0];
      ValConcat(low, [0]);
      UpZero(|low|);
    }
  }

  /** `subtract_bigits`: a 64-bit difference, its low word and its sign bit. */
  function WideDifference(a: nat, b: nat, borrow: nat): nat {
    (a as int - b - borrow) % (B * B)
  }

  function SubtractBigits(): WordStep<(nat, nat)> {
    WordStep((p: (nat, nat), c: nat) => WideDifference(p.0, p.1, c) % B,
             (p: (nat, nat), c: nat) => WideDifference(p.0, p.1, c) / (B * B / 2))
  }

  lemma WideDifferenceSplits(a: nat, b: nat, c: nat)
    requires a < B && b < B && c <= 1
    ensures var d := WideDifference(a, b, c);
      d / (B * B / 2) <= 1 && d % B == a - b - c + B * (d / (B * B / 2))
  {
    if a >= b + c {
      assert WideDifference(a, b, c) == a - b - c;
    } else {
      assert WideDifference(a, b, c) == B * B + (a - b - c);
    }
  }

  /** One step takes a word and a borrow off another word. */
  ghost predicate Subtracts(f: WordStep<(nat, nat)>) {
    forall p: (nat, nat), c: nat {:trigger f.low(p, c)} {:trigger f.next(p, c)} :: p.0 < B && p.1 < B && c <= 1 ==>
      f.low(p, c) < B && f.next(p, c) <= 1 && f.low(p, c) == p.0 - p.1 - c + B * f.next(p, c)
  }

  lemma SubtractBigitsSubtracts()
    ensures Subtracts(SubtractBigits())
  {
    var f := SubtractBigits();
    forall p: (nat, nat), c: nat | p.0 < B && p.1 < B && c <= 1
      ensures f.low(p, c) < B && f.next(p, c) <= 1 && f.low(p, c) == p.0 - p.1 - c + B * f.next(p, c)
    {
      WideDifferenceSplits(p.0, p.1, c);
    }
  }

  function Zip(a: seq<nat>, b: seq<nat>): (p: seq<(nat, nat)>)
    requires |a| == |b|
    ensures |p| == |a| && forall i {:trigger p[i]} :: 0 <= i < |p| ==> p[i] == (a[i], b[i])
  {
    seq(|a|, i requires 0 <= i < |a| => (a[i], b[i]))
  }

  /** Word-by-word subtraction with a borrow, for equally many words. */
  lemma {:induction false} SubtractRipple(f: WordStep<(nat, nat)>, a: seq<nat>, b: seq<nat>, c: nat)
    requires |a| == |b| && Bigits(a) && Bigits(b) && c <= 1 && Subtracts(f)
    ensures var (r, last) := Ripple(Zip(a, b), f, c);
      Bigits(r) && last <= 1 && Val(r) + Val(b) + c == Val(a) + Up(last, |a|)
  {
    if a != [] {
      var p := Zip(a, b);
      var x := f.next(p[0], c);
      assert p[1..] == Zip(a[1..], b[1..]);
      SubtractRipple(f, a[1..], b[1..], x);
      var (rest, last) := Ripple(p[1..], f, x);
      assert ([f.low(p[0], c)] + rest)[1..] == rest;
    }
  }

  /** The borrow loop on the word above: it turns a zero there into 2^32 - 2. */
  function PayFrom(a: seq<nat>, borrow: nat): (r: seq<nat>)
    ensures |r| == |a|
  {
    if borrow == 0 || a == [] then a else [if a[0] > 0 then a[0] - 1 else B - 2] + a[1..]
  }

  ghost function BorrowOf(f: WordStep<(nat, nat)>, a: seq<nat>, b: seq<nat>): nat
    requires |b| <= |a|
  {
    Ripple(Zip(a[..|b|], b), f, 0).1
  }

  /** The words of `a` after subtracting `b`, as the loops of `subtract_aligned` leave
      them: word by word, then the borrow from the word above. */
  ghost function SubTop(f: WordStep<(nat, nat)>, a: seq<nat>, b: seq<nat>): (r: seq<nat>)
    requires |b| <= |a|
    ensures |r| == |a|
  {
    Ripple(Zip(a[..|b|], b), f, 0).0 + PayFrom(a[|b|..], BorrowOf(f, a, b))
  }

  /** The words subtracted from are worth enough, or the word above is nonzero. */
  ghost predicate BorrowPaid(a: seq<nat>, b: seq<nat>)
    requires |b| <= |a|
  {
    Val(a[..|b|]) >= Val(b) || (|b| < |a| && a[|b|] > 0)
  }

  lemma PayFromVal(a: seq<nat>)
    requires a != []
    ensures if a[0] > 0 then Val(PayFrom(a, 1)) + 1 == Val(a) else Val(PayFrom(a, 1)) == Val(a) + (B - 2)
  {
    assert PayFrom(a, 1)[1..] == a[1..];
  }

  /** The arithmetic of a borrow `c` over `n` words: `w` and `p'` replace `m` and `p`. */
  lemma SubNumbers(m: nat, p: nat, p': nat, w: nat, b: nat, c: nat, n: nat)
    requires c <= 1 && w + b == m + Up(c, n) && w < PowB(n)
    ensures c == 1 <==> m < b
    ensures c == 0 ==> w + Up(p, n) + b == m + Up(p, n)
    ensures c == 1 && p' + 1 == p ==> w + Up(p', n) + b == m + Up(p, n)
    ensures c == 1 && p' > p ==> w + Up(p', n) + b > m + Up(p, n)
  {
    UpZero(n);
    if p' + 1 == p { UpPlus(1, p', n); }
    if p' > p { UpMonotone(p, p', n); }
  }

  /** The subtraction is exact exactly when the borrow can be taken; with no word
      above, a borrow means that `b` was larger. */
  lemma SubTopSplits(a: seq<nat>, n: nat, words: seq<nat>, post: seq<nat>)
    requires n <= |a| && |words| == n
    ensures Val(a) == Val(a[..n]) + Up(Val(a[n..]), n) && Val(words + post) == Val(words) + Up(Val(post), n)
  {
    assert a == a[..n] + a[n..];
    ValConcat(a[..n], a[n..]);
    ValConcat(words, post);
  }

  lemma SubTopVal(f: WordStep<(nat, nat)>, a: seq<nat>, b: seq<nat>)
    requires |b| <= |a| && Bigits(a) && Bigits(b) && Subtracts(f)
    ensures Bigits(SubTop(f, a, b))
    ensures Val(a) >= Val(b) ==> (Val(SubTop(f, a, b)) + Val(b) == Val(a) <==> BorrowPaid(a, b))
    ensures Val(a) >= Val(b) && |b| == |a| ==> BorrowOf(f, a, b) == 0
    ensures BorrowOf(f, a, b) <= 1
  {
    var n := |b|;
    var mid, post := a[..n], a[n..];
    var (words, borrow) := Ripple(Zip(mid, b), f, 0);
    var post' := PayFrom(post, borrow);
    SubtractRipple(f, mid, b, 0);
    ValBound(words);
    SubTopSplits(a, n, words, post');
    if post != [] { PayFromVal(post); } else { UpZero(n); }
    SubNumbers(Val(mid), Val(post), Val(post'), Val(words), Val(b), borrow, n);
  }

  lemma {:induction false} PowBPositive(e: nat)
    ensures PowB(e) > 0
  {
    if e > 0 { PowBPositive(e - 1); }
  }

  /** Equality carries over to shifted values with a common low part. */
  lemma UpEqual(v: nat, r: nat, b: nat, low: nat, off: nat)
    ensures low + Up(r, off) + Up(b, off) == low + Up(v, off) <==> r + b == v
  {
    UpPlus(r, b, off);
    if r + b < v { UpMonotone(r + b, v, off); }
    if r + b > v { UpMonotone(v, r + b, off); }
  }

  lemma UpAtLeast(v: nat, b: nat, low: nat, off: nat)
    requires low < PowB(off) && low + Up(v, off) >= Up(b, off)
    ensures v >= b
  {
    if v < b { UpStep(v, b, off); }
  }

  /** The same at any word offset. */
  lemma SubAtVal(f: WordStep<(nat, nat)>, a: seq<nat>, b: seq<nat>, off: nat)
    requires off + |b| <= |a| && Bigits(a) && Bigits(b) && Subtracts(f)
    requires Val(a) >= Up(Val(b), off)
    ensures Bigits(SubTop(f, a[off..], b))
    ensures BorrowOf(f, a[off..], b) <= 1 && (off + |b| < |a| || BorrowOf(f, a[off..], b) == 0)
    ensures Val(a[..off] + SubTop(f, a[off..], b)) + Up(Val(b), off) == Val(a) <==> BorrowPaid(a[off..], b)
  {
    var low, high := a[..off], a[off..];
    SplitVal(a, off);
    UpAtLeast(Val(high), Val(b), Val(low), off);
    SubTopVal(f, high, b);
    ValConcat(low, SubTop(f, high, b));
    UpEqual(Val(high), Val(SubTop(f, high, b)), Val(b), Val(low), off);
  }

  // ---------------------------------------------------------------------------
  // Squaring by columns
  // ---------------------------------------------------------------------------

  ghost function At(s: seq<nat>, i: int): nat {
    if 0 <= i < |s| then s[i] else 0
  }

  /** The products a[i] * b[k - i] of column `k`, from index `i` on. */
  ghost function Column(a: seq<nat>, b: seq<nat>, k: int, i: nat): nat
    decreases |a| - i
  {
    if i >= |a| then 0 else a[i] * At(b, k - i) + Column(a, b, k, i + 1)
  }

  /** The columns from `k` on, weighted by powers of B. */
  ghost function Columns(a: seq<nat>, b: seq<nat>, k: int, len: nat): nat
    decreases len
  {
    if len == 0 then 0 else Column(a, b, k, 0) + B * Columns(a, b, k + 1, len - 1)
  }

  lemma {:induction false} ColumnTail(a: seq<nat>, b: seq<nat>, k: int, i: nat)
    requires a != []
    ensures Column(a, b, k, i + 1) == Column(a[1..], b, k - 1, i)
    decreases |a| - i
  {
    if i + 1 < |a| { ColumnTail(a, b, k, i + 1); }
  }

  ghost function Weighted(b: seq<nat>, k: int, len: nat): nat
    decreases len
  {
    if len == 0 then 0 else At(b, k) + B * Weighted(b, k + 1, len - 1)
  }

  lemma {:induction false} WeightedVal(b: seq<nat>, k: nat, len: nat)
    requires k + len >= |b|
    ensures Weighted(b, k, len) == if k <= |b| then Val(b[k..]) else 0
    decreases len
  {
    if len > 0 {
      WeightedVal(b, k + 1, len - 1);
      if k < |b| { assert b[k..][1..] == b[k + 1..]; }
      if k == |b| { assert b[k..] == []; }
    }
  }

  lemma {:induction false} ColumnsHead(a: seq<nat>, b: seq<nat>, k: int, len: nat)
    requires a != []
    ensures Columns(a, b, k, len) == a[0] * Weighted(b, k, len) + Columns(a[1..], b, k - 1, len)
    decreases len
  {
    if len > 0 {
      ColumnsHead(a, b, k + 1, len - 1);
      ColumnTail(a, b, k, 0);
      TimesWord(a[0], At(b, k), Weighted(b, k + 1, len - 1));
    }
  }

  lemma {:induction false} ColumnsEmpty(b: seq<nat>, k: int, len: nat)
    ensures Columns([], b, k, len) == 0
    decreases len
  {
    if len > 0 { ColumnsEmpty(b, k + 1, len - 1); }
  }

  lemma {:induction false} ColumnBefore(a: seq<nat>, b: seq<nat>, k: int, i: nat)
    requires k < i
    ensures Column(a, b, k, i) == 0
    decreases |a| - i
  {
    if i < |a| { ColumnBefore(a, b, k, i + 1); }
  }

  /** Adding up the columns is multiplying the values. */
  lemma {:induction false} ColumnsAreProduct(a: seq<nat>, b: seq<nat>, len: nat)
    requires len >= |a| + |b|
    ensures Columns(a, b, 0, len) == Val(a) * Val(b)
    decreases |a|
  {
    if a == [] {
      ColumnsEmpty(b, 0, len);
    } else {
      ColumnsHead(a, b, 0, len);
      WeightedVal(b, 0, len);
      assert b[0..] == b;
      ColumnBefore(a[1..], b, -1, 0);
      ColumnsAreProduct(a[1..], b, len - 1);
      WordTimes(a[0], Val(a[1..]), Val(b));
    }
  }

  /** Words and carry after the columns `k`, `k + 1`, ... entered with `sum`. */
  ghost function CarryOut(a: seq<nat>, k: int, len: nat, sum: nat): (r: (seq<nat>, nat))
    ensures |r.0| == len && Bigits(r.0)
    decreases len
  {
    if len == 0 then ([], sum)
    else
      var s := sum + Column(a, a, k, 0);
      var (rest, c) := CarryOut(a, k + 1, len - 1, s / B);
      ([s % B] + rest, c)
  }

  lemma CarryOutStep(a: seq<nat>, k: int, len: nat, sum: nat, col: nat)
    requires len > 0 && col == Column(a, a, k, 0)
    ensures CarryOut(a, k, len, sum).0 == [(sum + col) % B] + CarryOut(a, k + 1, len - 1, (sum + col) / B).0
  {
  }

  lemma {:induction false} CarryOutVal(a: seq<nat>, k: int, len: nat, sum: nat)
    ensures var (r, c) := CarryOut(a, k, len, sum);
      Val(r) + Up(c, len) == Columns(a, a, k, len) + sum
    decreases len
  {
    if len > 0 {
      var s := sum + Column(a, a, k, 0);
      CarryOutVal(a, k + 1, len - 1, s / B);
      assert CarryOut(a, k, len, sum).0[1..] == CarryOut(a, k + 1, len - 1, s / B).0;
    }
  }

  /** The 2n columns of an n-word square give the square, with no carry left. */
  lemma SquareVal(a: seq<nat>)
    requires Bigits(a)
    ensures CarryOut(a, 0, 2 * |a|, 0).1 == 0
    ensures Val(CarryOut(a, 0, 2 * |a|, 0).0) == Val(a) * Val(a)
  {
    var n := 2 * |a|;
    var (r, c) := CarryOut(a, 0, n, 0);
    CarryOutVal(a, 0, n, 0);
    ColumnsAreProduct(a, a, n);
    ValBound(a);
    SquareBound(Val(a), |a|);
    if c > 0 { UpMonotone(1, c, n); }
    UpZero(n);
  }

  lemma SquareBound(v: nat, n: nat)
    requires v < PowB(n)
    ensures v * v < PowB(2 * n)
  {
    var p := PowB(n);
    MulMono(v, p - 1, v, p - 1);
    assert (p - 1) * (p - 1) < p * p by {
      MulLt(p - 1, p, p);
      if p > 1 { MulLe(p - 1, p, p - 1); }
    }
    UpTimes(1, p, n);
    UpUp(1, n, n);
    assert p * p == Up(p, n);
  }
}
