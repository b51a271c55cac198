/** `bigint::assign_pow10`: a power of ten by repeated squaring of five. */
module Pow10 {
  import opened Words
  import opened BigIntSpec
  import opened BigInt

  /** `e` with its lowest `j` bits dropped. */
  ghost function Half(e: nat, j: nat): nat
    decreases j
  {
    if j == 0 then e else Half(e / 2, j - 1)
  }

  lemma {:induction false} HalfStep(e: nat, j: nat)
    ensures Half(e, j + 1) == Half(e, j) / 2
    decreases j
  {
    if j > 0 { HalfStep(e / 2, j - 1); }
  }

  /** Testing one bit of the exponent against the mask. */
  lemma {:induction false} MaskTestsBit(e: nat, j: nat)
    ensures BitAnd(e, Pow2(j)) != 0 <==> Half(e, j) % 2 == 1
    decreases j
  {
    if j > 0 {
      MaskTestsBit(e / 2, j - 1);
      assert Pow2(j) == 2 * Pow2(j - 1);
      HalfOfZero(j);
    }
  }

  lemma {:induction false} HalfOfZero(j: nat)
    ensures Half(0, j) == 0
  {
    if j > 0 { HalfOfZero(j - 1); }
  }

  /** The top bit: halving down to it leaves one. */
  lemma {:induction false} HalfTop(e: nat, j: nat)
    requires Pow2(j) <= e < Pow2(j + 1)
    ensures Half(e, j) == 1
    decreases j
  {
    if j > 0 { HalfTop(e / 2, j - 1); }
  }

  lemma {:induction false} PowAdd(b: nat, x: nat, y: nat)
    ensures Pow(b, x + y) == Pow(b, x) * Pow(b, y)
  {
    if x > 0 {
      PowAdd(b, x - 1, y);
      MulAssoc(b, Pow(b, x - 1), Pow(b, y));
    }
  }

  lemma {:induction false} PowTen(e: nat)
    ensures Pow(5, e) * Pow2(e) == Pow(10, e)
  {
    if e > 0 {
      PowTen(e - 1);
      TenSplit(Pow(5, e - 1), Pow2(e - 1));
    }
  }

  lemma TenSplit(x: nat, y: nat)
    ensures (5 * x) * (2 * y) == 10 * (x * y)
  {
  }

  /** The mask of the first loop as a 32-bit int: one left shift. */
  function ShiftInt(m: int): int {
    var x := (2 * m) % 0x1_0000_0000;
    if x >= 0x8000_0000 then x - 0x1_0000_0000 else x
  }

  function MaskAfter(n: nat): int {
    if n == 0 then 1 else ShiftInt(MaskAfter(n - 1))
  }

  lemma {:induction false} MaskSmall(n: nat)
    requires n <= 30
    ensures MaskAfter(n) == Pow2(n)
  {
    if n > 0 {
      MaskSmall(n - 1);
      Pow2Monotone(n, 30);
      Pow2At30();
    }
  }

  lemma MaskNext(n: nat, m: int)
    requires MaskAfter(n) == m
    ensures MaskAfter(n + 1) == ShiftInt(m)
  {
  }

  lemma MaskWraps(n: nat)
    requires MaskAfter(n) == 0x4000_0000
    ensures MaskAfter(n + 1) == -0x8000_0000
  {
    MaskNext(n, 0x4000_0000);
  }

  lemma {:induction false} MaskLarge(n: nat)
    requires n > 30
    ensures MaskAfter(n) == 0 || MaskAfter(n) == -0x8000_0000
  {
    var m := n - 1;
    if m > 30 {
      MaskLarge(m);
      MaskNext(m, MaskAfter(m));
    } else {
      MaskSmall(m);
      Pow2At30();
      MaskWraps(m);
    }
  }

  lemma Pow2At30()
    ensures Pow2(30) == 0x4000_0000
  {
    Pow2At32();
    Pow2Add(30, 2);
    assert Pow2(2) == 4;
  }

  /** The search for the top bit ends if and only if the exponent is below 2^30. */
  lemma MaskSearchEnds(e: nat)
    ensures (exists n :: MaskAfter(n) > e) <==> e < 0x4000_0000
  {
    Pow2At30();
    if e < 0x4000_0000 {
      MaskSmall(30);
    } else {
      forall n ensures MaskAfter(n) <= e {
        if n <= 30 {
          MaskSmall(n);
          Pow2Monotone(n, 30);
        } else {
          MaskLarge(n);
        }
      }
    }
  }

  /** `assign_pow10`; beyond 2^30 its first loop does not end. */
  method AssignPow10(a: BigInt, exp: nat)
    requires exp < 0x4000_0000
    modifies a
    ensures a.Valid() && a.TopNonzero() && a.Value() == Pow(10, exp) && a.exp == exp / 32
  {
    if exp == 0 {
      a.AssignWord(1);
      return;
    }
    var bitmask: nat := 1;
    ghost var j: nat := 0;
    while exp >= bitmask
      invariant bitmask == Pow2(j) && (j > 0 ==> Pow2(j - 1) <= exp) && j <= 30
      decreases 2 * exp - bitmask
    {
      Pow2At30();
      bitmask, j := bitmask * 2, j + 1;
    }
    bitmask, j := bitmask / 2, j - 1;
    HalfTop(exp, j);
    a.AssignWord(5);
    bitmask := bitmask / 2;
    SquareUp(a, exp, bitmask, j);
    PowTen(exp);
    a.ShiftLeft(exp);
  }

  /** The second loop: one squaring per remaining bit of the exponent. */
  method SquareUp(a: BigInt, exp: nat, mask: nat, ghost top: nat)
    requires a.Valid() && a.TopNonzero() && a.exp == 0 && a.Value() == 5 && Half(exp, top) == 1
    requires mask == (if top == 0 then 0 else Pow2(top - 1))
    modifies a
    ensures a.Valid() && a.TopNonzero() && a.exp == 0 && a.Value() == Pow(5, exp)
  {
    var bitmask: nat := mask;
    ghost var j := top;
    assert Pow(5, 1) == 5 * Pow(5, 0);
    while bitmask != 0
      invariant a.Valid() && a.TopNonzero() && a.exp == 0 && a.Value() == Pow(5, Half(exp, j))
      invariant bitmask == (if j == 0 then 0 else Pow2(j - 1))
      decreases j
    {
      HalfStep(exp, j - 1);
      MaskTestsBit(exp, j - 1);
      SquareOnce(a, BitAnd(exp, bitmask) != 0, Half(exp, j));
      bitmask, j := bitmask / 2, j - 1;
    }
  }

  method SquareOnce(a: BigInt, odd: bool, ghost h: nat)
    requires a.Valid() && a.TopNonzero() && a.exp == 0 && a.Value() == Pow(5, h)
    modifies a
    ensures a.Valid() && a.TopNonzero() && a.exp == 0 && a.Value() == Pow(5, 2 * h + (if odd then 1 else 0))
  {
    PowAdd(5, h, h);
    a.Square();
    if odd { a.Multiply32(5); }
  }
}
