/** Fixed-width unsigned integers as bit sequences, the least significant bit
    first: the arithmetic that `llvm::APInt` supplies, for every width. */
module Bits {

  type Bits = seq<bool>

  function Repeat(b: bool, n: nat): (r: Bits)
    ensures |r| == n && forall i :: 0 <= i < n ==> r[i] == b
  {
    seq(n, _ => b)
  }

  function Zeros(n: nat): Bits { Repeat(false, n) }
  function Ones(n: nat): Bits { Repeat(true, n) }

  /** The low `w` bits of an integer in two's complement. */
  function FromInt(n: int, w: nat): (b: Bits)
    ensures |b| == w
    decreases w
  {
    if w == 0 then [] else [n % 2 == 1] + FromInt(n / 2, w - 1)
  }

  function ToNat(b: Bits): nat {
    if b == [] then 0 else (if b[0] then 1 else 0) + 2 * ToNat(b[1..])
  }

  function Pow2(n: nat): (p: nat)
    ensures p >= 1
  {
    if n == 0 then 1 else 2 * Pow2(n - 1)
  }

  lemma OneBit(x: Bits, y: Bits)
    requires |x| == |y| == 1
    ensures x == y <==> x[0] == y[0]
  {
  }

  // ----- conversions -----

  lemma {:induction false} ToNatBound(b: Bits)
    ensures ToNat(b) < Pow2(|b|)
  {
    if b != [] {
      ToNatBound(b[1..]);
    }
  }

  lemma {:induction false} FromToNat(b: Bits)
    ensures FromInt(ToNat(b), |b|) == b
  {
    if b != [] {
      FromToNat(b[1..]);
      assert ToNat(b) / 2 == ToNat(b[1..]);
      assert b == [b[0]] + b[1..];
    }
  }

  lemma {:induction false} ToFromInt(n: nat, w: nat)
    requires n < Pow2(w)
    ensures ToNat(FromInt(n, w)) == n
    decreases w
  {
    if w > 0 {
      ToFromInt(n / 2, w - 1);
      assert FromInt(n, w)[1..] == FromInt(n / 2, w - 1);
    }
  }

  /** A negative number not below `-2^w` wraps around once. */
  lemma {:induction false} ToFromNegative(n: int, w: nat)
    requires n < 0 <= n + Pow2(w)
    ensures ToNat(FromInt(n, w)) == n + Pow2(w)
    decreases w
  {
    if w > 0 {
      ToFromNegative(n / 2, w - 1);
      assert FromInt(n, w)[1..] == FromInt(n / 2, w - 1);
    }
  }

  lemma ToNatInjective(x: Bits, y: Bits)
    requires |x| == |y|
    ensures ToNat(x) == ToNat(y) <==> x == y
  {
    FromToNat(x);
    FromToNat(y);
  }

  lemma {:induction false} ToNatZeros(n: nat)
    ensures ToNat(Zeros(n)) == 0
    ensures FromInt(0, n) == Zeros(n)
  {
    if n > 0 {
      ToNatZeros(n - 1);
      assert Zeros(n)[1..] == Zeros(n - 1);
    }
  }

  // ----- arithmetic modulo a power of two -----

  /** Reducing an operand of a sum early changes nothing. */
  lemma {:induction false} WrapAdd(m: int, n: int, w: nat)
    ensures FromInt(m + ToNat(FromInt(n, w)), w) == FromInt(m + n, w)
    decreases w
  {
    if w > 0 {
      var low := n % 2;
      var t := FromInt(n, w);
      assert t[1..] == FromInt(n / 2, w - 1);
      assert ToNat(t) == low + 2 * ToNat(t[1..]);
      WrapAdd((m + low) / 2, n / 2, w - 1);
      assert (m + ToNat(t)) / 2 == (m + low) / 2 + ToNat(t[1..]);
      assert (m + n) / 2 == (m + low) / 2 + n / 2;
    }
  }

  /** Reducing a subtrahend early changes nothing. */
  lemma {:induction false} WrapSub(m: int, n: int, w: nat)
    ensures FromInt(m - ToNat(FromInt(n, w)), w) == FromInt(m - n, w)
    decreases w
  {
    if w > 0 {
      var low := n % 2;
      var t := FromInt(n, w);
      assert t[1..] == FromInt(n / 2, w - 1);
      assert ToNat(t) == low + 2 * ToNat(t[1..]);
      WrapSub((m - low) / 2, n / 2, w - 1);
      assert (m - ToNat(t)) / 2 == (m - low) / 2 - ToNat(t[1..]);
      assert (m - n) / 2 == (m - low) / 2 - n / 2;
    }
  }

  function Plus(x: Bits, y: Bits): (r: Bits)
    requires |x| == |y|
    ensures |r| == |x|
  {
    FromInt(ToNat(x) + ToNat(y), |x|)
  }

  function Minus(x: Bits, y: Bits): (r: Bits)
    requires |x| == |y|
    ensures |r| == |x|
  {
    FromInt(ToNat(x) - ToNat(y), |x|)
  }

  lemma PlusExact(x: Bits, y: Bits)
    requires |x| == |y| && ToNat(x) + ToNat(y) < Pow2(|x|)
    ensures ToNat(Plus(x, y)) == ToNat(x) + ToNat(y)
  {
    ToFromInt(ToNat(x) + ToNat(y), |x|);
  }

  /** Nested sums and differences reassociate freely. */
  lemma ReassociateSum(x: Bits, y: Bits, z: Bits)
    requires |x| == |y| == |z|
    ensures Plus(Plus(x, y), z) == Plus(x, Plus(y, z)) == Plus(y, Plus(x, z))
  {
    WrapAdd(ToNat(z), ToNat(x) + ToNat(y), |x|);
    WrapAdd(ToNat(x), ToNat(y) + ToNat(z), |x|);
    WrapAdd(ToNat(y), ToNat(x) + ToNat(z), |x|);
  }

  lemma ReassociateMixed(x: Bits, y: Bits, z: Bits)
    requires |x| == |y| == |z|
    ensures Plus(x, Minus(y, z)) == Minus(Plus(x, y), z) == Plus(y, Minus(x, z))
  {
    WrapAdd(ToNat(x), ToNat(y) - ToNat(z), |x|);
    WrapAdd(0 - ToNat(z), ToNat(x) + ToNat(y), |x|);
    WrapAdd(ToNat(y), ToNat(x) - ToNat(z), |x|);
  }

  lemma ReassociateDifference(x: Bits, y: Bits, z: Bits)
    requires |x| == |y| == |z|
    ensures Minus(x, Plus(y, z)) == Minus(Minus(x, y), z)
    ensures Minus(x, Minus(y, z)) == Plus(Minus(x, y), z) == Minus(Plus(x, z), y)
  {
    DifferenceOfSum(x, y, z);
    DifferenceOfDifference(x, y, z);
  }

  lemma DifferenceOfSum(x: Bits, y: Bits, z: Bits)
    requires |x| == |y| == |z|
    ensures Minus(x, Plus(y, z)) == Minus(Minus(x, y), z)
  {
    WrapSub(ToNat(x), ToNat(y) + ToNat(z), |x|);
    WrapAdd(0 - ToNat(z), ToNat(x) - ToNat(y), |x|);
  }

  lemma DifferenceOfDifference(x: Bits, y: Bits, z: Bits)
    requires |x| == |y| == |z|
    ensures Minus(x, Minus(y, z)) == Plus(Minus(x, y), z) == Minus(Plus(x, z), y)
  {
    WrapSub(ToNat(x), ToNat(y) - ToNat(z), |x|);
    WrapAdd(ToNat(z), ToNat(x) - ToNat(y), |x|);
    WrapAdd(0 - ToNat(y), ToNat(x) + ToNat(z), |x|);
  }

  lemma PlusMinusZero(x: Bits, y: Bits)
    requires |x| == |y|
    ensures Plus(Zeros(|x|), x) == x && Minus(x, x) == Zeros(|x|)
    ensures Plus(x, y) == Plus(y, x)
    ensures Plus(Minus(Zeros(|x|), x), y) == Minus(y, x)
  {
    ToNatZeros(|x|);
    FromToNat(x);
    WrapAdd(ToNat(y), 0 - ToNat(x), |x|);
  }

  /** On one bit, sum and difference are exclusive or. */
  lemma OneBitSum(x: Bits, y: Bits)
    requires |x| == |y| == 1
    ensures Plus(x, y) == Minus(x, y) == XorBits(x, y)
  {
    assert ToNat(x[1..]) == 0 && ToNat(y[1..]) == 0;
    OneBit(Plus(x, y), XorBits(x, y));
    OneBit(Minus(x, y), XorBits(x, y));
  }

  /** Product and quotient by repeated addition and subtraction. */
  function Times(x: nat, y: nat): nat {
    if x == 0 then 0 else y + Times(x - 1, y)
  }

  function Over(x: nat, y: nat): nat
    requires y > 0
  {
    if x < y then 0 else 1 + Over(x - y, y)
  }

  lemma {:induction false} TimesZeroOne(y: nat)
    ensures Times(0, y) == 0 == Times(y, 0) && Times(1, y) == y == Times(y, 1)
  {
    assert Times(1, y) == y + Times(0, y);
    if y > 0 {
      TimesZeroOne(y - 1);
    }
  }

  lemma {:induction false} TimesCommutes(x: nat, y: nat)
    ensures Times(x, y) == Times(y, x)
    decreases x + y
  {
    if x == 0 || y == 0 {
      TimesZeroOne(x);
      TimesZeroOne(y);
    } else {
      TimesCommutes(x - 1, y);
      TimesCommutes(x, y - 1);
      TimesCommutes(x - 1, y - 1);
    }
  }

  // ----- signed reading -----

  function Signed(b: Bits): (s: int)
    requires |b| >= 1
  {
    if b[|b| - 1] then ToNat(b) - Pow2(|b|) else ToNat(b)
  }

  lemma SignedZero(b: Bits)
    requires |b| >= 1
    ensures Signed(b) == 0 <==> ToNat(b) == 0
  {
    ToNatBound(b);
    if ToNat(b) == 0 {
      ToNatZeros(|b|);
      ToNatInjective(b, Zeros(|b|));
    }
  }

  /** Division that truncates toward zero, as `APInt::sdiv` does. */
  function TruncOver(x: int, y: int): int
    requires y != 0
  {
    var q: int := Over(if x >= 0 then x else -x, if y >= 0 then y else -y);
    if (x >= 0) == (y >= 0) then q else -q
  }

  function TruncRem(x: int, y: int): int
    requires y != 0
  {
    var ax, ay := if x >= 0 then x else -x, if y >= 0 then y else -y;
    var r: int := ax - Times(Over(ax, ay), ay);
    if x >= 0 then r else -r
  }

  lemma OneBitValues(x: Bits)
    requires |x| == 1
    ensures ToNat(x) == (if x[0] then 1 else 0) && Signed(x) == (if x[0] then -1 else 0)
  {
    assert ToNat(x[1..]) == 0;
    assert Pow2(1) == 2 * Pow2(0);
  }

  /** Multiplication on bits. */
  function Product(x: Bits, y: Bits): (r: Bits)
    requires |x| == |y|
    ensures |r| == |x|
  {
    FromInt(Times(ToNat(x), ToNat(y)), |x|)
  }

  // ----- bitwise operations and shifts -----

  function AndBits(x: Bits, y: Bits): (r: Bits)
    requires |x| == |y|
    ensures |r| == |x|
    ensures forall i :: 0 <= i < |x| ==> r[i] == (x[i] && y[i])
  {
    seq(|x|, i requires 0 <= i < |x| => x[i] && y[i])
  }

  function OrBits(x: Bits, y: Bits): (r: Bits)
    requires |x| == |y|
    ensures |r| == |x|
    ensures forall i :: 0 <= i < |x| ==> r[i] == (x[i] || y[i])
  {
    seq(|x|, i requires 0 <= i < |x| => x[i] || y[i])
  }

  function XorBits(x: Bits, y: Bits): (r: Bits)
    requires |x| == |y|
    ensures |r| == |x|
    ensures forall i :: 0 <= i < |x| ==> r[i] == (x[i] != y[i])
  {
    seq(|x|, i requires 0 <= i < |x| => x[i] != y[i])
  }

  function NotBits(x: Bits): (r: Bits)
    ensures |r| == |x|
    ensures forall i :: 0 <= i < |x| ==> r[i] == !x[i]
  {
    seq(|x|, i requires 0 <= i < |x| => !x[i])
  }

  lemma AndLaws(x: Bits, y: Bits)
    requires |x| == |y|
    ensures AndBits(x, y) == AndBits(y, x)
    ensures AndBits(x, Ones(|x|)) == x && AndBits(x, Zeros(|x|)) == Zeros(|x|)
  {
  }

  lemma OrLaws(x: Bits, y: Bits)
    requires |x| == |y|
    ensures OrBits(x, y) == OrBits(y, x)
    ensures OrBits(x, Ones(|x|)) == Ones(|x|) && OrBits(x, Zeros(|x|)) == x
  {
  }

  lemma XorLaws(x: Bits, y: Bits)
    requires |x| == |y|
    ensures XorBits(x, y) == XorBits(y, x)
    ensures XorBits(Zeros(|x|), x) == x
  {
  }

  lemma ProductLaws(x: Bits, y: Bits)
    requires |x| == |y| >= 1
    ensures Product(x, y) == Product(y, x)
    ensures Product(FromInt(1, |x|), x) == x && Product(Zeros(|x|), x) == Zeros(|x|)
    ensures |x| == 1 ==> Product(x, y) == AndBits(x, y)
  {
    TimesCommutes(ToNat(x), ToNat(y));
    ToNatZeros(|x|);
    TimesZeroOne(ToNat(x));
    TimesZeroOne(ToNat(y));
    FromToNat(x);
    ToFromInt(1, |x|);
    if |x| == 1 {
      OneBitValues(x);
      OneBitValues(y);
      OneBit(Product(x, y), AndBits(x, y));
    }
  }

  function ShiftLeft(x: Bits, s: nat): (r: Bits)
    ensures |r| == |x|
  {
    if s >= |x| then Zeros(|x|) else Zeros(s) + x[..|x| - s]
  }

  function ShiftRight(x: Bits, s: nat, fill: bool): (r: Bits)
    ensures |r| == |x|
  {
    if s >= |x| then Repeat(fill, |x|) else x[s..] + Repeat(fill, s)
  }

  function SignExtend(x: Bits, w: nat): (r: Bits)
    requires 1 <= |x| <= w
    ensures |r| == w && r[..|x|] == x
  {
    x + Repeat(x[|x| - 1], w - |x|)
  }

  function ZeroExtend(x: Bits, w: nat): (r: Bits)
    requires |x| <= w
    ensures |r| == w && r[..|x|] == x
  {
    x + Zeros(w - |x|)
  }
}
