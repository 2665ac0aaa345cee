/** What the operations on bits compute in terms of the integers: a bit sequence of
    width `w` stands for an integer modulo `2^w`, and every operation of the
    expression language is the integer operation of its name. */
module Numbers {
  import opened Bits
  import opened Exprs

  // ----- division of integers -----

  lemma Divide(m: int, d: int, q: int, r: int)
    requires d > 0 && m == d * q + r && 0 <= r < d
    ensures m / d == q && m % d == r
  {
    var k, s := m / d, m % d;
    assert m == d * k + s;
    assert d * (q - k) == s - r;
    if q - k >= 1 {
      Grows(d, q - k, 1);
    } else if q - k <= -1 {
      Grows(d, -1, q - k);
    }
  }

  lemma Grows(d: int, a: int, b: int)
    requires d > 0 && a >= b
    ensures d * a >= d * b
  {
  }

  /** Dividing by 2 first. */
  lemma HalfFirst(m: int, p: int)
    requires p > 0
    ensures m / (2 * p) == (m / 2) / p && m % (2 * p) == m % 2 + 2 * ((m / 2) % p)
  {
    var h, b := m / 2, m % 2;
    var q, r := h / p, h % p;
    assert h == p * q + r;
    assert m == 2 * h + b;
    assert 2 * (p * q) == (2 * p) * q;
    Divide(m, 2 * p, q, 2 * r + b);
  }

  // ----- integers and bits -----

  /** The bits of an integer are its residue. */
  lemma {:induction false} Residue(m: int, w: nat)
    ensures ToNat(FromInt(m, w)) == m % Pow2(w)
    decreases w
  {
    if w > 0 {
      Residue(m / 2, w - 1);
      HalfFirst(m, Pow2(w - 1));
      assert FromInt(m, w)[1..] == FromInt(m / 2, w - 1);
    }
  }

  lemma SameResidue(m: int, n: int, w: nat)
    ensures FromInt(m, w) == FromInt(n, w) <==> m % Pow2(w) == n % Pow2(w)
  {
    Residue(m, w);
    Residue(n, w);
    ToNatInjective(FromInt(m, w), FromInt(n, w));
  }

  /** Multiples of `2^w` do not show. */
  lemma Periodic(m: int, k: int, w: nat)
    ensures FromInt(m + Pow2(w) * k, w) == FromInt(m, w)
  {
    var p := Pow2(w);
    var q, r := m / p, m % p;
    assert m == p * q + r;
    assert p * q + p * k == p * (q + k);
    Divide(m + p * k, p, q + k, r);
    SameResidue(m + p * k, m, w);
  }

  /** The low bits of an integer, and those above. */
  lemma {:induction false} Split(m: int, v: nat, w: nat)
    ensures FromInt(m, v + w) == FromInt(m, v) + FromInt(m / Pow2(v), w)
    decreases v
  {
    if v > 0 {
      Split(m / 2, v - 1, w);
      HalfFirst(m, Pow2(v - 1));
      assert FromInt(m, v) == [m % 2 == 1] + FromInt(m / 2, v - 1);
    }
  }

  lemma Prefix(m: int, v: nat, w: nat)
    requires v <= w
    ensures FromInt(m, w)[..v] == FromInt(m, v) && FromInt(m, w)[v..] == FromInt(m / Pow2(v), w - v)
  {
    Split(m, v, w - v);
  }

  /** Bit `i` has weight `2^i`. */
  lemma BitOf(m: int, w: nat, i: nat)
    requires i < w
    ensures FromInt(m, w)[i] <==> (m / Pow2(i)) % 2 == 1
  {
    Prefix(m, i, w);
    assert FromInt(m, w)[i] == FromInt(m, w)[i..][0];
  }

  /** The numbers that two's complement gives `w` bits. */
  predicate InRange(m: int, w: nat)
    requires w >= 1
  {
    0 - Pow2(w - 1) <= m < Pow2(w - 1)
  }

  /** In two's complement the highest bit is the sign. */
  lemma SignedIs(m: int, w: nat)
    requires w >= 1 && InRange(m, w)
    ensures Signed(FromInt(m, w)) == m && (FromInt(m, w)[w - 1] <==> m < 0)
  {
    var p := Pow2(w - 1);
    BitOf(m, w, w - 1);
    if m >= 0 {
      Divide(m, p, 0, m);
      ToFromInt(m, w);
    } else {
      Divide(m, p, -1, m + p);
      ToFromNegative(m, w);
    }
  }

  lemma {:induction false} SignedRange(b: Bits)
    requires |b| >= 1
    ensures InRange(Signed(b), |b|) && FromInt(Signed(b), |b|) == b
  {
    var w := |b|;
    FromToNat(b);
    ToNatBound(b);
    BitOf(ToNat(b), w, w - 1);
    var p := Pow2(w - 1);
    if b[w - 1] {
      if ToNat(b) < p {
        Divide(ToNat(b), p, 0, ToNat(b));
      }
      Periodic(ToNat(b), -1, w);
    } else if ToNat(b) >= p {
      Divide(ToNat(b), p, 1, ToNat(b) - p);
    }
  }

  // ----- sums, differences and products -----

  lemma Sum(m: int, n: int, w: nat)
    ensures Plus(FromInt(m, w), FromInt(n, w)) == FromInt(m + n, w)
    ensures Minus(FromInt(m, w), FromInt(n, w)) == FromInt(m - n, w)
  {
    var x, y := FromInt(m, w), FromInt(n, w);
    WrapAdd(ToNat(x), n, w);
    WrapAdd(n, m, w);
    WrapSub(ToNat(x), n, w);
    WrapAdd(-n, m, w);
  }

  lemma {:induction false} TimesIs(x: nat, y: nat)
    ensures Times(x, y) == x * y
  {
    if x > 0 {
      TimesIs(x - 1, y);
      assert x * y == (x - 1) * y + y;
    }
  }

  lemma ProductIs(m: int, n: int, w: nat)
    ensures Product(FromInt(m, w), FromInt(n, w)) == FromInt(m * n, w)
  {
    hide *;
    var x, y := FromInt(m, w), FromInt(n, w);
    var p, a, b := Pow2(w), ToNat(x), ToNat(y);
    Residue(m, w);
    Residue(n, w);
    TimesIs(a, b);
    ProductForm(x, y);
    var k := Reduce(m, n, p, a, b);
    Periodic(a * b, k, w);
  }

  lemma ProductForm(x: Bits, y: Bits)
    requires |x| == |y|
    ensures Product(x, y) == FromInt(Times(ToNat(x), ToNat(y)), |x|)
  {
  }

  lemma Reduce(m: int, n: int, p: int, a: int, b: int) returns (k: int)
    requires p > 0 && a == m % p && b == n % p
    ensures m * n == a * b + p * k
  {
    var i, j := m / p, n / p;
    Expand(p, i, a, j, b);
    k := i * (p * j) + i * b + a * j;
  }

  lemma Expand(p: int, j: int, a: int, k: int, b: int)
    ensures (p * j + a) * (p * k + b) == a * b + p * (j * (p * k) + j * b + a * k)
  {
    assert (p * j + a) * (p * k + b) == (p * j) * (p * k + b) + a * (p * k + b);
    assert (p * j) * (p * k + b) == p * (j * (p * k + b));
    assert j * (p * k + b) == j * (p * k) + j * b;
    assert a * (p * k + b) == a * (p * k) + a * b;
    assert a * (p * k) == p * (a * k);
    assert p * (j * (p * k) + j * b + a * k) == p * (j * (p * k) + j * b) + p * (a * k);
  }

  // ----- quotients and remainders -----

  lemma {:induction false} OverIs(x: nat, y: nat)
    requires y > 0
    ensures Over(x, y) == x / y
  {
    if x < y {
      Divide(x, y, 0, x);
    } else {
      OverIs(x - y, y);
      var q, r := (x - y) / y, (x - y) % y;
      assert x - y == y * q + r;
      assert y * (q + 1) == y * q + y;
      Divide(x, y, q + 1, r);
    }
  }

  function Abs(x: int): nat { if x >= 0 then x else -x }

  /** Division that rounds toward zero: the quotient and remainder make up the
      dividend, and the remainder is small and has its sign. */
  ghost predicate Truncated(x: int, y: int, q: int, r: int) {
    x == q * y + r && Abs(r) < Abs(y) && (r > 0 ==> x > 0) && (r < 0 ==> x < 0)
  }

  lemma TruncatedIs(x: int, y: int)
    requires y != 0
    ensures Truncated(x, y, TruncOver(x, y), TruncRem(x, y))
  {
    var ax, ay := Abs(x), Abs(y);
    OverIs(ax, ay);
    TimesIs(Over(ax, ay), ay);
    var q, r := ax / ay, ax % ay;
    assert ax == ay * q + r;
    Signs(q, ay);
  }

  lemma Signs(q: int, y: int)
    ensures (-q) * y == -(q * y) == q * (-y) && (-q) * (-y) == q * y == y * q
  {
  }

  /** There is only one such pair. */
  lemma TruncatedOnce(x: int, y: int, q: int, r: int, q': int, r': int)
    requires y != 0 && Truncated(x, y, q, r) && Truncated(x, y, q', r')
    ensures q == q' && r == r'
  {
    assert (q - q') * y == r' - r;
    Product0(q - q', y);
  }

  lemma Product0(a: int, y: int)
    requires y != 0
    ensures a != 0 ==> Abs(a * y) >= Abs(y)
    ensures a * y == 0 ==> a == 0
  {
    if a > 0 {
      Grows(Abs(y), a, 1);
    } else if a < 0 {
      Grows(Abs(y), -1, a);
    }
    Signs(a, y);
  }

  // ----- shifts -----

  lemma {:induction false} Pow2Sum(v: nat, w: nat)
    ensures Pow2(v + w) == Pow2(v) * Pow2(w)
    decreases v
  {
    if v > 0 {
      Pow2Sum(v - 1, w);
    }
  }

  lemma AllSame(m: int, w: nat)
    requires m == 0 || m == -1
    ensures FromInt(m, w) == Repeat(m == -1, w)
    decreases w
  {
    if w > 0 {
      AllSame(m / 2, w - 1);
    }
  }

  lemma ShiftLeftIs(m: int, w: nat, s: nat)
    ensures ShiftLeft(FromInt(m, w), s) == FromInt(m * Pow2(s), w)
  {
    hide *;
    var n := m * Pow2(s);
    ShiftForms(FromInt(m, w), s, false);
    if s >= w {
      Pow2Sum(w, s - w);
      Regroup(m, Pow2(w), Pow2(s - w));
      Periodic(0, m * Pow2(s - w), w);
      AllSame(0, w);
    } else {
      Split(n, s, w - s);
      Regroup(m, Pow2(s), 1);
      Divide(n, Pow2(s), m, 0);
      Periodic(0, m, s);
      AllSame(0, s);
      Prefix(m, w - s, w);
    }
  }

  lemma Regroup(m: int, p: int, d: int)
    ensures m * (p * d) == 0 + p * (m * d) && m * p == 0 + p * m
  {
  }

  lemma ShiftForms(x: Bits, s: nat, fill: bool)
    ensures ShiftLeft(x, s) == if s >= |x| then Repeat(false, |x|) else Repeat(false, s) + x[..|x| - s]
    ensures ShiftRight(x, s, fill) == if s >= |x| then Repeat(fill, |x|) else x[s..] + Repeat(fill, s)
  {
  }

  /** Shifting right divides and rounds down, if the bits shifted in are the sign. */
  lemma ShiftRightIs(m: int, w: nat, s: nat, fill: bool)
    requires if fill then 0 - Pow2(w) <= m < 0 else 0 <= m < Pow2(w)
    ensures ShiftRight(FromInt(m, w), s, fill) == FromInt(m / Pow2(s), w)
  {
    hide *;
    var all := if fill then -1 else 0;
    ShiftForms(FromInt(m, w), s, fill);
    if s >= w {
      Pow2Sum(w, s - w);
      Grows(Pow2(w), Pow2(s - w), 1);
      Divide(m, Pow2(s), all, m - Pow2(s) * all);
      AllSame(all, w);
    } else {
      var n := m / Pow2(s);
      Prefix(m, s, w);
      Split(n, w - s, s);
      Pow2Sum(s, w - s);
      Between(m, Pow2(s), n, Pow2(w - s), all);
      Divide(n, Pow2(w - s), all, n - Pow2(w - s) * all);
      AllSame(all, s);
    }
  }

  /** A quotient of a number in range is in range. */
  lemma Between(m: int, p: int, n: int, d: int, all: int)
    requires p > 0 && d > 0 && n == m / p && (p * d) * all <= m < (p * d) * (all + 1)
    ensures d * all <= n < d * (all + 1)
  {
    assert m == p * n + m % p;
    Associate(p, d, all);
    Associate(p, d, all + 1);
    if n < d * all {
      Grows(p, d * all - 1, n);
    }
    if n >= d * (all + 1) {
      Grows(p, n, d * (all + 1));
    }
  }

  lemma Associate(p: int, d: int, k: int)
    ensures p * (d * k) == (p * d) * k && p * (d * k - 1) == (p * d) * k - p
  {
  }

  // ----- what expressions evaluate to -----

  function Node(op: BinOp, l: Term, r: Term): (e: Term)
    requires Width(l) == Width(r)
  {
    Binary(op, l, r)
  }

  function Number(e: Term, a: Assignment): int { ToNat(Eval(e, a)) }

  lemma Applied(op: BinOp, l: Term, r: Term, a: Assignment)
    requires Width(l) == Width(r)
    ensures |Eval(l, a)| == |Eval(r, a)| == Width(l) >= 1
    ensures Eval(Node(op, l, r), a) == Apply(op, Eval(l, a), Eval(r, a))
    ensures Number(l, a) == ToNat(Eval(l, a)) && Number(r, a) == ToNat(Eval(r, a))
    ensures Number(Node(op, l, r), a) == ToNat(Eval(Node(op, l, r), a))
  {
  }

  lemma Applies(x: Bits, y: Bits)
    requires |x| == |y| >= 1
    ensures Apply(Add, x, y) == Plus(x, y) && Apply(Sub, x, y) == Minus(x, y) && Apply(Mul, x, y) == Product(x, y)
    ensures ToNat(y) != 0 ==> Apply(UDiv, x, y) == FromInt(Over(ToNat(x), ToNat(y)), |x|)
    ensures ToNat(y) != 0 ==> Apply(URem, x, y) == FromInt(TruncRem(ToNat(x), ToNat(y)), |x|)
    ensures Signed(y) != 0 ==> Apply(SDiv, x, y) == FromInt(TruncOver(Signed(x), Signed(y)), |x|)
    ensures Signed(y) != 0 ==> Apply(SRem, x, y) == FromInt(TruncRem(Signed(x), Signed(y)), |x|)
    ensures Apply(Shl, x, y) == ShiftLeft(x, ToNat(y)) && Apply(LShr, x, y) == ShiftRight(x, ToNat(y), false)
    ensures Apply(AShr, x, y) == ShiftRight(x, ToNat(y), x[|x| - 1])
  {
    hide Plus, Minus, Product, FromInt, Over, TruncRem, TruncOver, ToNat, Signed, ShiftLeft, ShiftRight;
    SignedZero(y);
  }

  /** Sums, differences and products are those of the integers modulo `2^w`. */
  lemma EvalSums(l: Term, r: Term, a: Assignment)
    requires Width(l) == Width(r)
    ensures var (m, n, p) := (Number(l, a), Number(r, a), Pow2(Width(l)));
            && Number(Node(Add, l, r), a) == (m + n) % p
            && Number(Node(Sub, l, r), a) == (m - n) % p
            && Number(Node(Mul, l, r), a) == (m * n) % p
  {
    hide *;
    var x, y, w := Eval(l, a), Eval(r, a), Width(l);
    Applied(Add, l, r, a);
    Applied(Sub, l, r, a);
    Applied(Mul, l, r, a);
    Applies(x, y);
    FromToNat(x);
    FromToNat(y);
    Sum(ToNat(x), ToNat(y), w);
    ProductIs(ToNat(x), ToNat(y), w);
    Residue(ToNat(x) + ToNat(y), w);
    Residue(ToNat(x) - ToNat(y), w);
    Residue(ToNat(x) * ToNat(y), w);
  }

  /** Quotients and remainders: unsigned ones are those of the integers, signed ones
      round toward zero. */
  lemma EvalQuotients(l: Term, r: Term, a: Assignment)
    requires Width(l) == Width(r)
    ensures var (m, n) := (Number(l, a), Number(r, a));
            n > 0 ==> && Number(Node(UDiv, l, r), a) == m / n
                      && Number(Node(URem, l, r), a) == m % n
    ensures var (m, n) := (Signed(Eval(l, a)), Signed(Eval(r, a)));
            n != 0 ==> forall q, d :: Truncated(m, n, q, d) ==>
              && Eval(Node(SDiv, l, r), a) == FromInt(q, Width(l))
              && Eval(Node(SRem, l, r), a) == FromInt(d, Width(l))
  {
    hide *;
    var x, y, w := Eval(l, a), Eval(r, a), Width(l);
    Applied(UDiv, l, r, a);
    Applied(URem, l, r, a);
    Applied(SDiv, l, r, a);
    Applied(SRem, l, r, a);
    Applies(x, y);
    if ToNat(y) > 0 {
      UnsignedQuotient(ToNat(x), ToNat(y));
      ToNatBound(x);
      ToFromInt(ToNat(x) / ToNat(y), w);
      ToFromInt(ToNat(x) % ToNat(y), w);
    }
    var m, n := Signed(x), Signed(y);
    if n != 0 {
      TruncatedIs(m, n);
      forall q, d | Truncated(m, n, q, d) ensures q == TruncOver(m, n) && d == TruncRem(m, n) {
        TruncatedOnce(m, n, q, d, TruncOver(m, n), TruncRem(m, n));
      }
    }
  }

  lemma UnsignedQuotient(m: nat, n: nat)
    requires n > 0
    ensures Over(m, n) == m / n <= m && TruncRem(m, n) == m % n <= m
  {
    hide *;
    OverIs(m, n);
    TruncatedIs(m, n);
    var q, d := m / n, m % n;
    assert m == n * q + d;
    Small(n, q);
    MakeTruncated(m, n, q, d);
    TruncatedOnce(m, n, q, d, TruncOver(m, n), TruncRem(m, n));
  }

  lemma Small(n: int, q: int)
    requires n > 0 && q >= 0
    ensures q <= n * q == q * n
  {
    Grows(q + 1, n, 1);
  }

  lemma MakeTruncated(m: nat, n: nat, q: int, d: int)
    requires m == q * n + d && 0 <= d < n && d <= m
    ensures Truncated(m, n, q, d)
  {
  }

  /** Shifts multiply or divide by powers of two; the arithmetic one keeps the sign. */
  lemma EvalShifts(l: Term, r: Term, a: Assignment)
    requires Width(l) == Width(r)
    ensures var (x, s) := (Eval(l, a), ToNat(Eval(r, a)));
            && Number(Node(Shl, l, r), a) == (ToNat(x) * Pow2(s)) % Pow2(Width(l))
            && Number(Node(LShr, l, r), a) == ToNat(x) / Pow2(s)
            && Signed(Eval(Node(AShr, l, r), a)) == Signed(x) / Pow2(s)
  {
    hide *;
    var x, y, w := Eval(l, a), Eval(r, a), Width(l);
    var s := ToNat(y);
    Applied(Shl, l, r, a);
    Applied(LShr, l, r, a);
    Applied(AShr, l, r, a);
    Applies(x, y);
    FromToNat(x);
    ToNatBound(x);
    ShiftLeftIs(ToNat(x), w, s);
    Residue(ToNat(x) * Pow2(s), w);
    ShiftRightIs(ToNat(x), w, s, false);
    Shrinks(ToNat(x), Pow2(s));
    ToFromInt(ToNat(x) / Pow2(s), w);
    ArithmeticShift(x, s);
  }

  lemma Shrinks(m: int, d: int)
    requires d > 0
    ensures m >= 0 ==> 0 <= m / d <= m
    ensures m < 0 ==> m <= m / d < 0
  {
    var q, r := m / d, m % d;
    Recombined(m, d, q, r);
    Scaled(d, q);
  }

  lemma Recombined(m: int, d: int, q: int, r: int)
    requires d > 0 && q == m / d && r == m % d
    ensures m == d * q + r
  {
  }

  lemma Scaled(d: int, q: int)
    requires d > 0
    ensures q >= 0 ==> d * q >= q
    ensures q < 0 ==> d * q + d <= q + 1
  {
    var k := d - 1;
    assert d * q == k * q + q;
    if q >= 0 {
      Positive(k, q);
    } else {
      Positive(k, -1 - q);
      assert k * (-1 - q) == -k - k * q;
    }
  }

  lemma Positive(k: int, q: int)
    requires k >= 0 && q >= 0
    ensures k * q >= 0
  {
  }

  lemma ArithmeticShift(x: Bits, s: nat)
    requires |x| >= 1
    ensures Signed(ShiftRight(x, s, x[|x| - 1])) == Signed(x) / Pow2(s)
  {
    hide Signed, FromInt, ToNat, Pow2, ShiftRight;
    var w, m := |x|, Signed(x);
    SignedRange(x);
    SignedIs(m, w);
    Pow2Sum(1, w - 1);
    PowerOne();
    ShiftRightIs(m, w, s, x[w - 1]);
    Shrinks(m, Pow2(s));
    SignedIs(m / Pow2(s), w);
  }

  lemma PowerOne()
    ensures Pow2(1) == 2
  {
    assert Pow2(1) == 2 * Pow2(0);
  }

  /** Comparisons compare the numbers. */
  lemma EvalOrders(l: Term, r: Term, a: Assignment)
    requires Width(l) == Width(r)
    ensures var (m, n) := (Number(l, a), Number(r, a));
            && Eval(Node(Eq, l, r), a) == [m == n] && Eval(Node(Ne, l, r), a) == [m != n]
            && Eval(Node(Ult, l, r), a) == [m < n] && Eval(Node(Ule, l, r), a) == [m <= n]
            && Eval(Node(Ugt, l, r), a) == [m > n] && Eval(Node(Uge, l, r), a) == [m >= n]
  {
    hide FromInt, ToNat, Pow2, Signed, WF;
    ToNatInjective(Eval(l, a), Eval(r, a));
  }

  /** The signed ones compare the numbers in two's complement. */
  lemma EvalSignedOrders(l: Term, r: Term, a: Assignment, m: int, n: int)
    requires Width(l) == Width(r) && InRange(m, Width(l)) && InRange(n, Width(l))
    requires Eval(l, a) == FromInt(m, Width(l)) && Eval(r, a) == FromInt(n, Width(l))
    ensures Eval(Node(Slt, l, r), a) == [m < n] && Eval(Node(Sle, l, r), a) == [m <= n]
    ensures Eval(Node(Sgt, l, r), a) == [m > n] && Eval(Node(Sge, l, r), a) == [m >= n]
  {
    hide *;
    SignedIs(m, Width(l));
    SignedIs(n, Width(l));
    Applied(Slt, l, r, a);
    Applied(Sle, l, r, a);
    Applied(Sgt, l, r, a);
    Applied(Sge, l, r, a);
    SignedCompare(Eval(l, a), Eval(r, a));
  }

  lemma SignedCompare(x: Bits, y: Bits)
    requires |x| == |y| >= 1
    ensures Apply(Slt, x, y) == [Signed(x) < Signed(y)] && Apply(Sle, x, y) == [Signed(x) <= Signed(y)]
    ensures Apply(Sgt, x, y) == [Signed(x) > Signed(y)] && Apply(Sge, x, y) == [Signed(x) >= Signed(y)]
  {
  }

  /** Concatenation puts the left operand above the right one, extraction takes the
      bits from an offset on, zero extension keeps the number, sign extension the
      signed number, and complement counts from the other end. */
  lemma EvalSlices(e: Term, a: Assignment)
    ensures e.Concat? ==> ToNat(Eval(e, a)) == ToNat(Eval(e.left, a)) * Pow2(Width(e.right)) + ToNat(Eval(e.right, a))
    ensures e.Extract? ==> ToNat(Eval(e, a)) == ToNat(Eval(e.expr, a)) / Pow2(e.offset) % Pow2(e.width)
    ensures e.ZExt? ==> ToNat(Eval(e, a)) == ToNat(Eval(e.src, a))
    ensures e.SExt? ==> Signed(Eval(e, a)) == Signed(Eval(e.src, a))
    ensures e.Not? ==> ToNat(Eval(e, a)) == Pow2(Width(e)) - 1 - ToNat(Eval(e.expr, a))
  {
    hide ToNat, Pow2, Signed, FromInt;
    if e.Concat? {
      Joined(Eval(e.right, a), Eval(e.left, a));
    } else if e.Extract? {
      Slice(Eval(e.expr, a), e.offset, e.width);
    } else if e.ZExt? {
      var x := Eval(e.src, a);
      Joined(x, Zeros(e.width - |x|));
      ToNatZeros(e.width - |x|);
    } else if e.SExt? {
      Extended(Eval(e.src, a), e.width);
    } else if e.Not? {
      Complement(Eval(e.expr, a));
    }
  }

  lemma {:induction false} Joined(x: Bits, y: Bits)
    ensures ToNat(x + y) == ToNat(x) + ToNat(y) * Pow2(|x|)
  {
    if x == [] {
      assert x + y == y;
    } else {
      Joined(x[1..], y);
      assert (x + y)[1..] == x[1..] + y;
      Doubled(ToNat(y), Pow2(|x| - 1));
    }
  }

  lemma Doubled(m: int, p: int)
    ensures m * (2 * p) == 2 * (m * p)
  {
  }

  lemma Slice(x: Bits, off: nat, w: nat)
    requires off + w <= |x|
    ensures ToNat(x[off..off + w]) == ToNat(x) / Pow2(off) % Pow2(w)
  {
    hide ToNat, Pow2, FromInt;
    var m := ToNat(x);
    FromToNat(x);
    Prefix(m, off, |x|);
    Prefix(m / Pow2(off), w, |x| - off);
    assert x[off..][..w] == x[off..off + w];
    Residue(m / Pow2(off), w);
  }

  lemma Extended(x: Bits, w: nat)
    requires 1 <= |x| <= w
    ensures Signed(SignExtend(x, w)) == Signed(x)
  {
    hide Signed, FromInt, ToNat, Pow2, SignExtend, Repeat;
    var m, v := Signed(x), |x|;
    SignedRange(x);
    SignedIs(m, v);
    Pow2Sum(v - 1, w - v);
    Grows(Pow2(v - 1), Pow2(w - v), 1);
    var all := if m < 0 then -1 else 0;
    Pow2Sum(1, v - 1);
    PowerOne();
    Divide(m, Pow2(v), all, m - Pow2(v) * all);
    Split(m, v, w - v);
    AllSame(all, w - v);
    SignForm(x, w);
    SignedIs(m, w);
  }

  lemma SignForm(x: Bits, w: nat)
    requires 1 <= |x| <= w
    ensures SignExtend(x, w) == x + Repeat(x[|x| - 1], w - |x|)
  {
  }

  lemma {:induction false} Complement(x: Bits)
    ensures ToNat(NotBits(x)) == Pow2(|x|) - 1 - ToNat(x)
  {
    if x != [] {
      Complement(x[1..]);
      assert NotBits(x)[1..] == NotBits(x[1..]);
    }
  }
}
