/** `ConcatExpr::create`, `ExtractExpr::create`, `ZExtExpr::create` and
    `SExtExpr::create` of lib/Expr/Expr.cpp. Extracting from a concatenation
    concatenates two extracts, and concatenating two adjacent extracts of one
    expression extracts from it again; the two functions call each other. */
module SliceConstructors {
  import opened Bits
  import opened Exprs
  import opened SmartConstructors

  /** How many ends of `[off, off + w)` fall short of a `kw`-bit operand. */
  function Loose(off: nat, w: nat, kw: nat): nat {
    (if off > 0 then 1 else 0) + (if off + w < kw then 1 else 0)
  }

  function ConcatCreate(l: Term, r: Term): (e: Term)
    ensures Width(e) == Width(l) + Width(r)
    ensures Size(e) <= Size(l) + Size(r) + 1
    decreases Size(l), 0
  {
    var w := Width(l) + Width(r);
    if l.Constant? && r.Constant? then Constant(r.value + l.value)
    else if IsZeroConst(l) then ZExt(r, w)
    else if l.Extract? && r.Extract? && l.expr == r.expr && r.offset + r.width == l.offset then
      ExtractCreate(l.expr, r.offset, w)
    else Concat(l, r)
  }

  function ExtractCreate(e: Term, off: nat, w: nat): (r: Term)
    requires w >= 1 && off + w <= Width(e)
    ensures Width(r) == w
    ensures Size(r) <= Size(e) + Loose(off, w, Width(e))
    decreases Size(e), 1
  {
    if w == Width(e) then e
    else if e.Constant? then Constant(ConstantExtract(e.value, off, w))
    else if e.Concat? then
      var rw := Width(e.right);
      if off >= rw then ExtractCreate(e.left, off - rw, w)
      else if off + w <= rw then ExtractCreate(e.right, off, w)
      else ConcatCreate(ExtractCreate(e.left, 0, w - rw + off), ExtractCreate(e.right, off, rw - off))
    else if e.ZExt? || e.SExt? then
      if off + w <= Width(e.src) then
        if off == 0 && w == Width(e.src) then e.src else ExtractCreate(e.src, off, w)
      else Extract(e, off, w)
    else Extract(e, off, w)
  }

  /** `ConstantExpr::Extract` shifts right arithmetically and then truncates. */
  function ConstantExtract(v: Bits, off: nat, w: nat): (r: Bits)
    requires w >= 1 && off + w <= |v|
    ensures |r| == w
  {
    ShiftRight(v, off, v[|v| - 1])[..w]
  }

  function ZExtCreate(e: Term, w: nat): (r: Term)
    requires w >= 1
    ensures Width(r) == w
  {
    if w == Width(e) then e
    else if w < Width(e) then ExtractCreate(e, 0, w)
    else if e.Constant? then Constant(ZeroExtend(e.value, w))
    else ZExt(e, w)
  }

  function SExtCreate(e: Term, w: nat): (r: Term)
    requires w >= 1
    ensures Width(r) == w
  {
    if w == Width(e) then e
    else if w < Width(e) then ExtractCreate(e, 0, w)
    else if e.Constant? then Constant(SignExtend(e.value, w))
    else SExt(e, w)
  }

  // ----- slices of bit sequences -----

  lemma SliceHigh(x: Bits, y: Bits, off: nat, w: nat)
    requires |x| <= off && off + w <= |x| + |y|
    ensures (x + y)[off..off + w] == y[off - |x|..off - |x| + w]
  {
  }

  lemma SliceLow(x: Bits, y: Bits, off: nat, w: nat)
    requires off + w <= |x|
    ensures (x + y)[off..off + w] == x[off..off + w]
  {
  }

  lemma SliceAcross(x: Bits, y: Bits, off: nat, w: nat)
    requires off < |x| < off + w <= |x| + |y|
    ensures (x + y)[off..off + w] == x[off..off + (|x| - off)] + y[0..w - |x| + off]
  {
  }

  lemma SliceJoin(x: Bits, off: nat, m: nat, n: nat)
    requires off + m + n <= |x|
    ensures x[off..off + m] + x[off + m..off + m + n] == x[off..off + m + n]
  {
  }

  lemma ConstantExtractSlice(v: Bits, off: nat, w: nat)
    requires w >= 1 && off + w <= |v|
    ensures ConstantExtract(v, off, w) == v[off..off + w]
  {
  }

  // ----- soundness -----

  // The value of one node, so that the proofs below need not unfold `Eval`.

  lemma ConcatNode(e: Term, a: Assignment)
    requires e.Concat?
    ensures Eval(e, a) == Eval(e.right, a) + Eval(e.left, a)
  {
  }

  lemma ExtractNode(e: Term, a: Assignment)
    requires e.Extract?
    ensures Eval(e, a) == Eval(e.expr, a)[e.offset..e.offset + e.width]
  {
  }

  lemma ConstantWidth(e: Term)
    requires e.Constant?
    ensures |e.value| == Width(e)
  {
  }

  lemma ConstantNode(e: Term, a: Assignment)
    requires e.Constant?
    ensures Eval(e, a) == e.value
  {
  }

  lemma CastNode(e: Term, a: Assignment)
    requires e.ZExt? || e.SExt?
    ensures Eval(e, a) == if e.ZExt? then ZeroExtend(Eval(e.src, a), e.width) else SignExtend(Eval(e.src, a), e.width)
    ensures Eval(e, a) == Eval(e.src, a) + Eval(e, a)[Width(e.src)..]
  {
    var v := Eval(e, a);
    assert v == v[..Width(e.src)] + v[Width(e.src)..];
  }

  /** `ConcatExpr::create(l, r)` puts `l` above `r`. */
  lemma {:induction false} ConcatSound(l: Term, r: Term, a: Assignment)
    ensures Eval(ConcatCreate(l, r), a) == Eval(r, a) + Eval(l, a)
    decreases Size(l), 0
  {
    hide Eval, ExtractCreate;
    var w := Width(l) + Width(r);
    if l.Constant? && r.Constant? {
      ConstantNode(l, a);
      ConstantNode(r, a);
      ConstantNode(Constant(r.value + l.value), a);
    } else if IsZeroConst(l) {
      ConstantNode(l, a);
      CastNode(ZExt(r, w), a);
    } else if l.Extract? && r.Extract? && l.expr == r.expr && r.offset + r.width == l.offset {
      ExtractSound(l.expr, r.offset, w, a);
      ExtractNode(l, a);
      ExtractNode(r, a);
      SliceJoin(Eval(l.expr, a), r.offset, r.width, l.width);
    } else {
      ConcatNode(Concat(l, r), a);
    }
  }

  /** Extracting from a concatenation, so that the proofs need not unfold the two
      functions. */
  lemma ExtractConcatIs(e: Term, off: nat, w: nat)
    requires e.Concat? && w >= 1 && off + w <= Width(e) && w != Width(e)
    ensures WF(e.left) && WF(e.right) && Width(e) == Width(e.left) + Width(e.right)
    ensures Size(e.left) < Size(e) && Size(e.right) < Size(e)
    ensures var rw := Width(e.right);
            if off >= rw then ExtractCreate(e, off, w) == ExtractCreate(e.left, off - rw, w)
            else if off + w <= rw then ExtractCreate(e, off, w) == ExtractCreate(e.right, off, w)
            else
              var high, low := ExtractCreate(e.left, 0, w - rw + off), ExtractCreate(e.right, off, rw - off);
              ExtractCreate(e, off, w) == ConcatCreate(high, low) && Size(high) < Size(e)
  {
    hide ConcatCreate, ConstantExtract;
  }

  lemma {:induction false} ExtractConcatSound(e: Term, off: nat, w: nat, a: Assignment)
    requires e.Concat? && w >= 1 && off + w <= Width(e) && w != Width(e)
    ensures Eval(ExtractCreate(e, off, w), a) == Eval(e, a)[off..off + w]
    decreases Size(e), 1, 0
  {
    hide Eval, ConcatCreate, ExtractCreate, Size;
    ExtractConcatIs(e, off, w);
    var rw, x, y := Width(e.right), Eval(e.right, a), Eval(e.left, a);
    ConcatNode(e, a);
    if off >= rw {
      ExtractSound(e.left, off - rw, w, a);
      SliceHigh(x, y, off, w);
    } else if off + w <= rw {
      ExtractSound(e.right, off, w, a);
      SliceLow(x, y, off, w);
    } else {
      var high := ExtractCreate(e.left, 0, w - rw + off);
      var low := ExtractCreate(e.right, off, rw - off);
      assert Eval(high, a) == y[0..w - rw + off] by { ExtractSound(e.left, 0, w - rw + off, a); }
      assert Eval(low, a) == x[off..off + (rw - off)] by { ExtractSound(e.right, off, rw - off, a); }
      ConcatSound(high, low, a);
      SliceAcross(x, y, off, w);
    }
  }

  /** `ExtractExpr::create(e, off, w)` is bits `off` to `off + w` of `e`. */
  lemma {:induction false} ExtractSound(e: Term, off: nat, w: nat, a: Assignment)
    requires w >= 1 && off + w <= Width(e)
    ensures Eval(ExtractCreate(e, off, w), a) == Eval(e, a)[off..off + w]
    decreases Size(e), 1, 1
  {
    hide Eval, ConcatCreate, ConstantExtract;
    if w == Width(e) {
      assert Eval(e, a)[0..w] == Eval(e, a);
    } else if e.Constant? {
      ConstantNode(e, a);
      ConstantNode(Constant(ConstantExtract(e.value, off, w)), a);
      ConstantExtractSlice(e.value, off, w);
    } else if e.Concat? {
      ExtractConcatSound(e, off, w, a);
    } else if (e.ZExt? || e.SExt?) && off + w <= Width(e.src) {
      ExtractSound(e.src, off, w, a);
      CastNode(e, a);
      SliceLow(Eval(e.src, a), Eval(e, a)[Width(e.src)..], off, w);
    } else {
      ExtractNode(Extract(e, off, w), a);
    }
  }

  lemma ZExtSound(e: Term, w: nat, a: Assignment)
    requires w >= 1
    ensures Eval(ZExtCreate(e, w), a) ==
            if w <= Width(e) then Eval(e, a)[..w] else ZeroExtend(Eval(e, a), w)
  {
    hide Eval, ExtractCreate;
    if w == Width(e) {
      assert Eval(e, a)[..w] == Eval(e, a);
    } else if w < Width(e) {
      ExtractSound(e, 0, w, a);
    } else if e.Constant? {
      ConstantNode(e, a);
      ConstantNode(Constant(ZeroExtend(e.value, w)), a);
    } else {
      CastNode(ZExt(e, w), a);
    }
  }

  lemma SExtSound(e: Term, w: nat, a: Assignment)
    requires w >= 1
    ensures Eval(SExtCreate(e, w), a) ==
            if w <= Width(e) then Eval(e, a)[..w] else SignExtend(Eval(e, a), w)
  {
    hide Eval, ExtractCreate;
    if w == Width(e) {
      assert Eval(e, a)[..w] == Eval(e, a);
    } else if w < Width(e) {
      ExtractSound(e, 0, w, a);
    } else if e.Constant? {
      ConstantNode(e, a);
      ConstantNode(Constant(SignExtend(e.value, w)), a);
    } else {
      CastNode(SExt(e, w), a);
    }
  }
}
