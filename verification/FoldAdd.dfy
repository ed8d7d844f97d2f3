/**
 * Folding of additions and subtractions at one width: constants are combined, and a constant added
 * to a sum that ends in a constant is merged into it.
 */
module FoldAdd {
  import opened Prelude
  import opened Verinum
  import opened VerinumArith

  datatype Expr =
    | Signal(id: nat)
    | Const(value: Verinum)
    | AddSub(minus: bool, left: Expr, right: Expr)

  // ----- what an expression stands for -----

  function Apply(minus: bool, a: int, b: int): int {
    if minus then a - b else a + b
  }

  /** The value of an expression of width w: everything is carried out modulo 2^w. */
  function Meaning(e: Expr, env: nat -> int, w: nat): nat
    requires Wellformed(e)
  {
    match e
    case Signal(id) => Wrap(env(id), Pow2(w))
    case Const(v) => Residue(v, w)
    case AddSub(minus, l, r) => Wrap(Apply(minus, Meaning(l, env, w), Meaning(r, env, w)), Pow2(w))
  }

  predicate IsNumber(v: Verinum) {
    Operand(v.bits) && !v.isString
  }

  /** Constants are defined numbers, not strings. */
  predicate Wellformed(e: Expr) {
    match e
    case Signal(_) => true
    case Const(v) => IsNumber(v)
    case AddSub(_, l, r) => Wellformed(l) && Wellformed(r)
  }

  // ----- folding -----

  function Combine(minus: bool, l: Verinum, r: Verinum): Verinum
    requires l.bits != [] && r.bits != []
  {
    if minus then Difference(l, r) else Sum(l, r)
  }

  /** Both operands are constants. A negative width to prune to asks for one bit more than they have. */
  function FoldConstants(minus: bool, l: Verinum, r: Verinum, prune: int): (v: Verinum)
    requires Operand(l.bits) && Operand(r.bits)
    ensures Operand(v.bits) && !v.isString
    ensures v.hasLen == (l.hasLen && r.hasLen)
  {
    var val := Combine(minus, l, r);
    CombinedIsOperand(minus, l, r);
    if l.hasLen && r.hasLen then
      var n := Longest(l.bits, r.bits) + if prune < 0 then 1 else 0;
      ResizeKeepsResidue(val, n, 0);
      Resize(val, n)
    else
      TrimKeepsValue(val);
      Trim(val)
  }

  /** The constant that replaces two: a op' l op r becomes a op (r + l) or a op (r - l). */
  function Merge(same: bool, l: Verinum, r: Verinum, w: nat): (v: Verinum)
    requires Operand(l.bits) && Operand(r.bits) && !l.isString && !r.isString && w > 0
    ensures Operand(v.bits) && !v.isString && |v.bits| == w && v.signed == (l.signed && r.signed)
  {
    PadKeepsValue(l, w);
    PadKeepsValue(r, w);
    var lval, rval := PadToWidth(l, w), PadToWidth(r, w);
    var val := Combine(!same, rval, lval);
    CombinedIsOperand(!same, rval, lval);
    ResizeKeepsResidue(val, w, 0);
    if |val.bits| > w then Resize(val, w) else val
  }

  /** One node whose operands are folded. */
  function Rewrite(minus: bool, l: Expr, r: Expr, w: nat, prune: int): (f: Expr)
    requires Wellformed(l) && Wellformed(r) && w > 0
    ensures Wellformed(f)
  {
    if l.Const? && r.Const? then Const(FoldConstants(minus, l.value, r.value, prune))
    else if r.Const? && l.AddSub? && l.right.Const? then
      assert Wellformed(l.right);
      AddSub(minus, l.left, Const(Merge(minus == l.minus, l.right.value, r.value, w)))
    else AddSub(minus, l, r)
  }

  /** A constant of indefinite length is first widened to the width to prune to. */
  function Widened(v: Verinum, prune: int): (r: Verinum)
    requires Operand(v.bits) && !v.isString
    ensures Operand(r.bits) && !r.isString
    ensures r.signed == v.signed && r.hasLen == v.hasLen
    ensures |r.bits| == if !v.hasLen && prune > |v.bits| then prune else |v.bits|
    ensures IntValue(r) == IntValue(v)
  {
    if prune <= 0 || v.hasLen || prune <= |v.bits| then v
    else
      PadKeepsValue(v, prune);
      PadToWidth(v, prune)
  }

  function Fold(e: Expr, w: nat, prune: int): (f: Expr)
    requires Wellformed(e) && w > 0
    ensures Wellformed(f)
  {
    match e
    case Const(v) => Const(Widened(v, prune))
    case AddSub(minus, l, r) => Rewrite(minus, Fold(l, w, prune), Fold(r, w, prune), w, prune)
    case _ => e
  }

  /**
   * Two sized constants fold at the wider width, with one bit more if the caller asks for it; others to
   * no more bits than the result needs. The result is signed if both are.
   */
  lemma FoldedShape(minus: bool, l: Verinum, r: Verinum, prune: int)
    requires Operand(l.bits) && Operand(r.bits)
    ensures var v := FoldConstants(minus, l, r, prune);
            && v.signed == (l.signed && r.signed)
            && (v.hasLen ==> |v.bits| == Longest(l.bits, r.bits) + if prune < 0 then 1 else 0)
            && (!v.hasLen ==> NoneSpare(v))
  {
    var val := Combine(minus, l, r);
    CombinedIsOperand(minus, l, r);
    TrimKeepsValue(val);
    TrimSparesNone(val);
  }

  /** Only constants at the leaves. */
  predicate AllConstants(e: Expr) {
    match e
    case Signal(_) => false
    case Const(_) => true
    case AddSub(_, l, r) => AllConstants(l) && AllConstants(r)
  }

  /** A tree of constants, and nothing but that, folds to one. */
  lemma {:induction false} ConstantsFold(e: Expr, w: nat, prune: int)
    requires Wellformed(e) && w > 0
    ensures Fold(e, w, prune).Const? <==> AllConstants(e)
  {
    match e
    case AddSub(_, l, r) =>
      ConstantsFold(l, w, prune);
      ConstantsFold(r, w, prune);
    case _ =>
  }

  lemma CombinedIsOperand(minus: bool, l: Verinum, r: Verinum)
    requires Operand(l.bits) && Operand(r.bits)
    ensures Operand(Combine(minus, l, r).bits) && !Combine(minus, l, r).hasLen && !Combine(minus, l, r).isString
    ensures |Combine(minus, l, r).bits| >= Longest(l.bits, r.bits)
    ensures Combine(minus, l, r).signed == BothSigned(l, r)
  {
    if minus {
      DifferenceLowBits(l, r, 0, 0);
    } else {
      SumLowBits(l, r, 0, 0);
    }
  }

  // ----- folding keeps the meaning -----

  /**
   * When two constants of which not both are signed, nor both sized, are combined right modulo 2^w: all
   * is done on their bits, read as unsigned, so a negative one must be w bits wide; and a borrow is
   * seen unless the wider one is. If it is negative itself, the two corrections can meet.
   */
  predicate MixedCombines(minus: bool, l: Verinum, r: Verinum, w: nat)
    requires l.bits != [] && r.bits != []
  {
    var m := Longest(l.bits, r.bits);
    var borrow := minus && Value(l.bits) < Value(r.bits);
    if Negative(l) then
      if borrow && |l.bits| == m then m + 1 >= w else |l.bits| >= w
    else if Negative(r) then
      (borrow && |r.bits| == m) || |r.bits| >= w
    else !borrow || m >= w
  }

  /** Two constants are folded right modulo 2^w; sized ones are as wide as the node. */
  predicate Combines(minus: bool, l: Verinum, r: Verinum, w: nat)
    requires l.bits != [] && r.bits != []
  {
    if l.hasLen && r.hasLen then |l.bits| >= w && |r.bits| >= w
    else (l.signed && r.signed) || MixedCombines(minus, l, r, w)
  }

  /** So at every node that folds two constants. */
  predicate AllCombine(e: Expr, w: nat, prune: int)
    requires Wellformed(e) && w > 0
  {
    match e
    case AddSub(minus, l, r) =>
      && AllCombine(l, w, prune) && AllCombine(r, w, prune)
      && var (lf, rf) := (Fold(l, w, prune), Fold(r, w, prune));
      lf.Const? && rf.Const? ==> Combines(minus, lf.value, rf.value, w)
    case _ => true
  }

  /** Two numbers at least w bits wide combine modulo 2^w. */
  lemma CombineWide(minus: bool, l: Verinum, r: Verinum, w: nat, total: int)
    requires Operand(l.bits) && Operand(r.bits) && |l.bits| >= w && |r.bits| >= w
    requires total == Apply(minus, Residue(l, w), Residue(r, w))
    ensures Operand(Combine(minus, l, r).bits)
    ensures Residue(Combine(minus, l, r), w) == Wrap(total, Pow2(w))
  {
    CombinedIsOperand(minus, l, r);
    ResidueIsLowBits(l, w);
    ResidueIsLowBits(r, w);
    ResidueIsLowBits(Combine(minus, l, r), w);
    if minus {
      DifferenceLowBits(l, r, w, total);
    } else {
      SumLowBits(l, r, w, total);
    }
  }

  /** Operands may be reduced before they are combined. */
  lemma ApplyResidues(minus: bool, a: int, b: int, a': int, b': int, p: nat, total: int, exact: int)
    requires p > 0 && a' == Wrap(a, p) && b' == Wrap(b, p)
    requires total == Apply(minus, a', b') && exact == Apply(minus, a, b)
    ensures Wrap(total, p) == Wrap(exact, p)
  {
    ResiduesApplied(minus, a, b, a', b', p);
  }

  lemma ResiduesApplied(minus: bool, a: int, b: int, a': int, b': int, p: nat)
    requires p > 0 && a' == Wrap(a, p) && b' == Wrap(b, p)
    ensures Wrap(Apply(minus, a', b'), p) == Wrap(Apply(minus, a, b), p)
  {
    if minus {
      DifferenceOfResidues(a, b, a', b', p);
    } else {
      SumOfResidues(a, b, a', b', p);
    }
  }

  lemma SumOfResidues(a: int, b: int, a': int, b': int, p: nat)
    requires p > 0 && a' == Wrap(a, p) && b' == Wrap(b, p)
    ensures Wrap(a' + b', p) == Wrap(a + b, p)
  {
    WrapSum(a, b', p);
    WrapSum(b, a, p);
  }

  lemma DifferenceOfResidues(a: int, b: int, a': int, b': int, p: nat)
    requires p > 0 && a' == Wrap(a, p) && b' == Wrap(b, p)
    ensures Wrap(a' - b', p) == Wrap(a - b, p)
  {
    WrapSum(a, -b', p);
    WrapDifference(a, b, p);
  }

  /** On the bits alone, sums are exact and differences borrow at the wider operand's width. */
  lemma CombineBits(minus: bool, l: Verinum, r: Verinum)
    requires Operand(l.bits) && Operand(r.bits) && !BothSigned(l, r)
    ensures !Combine(minus, l, r).signed
    ensures Value(Combine(minus, l, r).bits)
            == Apply(minus, Value(l.bits), Value(r.bits))
               + if minus && Value(l.bits) < Value(r.bits) then Pow2(Longest(l.bits, r.bits)) else 0
  {
    var u, v := l.(signed := false), r.(signed := false);
    assert Combine(minus, l, r) == Combine(minus, u, v);
    if !minus {
      SumIsExact(u, v);
    } else if Value(l.bits) >= Value(r.bits) {
      DifferenceIsExact(u, v);
    } else {
      DifferenceBorrows(u, v);
    }
  }

  /** What the number combined on the bits is off by. */
  lemma MixedResult(minus: bool, l: Verinum, r: Verinum, total: int, borrow: bool) returns (result: int)
    requires Operand(l.bits) && Operand(r.bits) && !BothSigned(l, r)
    requires total == Apply(minus, IntValue(l), IntValue(r)) && borrow == (minus && Value(l.bits) < Value(r.bits))
    ensures Combine(minus, l, r).bits != [] && result == IntValue(Combine(minus, l, r))
    ensures var b := if borrow then Pow2(Longest(l.bits, r.bits)) else 0;
            result == b + if Negative(l) then total + Pow2(|l.bits|)
                          else if Negative(r) then Apply(minus, total, Pow2(|r.bits|))
                          else total
  {
    CombinedIsOperand(minus, l, r);
    CombineBits(minus, l, r);
    result := IntValue(Combine(minus, l, r));
  }

  /** What the bits are off by shows modulo 2^w unless the condition holds. */
  lemma MixedResidue(minus: bool, l: Verinum, r: Verinum, w: nat, total: int)
    requires Operand(l.bits) && Operand(r.bits) && !BothSigned(l, r)
    requires total == Apply(minus, IntValue(l), IntValue(r))
    ensures Combine(minus, l, r).bits != []
    ensures Residue(Combine(minus, l, r), w) == Wrap(total, Pow2(w)) <==> MixedCombines(minus, l, r, w)
  {
    var m, borrow := Longest(l.bits, r.bits), minus && Value(l.bits) < Value(r.bits);
    var result := MixedResult(minus, l, r, total, borrow);
    if Negative(l) {
      LeftIsNegative(total, |l.bits|, m, borrow, w, result);
    } else if Negative(r) {
      RightIsNegative(total, minus, |r.bits|, m, borrow, w, result);
    } else if borrow {
      PowerSeen(total, result, m, w);
    }
  }

  lemma LeftIsNegative(total: int, k: nat, m: nat, borrow: bool, w: nat, result: int)
    requires k <= m && result == total + Pow2(k) + if borrow then Pow2(m) else 0
    ensures Wrap(result, Pow2(w)) == Wrap(total, Pow2(w)) <==> if borrow && k == m then m + 1 >= w else k >= w
  {
    if !borrow {
      PowerSeen(total, result, k, w);
    } else if k == m {
      PowerSeen(total, result, m + 1, w);
    } else {
      TwoPowersSeen(total, total + Pow2(k), result, m, k, w);
    }
  }

  lemma RightIsNegative(total: int, minus: bool, k: nat, m: nat, borrow: bool, w: nat, result: int)
    requires k <= m && (borrow ==> minus)
    requires result == Apply(minus, total, Pow2(k)) + if borrow then Pow2(m) else 0
    ensures Wrap(result, Pow2(w)) == Wrap(total, Pow2(w)) <==> (borrow && k == m) || k >= w
  {
    if !borrow {
      PowerSeen(total, result, k, w);
    } else if k < m {
      TwoPowersSeen(total, total - Pow2(k), result, m, k, w);
    }
  }

  /** Of two powers the lower one decides whether they show. */
  lemma TwoPowersSeen(a: int, b: int, c: int, m: nat, k: nat, w: nat)
    requires k < m && (b == a + Pow2(k) || b == a - Pow2(k)) && c == b + Pow2(m)
    ensures Wrap(c, Pow2(w)) == Wrap(a, Pow2(w)) <==> k >= w
  {
    if k >= w {
      PowerSeen(a, b, k, w);
      PowerSeen(b, c, m, w);
    } else {
      PowerSeen(a, b, k, k + 1);
      PowerSeen(b, c, m, k + 1);
      CoarserResidue(c, Wrap(c, Pow2(w)), w, k + 1);
      CoarserResidue(a, Wrap(a, Pow2(w)), w, k + 1);
    }
  }

  /** A residue r modulo 2^w has the number's residue modulo a lower power. */
  lemma CoarserResidue(a: int, r: nat, w: nat, j: nat)
    requires j <= w && r == Wrap(a, Pow2(w))
    ensures Wrap(r, Pow2(j)) == Wrap(a, Pow2(j))
  {
    Pow2Add(j, w - j);
    ResidueOfProduct(a, r, Pow2(w), Pow2(j), Pow2(w - j));
  }

  lemma ResidueOfProduct(a: int, r: nat, pc: nat, p: nat, c: nat)
    requires p > 0 && pc > 0 && pc == p * c && r == Wrap(a, pc)
    ensures Wrap(r, p) == Wrap(a, p)
  {
    var n, above := WrapQuotient(a, pc, r);
    var m, k := pc * n, c * n;
    MulAssoc(pc, p, c, n);
    MultipleApart(a, r, p, k, m);
  }

  lemma MultipleApart(a: int, r: nat, p: nat, k: nat, multiple: nat)
    requires p > 0 && multiple == p * k && (a == r + multiple || a == r - multiple)
    ensures Wrap(r, p) == Wrap(a, p)
  {
    WrapMultipleOf(r, p, k, multiple);
  }

  lemma MulAssoc(pc: nat, p: nat, c: nat, n: nat)
    requires pc == p * c
    ensures pc * n == p * (c * n)
  {
  }

  lemma OneMoreTimes(p: nat, n: nat)
    ensures p * (n + 1) == p * n + p
  {
  }

  /** A number is a multiple of p above or below its residue. */
  lemma {:induction false} WrapQuotient(a: int, p: nat, r: nat) returns (n: nat, above: bool)
    requires p > 0 && r == Wrap(a, p)
    ensures a == if above then r + p * n else r - p * n
    ensures a >= 0 <==> above
    ensures 0 <= a < p ==> n == 0
    decreases if a < 0 then p - a else a
  {
    if a < 0 {
      n, above := WrapQuotient(a + p, p, r);
      OneMoreTimes(p, n);
      n, above := n + 1, false;
    } else if a >= p {
      n, above := WrapQuotient(a - p, p, r);
      OneMoreTimes(p, n);
      n := n + 1;
    } else {
      n, above := 0, true;
    }
  }

  /**
   * Folding two constants that are not both sized is right modulo 2^w exactly when both are signed or
   * the condition on their bits holds. A borrow, or what a sign is worth, is lost with the bits above.
   */
  lemma UnsizedFoldExactly(minus: bool, l: Verinum, r: Verinum, prune: int, w: nat, total: int)
    requires Operand(l.bits) && Operand(r.bits) && !(l.hasLen && r.hasLen)
    requires total == Apply(minus, IntValue(l), IntValue(r))
    ensures Residue(FoldConstants(minus, l, r, prune), w) == Wrap(total, Pow2(w)) <==> Combines(minus, l, r, w)
  {
    CombinedIsOperand(minus, l, r);
    TrimKeepsValue(Combine(minus, l, r));
    if BothSigned(l, r) {
      if minus {
        DifferenceIsExact(l, r);
      } else {
        SumIsExact(l, r);
      }
    } else {
      MixedResidue(minus, l, r, w, total);
    }
  }

  lemma FoldConstantsKeeps(minus: bool, l: Verinum, r: Verinum, prune: int, w: nat, total: int)
    requires Operand(l.bits) && Operand(r.bits) && Combines(minus, l, r, w)
    requires total == Apply(minus, Residue(l, w), Residue(r, w))
    ensures Residue(FoldConstants(minus, l, r, prune), w) == Wrap(total, Pow2(w))
  {
    if l.hasLen && r.hasLen {
      SizedFold(minus, l, r, prune, w, total);
    } else {
      UnsizedFold(minus, l, r, prune, w, total, Apply(minus, IntValue(l), IntValue(r)));
    }
  }

  lemma SizedFold(minus: bool, l: Verinum, r: Verinum, prune: int, w: nat, total: int)
    requires Operand(l.bits) && Operand(r.bits) && l.hasLen && r.hasLen && |l.bits| >= w && |r.bits| >= w
    requires total == Apply(minus, Residue(l, w), Residue(r, w))
    ensures Residue(FoldConstants(minus, l, r, prune), w) == Wrap(total, Pow2(w))
  {
    var v, n := Combine(minus, l, r), Longest(l.bits, r.bits) + if prune < 0 then 1 else 0;
    CombineWide(minus, l, r, w, total);
    ResizeKeepsResidue(v, n, w);
    assert FoldConstants(minus, l, r, prune) == Resize(v, n);
  }

  lemma UnsizedFold(minus: bool, l: Verinum, r: Verinum, prune: int, w: nat, total: int, exact: int)
    requires Operand(l.bits) && Operand(r.bits) && Combines(minus, l, r, w) && !(l.hasLen && r.hasLen)
    requires total == Apply(minus, Residue(l, w), Residue(r, w)) && exact == Apply(minus, IntValue(l), IntValue(r))
    ensures Residue(FoldConstants(minus, l, r, prune), w) == Wrap(total, Pow2(w))
  {
    UnsizedFoldExactly(minus, l, r, prune, w, exact);
    ApplyResidues(minus, IntValue(l), IntValue(r), Residue(l, w), Residue(r, w), Pow2(w), total, exact);
  }

  lemma MergeKeeps(same: bool, l: Verinum, r: Verinum, w: nat, total: int)
    requires IsNumber(l) && IsNumber(r) && w > 0
    requires total == Apply(!same, Residue(r, w), Residue(l, w))
    ensures Residue(Merge(same, l, r, w), w) == Wrap(total, Pow2(w))
  {
    PadKeepsValue(l, w);
    PadKeepsValue(r, w);
    var lval, rval := PadToWidth(l, w), PadToWidth(r, w);
    CombineWide(!same, rval, lval, w, total);
    CombinedIsOperand(!same, rval, lval);
    ResizeKeepsResidue(Combine(!same, rval, lval), w, w);
  }

  /** The four ways to move a constant out of a sub-sum. */
  lemma Reassociate(minus: bool, sub: bool, a: int, l: int, r: int, p: nat, v: int)
    requires p > 0 && v == Apply(minus != sub, r, l)
    ensures Wrap(Apply(minus, Wrap(Apply(sub, a, l), p), r), p) == Wrap(Apply(minus, a, Wrap(v, p)), p)
  {
    var inner := Apply(sub, a, l);
    WrapSum(inner, Apply(minus, 0, r), p);
    if minus {
      WrapDifference(a, v, p);
    } else {
      WrapSum(v, a, p);
    }
  }

  /** Rewriting one node keeps its meaning. */
  lemma RewriteKeepsMeaning(minus: bool, l: Expr, r: Expr, env: nat -> int, w: nat, prune: int)
    requires Wellformed(l) && Wellformed(r) && w > 0
    requires l.Const? && r.Const? ==> Combines(minus, l.value, r.value, w)
    ensures Meaning(Rewrite(minus, l, r, w, prune), env, w) == Meaning(AddSub(minus, l, r), env, w)
  {
    if l.Const? && r.Const? {
      FoldConstantsKeeps(minus, l.value, r.value, prune, w, Apply(minus, Residue(l.value, w), Residue(r.value, w)));
    } else if r.Const? && l.AddSub? && l.right.Const? {
      assert Wellformed(l.right);
      MergedMeaning(minus, l, r, env, w);
    }
  }

  lemma MergedMeaning(minus: bool, l: Expr, r: Expr, env: nat -> int, w: nat)
    requires Wellformed(l) && w > 0 && l.AddSub? && l.right.Const? && r.Const?
    requires IsNumber(l.right.value) && IsNumber(r.value)
    ensures var v := Merge(minus == l.minus, l.right.value, r.value, w);
            Meaning(AddSub(minus, l.left, Const(v)), env, w) == Meaning(AddSub(minus, l, r), env, w)
  {
    var c, d := l.right.value, r.value;
    var a, v := Meaning(l.left, env, w), Apply(minus != l.minus, Residue(d, w), Residue(c, w));
    MergeKeeps(minus == l.minus, c, d, w, v);
    Reassociate(minus, l.minus, a, Residue(c, w), Residue(d, w), Pow2(w), v);
    assert Meaning(l.right, env, w) == Residue(c, w);
  }

  /** Folding keeps the value modulo 2^w, whatever the signals are, if every two constants combine. */
  lemma {:induction false} FoldKeepsMeaning(e: Expr, env: nat -> int, w: nat, prune: int)
    requires Wellformed(e) && w > 0 && AllCombine(e, w, prune)
    ensures Meaning(Fold(e, w, prune), env, w) == Meaning(e, env, w)
  {
    match e
    case AddSub(minus, l, r) =>
      FoldKeepsMeaning(l, env, w, prune);
      FoldKeepsMeaning(r, env, w, prune);
      RewriteKeepsMeaning(minus, Fold(l, w, prune), Fold(r, w, prune), env, w, prune);
    case _ =>
  }

  /** Constants as written: sized ones, at least as wide as the expression, or signed ones without a size. */
  predicate Uniform(e: Expr, w: nat, sized: bool)
    requires Wellformed(e)
  {
    match e
    case Signal(_) => true
    case Const(v) => if sized then v.hasLen && |v.bits| >= w else v.signed && !v.hasLen
    case AddSub(_, l, r) => Uniform(l, w, sized) && Uniform(r, w, sized)
  }

  /** Where they are all of one of the two kinds, they always combine. */
  lemma {:induction false} UniformCombines(e: Expr, w: nat, prune: int, sized: bool)
    requires Wellformed(e) && w > 0 && Uniform(e, w, sized)
    ensures AllCombine(e, w, prune)
    ensures Fold(e, w, prune).Const? ==> Uniform(Fold(e, w, prune), w, sized)
  {
    match e
    case AddSub(minus, l, r) =>
      UniformCombines(l, w, prune, sized);
      UniformCombines(r, w, prune, sized);
      var (lf, rf) := (Fold(l, w, prune), Fold(r, w, prune));
      if lf.Const? && rf.Const? {
        CombinedIsOperand(minus, lf.value, rf.value);
        TrimKeepsValue(Combine(minus, lf.value, rf.value));
      }
    case _ =>
  }

  // ----- chains -----

  /** x op1 c1 op2 c2 ... */
  function Chain(x: Expr, steps: seq<(bool, Verinum)>): Expr {
    if steps == [] then x
    else
      var n := |steps| - 1;
      AddSub(steps[n].0, Chain(x, steps[..n]), Const(steps[n].1))
  }

  predicate Numbers(steps: seq<(bool, Verinum)>) {
    forall i | 0 <= i < |steps| :: IsNumber(steps[i].1)
  }

  /** The sum of the constants, each with its sign. */
  function Net(steps: seq<(bool, Verinum)>): int
    requires Numbers(steps)
  {
    if steps == [] then 0
    else
      var n := |steps| - 1;
      Apply(steps[n].0, Net(steps[..n]), IntValue(steps[n].1))
  }

  lemma {:induction false} ChainWellformed(id: nat, steps: seq<(bool, Verinum)>)
    requires Numbers(steps)
    ensures Wellformed(Chain(Signal(id), steps))
  {
    if steps != [] {
      ChainWellformed(id, steps[..|steps| - 1]);
    }
  }

  /** A signal and one constant, added or subtracted. */
  predicate OneConstant(f: Expr, id: nat) {
    f.AddSub? && f.left == Signal(id) && f.right.Const? && IsNumber(f.right.value)
  }

  /**
   * A chain of any length on a signal folds to one constant, which adds the signed sum of all the
   * constants to the signal modulo 2^w.
   */
  lemma {:induction false} ChainFoldsToOneConstant(id: nat, steps: seq<(bool, Verinum)>, w: nat, prune: int,
                                                   env: nat -> int, total: int)
    requires w > 0 && steps != [] && Numbers(steps)
    requires total == env(id) + Net(steps)
    ensures Wellformed(Chain(Signal(id), steps))
    ensures OneConstant(Fold(Chain(Signal(id), steps), w, prune), id)
    ensures Meaning(Fold(Chain(Signal(id), steps), w, prune), env, w) == Wrap(total, Pow2(w))
  {
    ChainWellformed(id, steps);
    var n := |steps| - 1;
    var minus, c := steps[n].0, steps[n].1;
    var l, before := Signal(id), env(id);
    if n > 0 {
      before := env(id) + Net(steps[..n]);
      ChainFoldsToOneConstant(id, steps[..n], w, prune, env, before);
      l := Fold(Chain(Signal(id), steps[..n]), w, prune);
    } else {
      assert steps[..0] == [] && Net(steps[..0]) == 0;
    }
    OneMoreConstant(minus, l, Widened(c, prune), id, env, w, prune, before, total);
  }

  lemma OneMoreConstant(minus: bool, l: Expr, c: Verinum, id: nat, env: nat -> int, w: nat, prune: int,
                        before: int, after: int)
    requires w > 0 && (l == Signal(id) || OneConstant(l, id)) && IsNumber(c)
    requires Wellformed(l) && Meaning(l, env, w) == Wrap(before, Pow2(w))
    requires after == Apply(minus, before, IntValue(c))
    ensures var f := Rewrite(minus, l, Const(c), w, prune);
            OneConstant(f, id) && Meaning(f, env, w) == Wrap(after, Pow2(w))
  {
    if l.AddSub? {
      MergedMeaning(minus, l, Const(c), env, w);
    }
    NextConstant(minus, before, c, w, Meaning(l, env, w));
  }

  lemma NextConstant(minus: bool, before: int, c: Verinum, w: nat, m: nat)
    requires c.bits != [] && m == Wrap(before, Pow2(w))
    ensures Wrap(Apply(minus, m, Residue(c, w)), Pow2(w)) == Wrap(Apply(minus, before, IntValue(c)), Pow2(w))
  {
    ApplyResidues(minus, before, IntValue(c), m, Residue(c, w), Pow2(w), Apply(minus, m, Residue(c, w)),
                  Apply(minus, before, IntValue(c)));
  }

  // ----- where folding is not sound -----

  /**
   * If the sub-sum were only m < w bits wide, merging its constant would be right for every
   * operand exactly when the constant is 0.
   */
  lemma NarrowSubSum(minus: bool, m: nat, w: nat, c: nat, d: int)
    requires m < w && c < Pow2(m)
    ensures Pow2(m) < Pow2(w)
    ensures (forall a: nat | a < Pow2(m) :: NarrowAgrees(minus, a, c, d, Pow2(m), Pow2(w))) <==> c == 0
  {
    Pow2Monotone(m + 1, w);
    forall a: nat | a < Pow2(m)
            ensures NarrowAgrees(minus, a, c, d, Pow2(m), Pow2(w)) <==> 0 <= Apply(minus, a, c) < Pow2(m) {
      OutsideNarrow(minus, a, c, d, Pow2(m), Pow2(w));
    }
    if c != 0 {
      var a := if minus then 0 else Pow2(m) - c;
      assert !NarrowAgrees(minus, a, c, d, Pow2(m), Pow2(w));
    }
  }

  /** Reducing a op c modulo h first makes no difference modulo p. */
  predicate NarrowAgrees(minus: bool, a: nat, c: nat, d: int, h: nat, p: nat)
    requires 0 < h < p
  {
    Wrap(Wrap(Apply(minus, a, c), h) + d, p) == Wrap(a + Apply(minus, d, c), p)
  }

  lemma OutsideNarrow(minus: bool, a: nat, c: nat, d: int, h: nat, p: nat)
    requires a < h && c < h < p
    ensures NarrowAgrees(minus, a, c, d, h, p) <==> 0 <= Apply(minus, a, c) < h
  {
    var x := Apply(minus, a, c);
    assert Wrap(x, h) == if x < 0 then x + h else if x >= h then x - h else x;
    assert a + Apply(minus, d, c) == x + d;
    DistinctResidues(x + d, h, p);
    if x < 0 {
      assert x + d + h == Wrap(x, h) + d;
    } else if x >= h {
      assert x + d - h == Wrap(x, h) + d;
    }
  }
}
