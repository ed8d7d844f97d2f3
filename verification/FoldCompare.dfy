/** Folding <, <=, > and >=, and the conditional operator. */
module FoldCompare {
  import opened Prelude
  import opened Verinum
  import opened VerinumArith
  import FoldBoolean

  // ----- comparing numbers -----

  /** What a number stands for in a comparison: two's complement only if both sides are signed. */
  function NumberOf(v: Bits, signed: bool): int
    requires v != []
  {
    if signed then SignedValue(v) else Value(v)
  }

  /** Vectors of one length compared from the highest bit down; orEqual is the answer if they are the same. */
  function Before(u: Bits, v: Bits, orEqual: bool): bool
    requires |u| == |v|
  {
    if u == [] then orEqual
    else
      var n := |u| - 1;
      if u[n] == v[n] then Before(u[..n], v[..n], orEqual) else u[n] == V0
  }

  /** That is the order of the values. */
  lemma {:induction false} BeforeIsOrder(u: Bits, v: Bits, orEqual: bool)
    requires |u| == |v| && Defined(u) && Defined(v)
    ensures Before(u, v, orEqual) <==> Value(u) < Value(v) || (orEqual && Value(u) == Value(v))
  {
    if u != [] {
      var n := |u| - 1;
      DefinedParts(u, n);
      DefinedParts(v, n);
      LastDigit(u);
      LastDigit(v);
      ValueBound(u[..n]);
      ValueBound(v[..n]);
      BeforeIsOrder(u[..n], v[..n], orEqual);
    }
  }

  /** The bit a vector is continued with in a comparison. */
  function Pad(v: Bits, signed: bool): Bit
    requires v != []
  {
    if signed then Top(v) else V0
  }

  /** Continued to one length with equal pads, the vectors are ordered as what they stand for. */
  lemma ContinuedOrder(l: Bits, r: Bits, signed: bool, n: nat, orEqual: bool)
    requires Operand(l) && Operand(r) && |l| <= n && |r| <= n
    requires Pad(l, signed) == Pad(r, signed)
    ensures var (u, v) := (ExtendTo(l, Pad(l, signed), n), ExtendTo(r, Pad(r, signed), n));
            Before(u, v, orEqual)
            <==> NumberOf(l, signed) < NumberOf(r, signed) || (orEqual && NumberOf(l, signed) == NumberOf(r, signed))
  {
    ExtendKeepsValue(l, n);
    ExtendKeepsValue(r, n);
    BeforeIsOrder(ExtendTo(l, Pad(l, signed), n), ExtendTo(r, Pad(r, signed), n), orEqual);
  }

  /** A negative number is below one that is not. */
  lemma SignsDecide(l: Bits, r: Bits)
    requires Operand(l) && Operand(r) && Top(l) != Top(r)
    ensures SignedValue(l) < SignedValue(r) <==> Top(l) == V1
    ensures SignedValue(l) != SignedValue(r)
  {
    Ranges(l, Pow2(|l| - 1));
    Ranges(r, Pow2(|r| - 1));
  }

  /** Two bits at the same place that differ, with the same bits above them, decide. */
  lemma {:induction false} DecidedAbove(u: Bits, v: Bits, k: nat, orEqual: bool)
    requires |u| == |v| && k <= |u| && u[k..] == v[k..]
    ensures Before(u, v, orEqual) == Before(u[..k], v[..k], orEqual)
    decreases |u|
  {
    var n := |u| - 1;
    if k <= n {
      assert u[n] == u[k..][n - k] && v[n] == v[k..][n - k];
      assert u[..n][k..] == u[k..][..n - k] && v[..n][k..] == v[k..][..n - k];
      DecidedAbove(u[..n], v[..n], k, orEqual);
      assert u[..n][..k] == u[..k] && v[..n][..k] == v[..k];
    } else {
      assert u[..k] == u && v[..k] == v;
    }
  }

  /**
   * The operators < and <=: signs that differ decide; else the bits beyond the shorter operand,
   * against its padding; else the first difference from the top.
   */
  method Compare(l: Verinum, r: Verinum, orEqual: bool) returns (res: Bit)
    requires Operand(l.bits) && Operand(r.bits)
    ensures var s := BothSigned(l, r);
            var (a, b) := (NumberOf(l.bits, s), NumberOf(r.bits, s));
            res == if a < b || (orEqual && a == b) then V1 else V0
  {
    var leftPad, rightPad := V0, V0;
    var signedCalc := l.signed && r.signed;
    if signedCalc {
      leftPad := Top(l.bits);
      rightPad := Top(r.bits);
      if leftPad != rightPad {
        SignsDecide(l.bits, r.bits);
        return if leftPad == V1 then V1 else V0;
      }
    }
    ContinuedOrder(l.bits, r.bits, signedCalc, Longest(l.bits, r.bits), orEqual);
    res := CompareSamePad(l.bits, r.bits, leftPad, Longest(l.bits, r.bits), orEqual);
  }

  /** The bit at a position of a vector continued with pad. */
  function BitAt(v: Bits, pad: Bit, k: nat): Bit {
    if k < |v| then v[k] else pad
  }

  /** The order of two vectors continued with the same bit to n bits. */
  function Answer(l: Bits, r: Bits, pad: Bit, n: nat, orEqual: bool): bool
    requires |l| <= n && |r| <= n
  {
    Before(ExtendTo(l, pad, n), ExtendTo(r, pad, n), orEqual)
  }

  lemma ExtendedBit(v: Bits, pad: Bit, n: nat, k: nat)
    requires |v| <= n && k < n
    ensures ExtendTo(v, pad, n)[k] == BitAt(v, pad, k)
  {
    if k < |v| {
      assert ExtendTo(v, pad, n)[..|v|][k] == v[k];
    }
  }

  /** From position k up the vectors are the same. */
  predicate SameAbove(l: Bits, r: Bits, pad: Bit, n: nat, k: nat) {
    forall i | k <= i < n :: BitAt(l, pad, i) == BitAt(r, pad, i)
  }

  /** The highest difference decides; without one the answer is that for equal numbers. */
  lemma FirstDifference(l: Bits, r: Bits, pad: Bit, n: nat, k: nat, orEqual: bool)
    requires |l| <= n && |r| <= n && k <= n && SameAbove(l, r, pad, n, k)
    ensures k == 0 ==> Answer(l, r, pad, n, orEqual) == orEqual
    ensures k > 0 && BitAt(l, pad, k - 1) != BitAt(r, pad, k - 1) ==>
              (Answer(l, r, pad, n, orEqual) <==> BitAt(l, pad, k - 1) == V0)
  {
    var (u, v) := (ExtendTo(l, pad, n), ExtendTo(r, pad, n));
    forall i | 0 <= i < n - k ensures u[k..][i] == v[k..][i] {
      ExtendedBit(l, pad, n, k + i);
      ExtendedBit(r, pad, n, k + i);
      assert BitAt(l, pad, k + i) == BitAt(r, pad, k + i);
    }
    assert u[k..] == v[k..];
    DecidedAbove(u, v, k, orEqual);
    if k > 0 {
      ExtendedBit(l, pad, n, k - 1);
      ExtendedBit(r, pad, n, k - 1);
      assert u[..k][k - 1] == u[k - 1] && v[..k][k - 1] == v[k - 1];
    }
  }

  /** From the top down to low: how far the bits are pad. */
  method SkipPadding(v: Bits, pad: Bit, low: nat) returns (idx: nat)
    ensures |v| > low ==> low <= idx <= |v| && (idx > low ==> v[idx - 1] != pad)
    ensures |v| <= low ==> idx == |v|
    ensures forall i | idx <= i < |v| :: v[i] == pad
  {
    idx := |v|;
    while idx > low
      invariant if |v| > low then low <= idx <= |v| else idx == |v|
      invariant forall i | idx <= i < |v| :: v[i] == pad
    {
      if v[idx - 1] != pad {
        return;
      }
      idx := idx - 1;
    }
  }

  /** From position start down: how far the bits are the same. */
  method SkipCommon(l: Bits, r: Bits, start: nat) returns (idx: nat)
    requires start <= |l| && start <= |r|
    ensures idx <= start && (idx > 0 ==> l[idx - 1] != r[idx - 1])
    ensures forall i | idx <= i < start :: l[i] == r[i]
  {
    idx := start;
    while idx > 0
      invariant idx <= start
      invariant forall i | idx <= i < start :: l[i] == r[i]
    {
      if l[idx - 1] != r[idx - 1] {
        return;
      }
      idx := idx - 1;
    }
  }

  /** Operands continued with the same bit. */
  method CompareSamePad(l: Bits, r: Bits, pad: Bit, n: nat, orEqual: bool) returns (res: Bit)
    requires Defined(l) && Defined(r) && Known(pad) && n == if |l| > |r| then |l| else |r|
    ensures res == if Answer(l, r, pad, n, orEqual) then V1 else V0
  {
    var idx := SkipPadding(l, pad, |r|);
    if idx > |r| {
      FirstDifference(l, r, pad, n, idx, orEqual);
      return if pad == V1 then V1 else V0;
    }
    idx := SkipPadding(r, pad, |l|);
    if idx > |l| {
      FirstDifference(l, r, pad, n, idx, orEqual);
      return if pad == V1 then V0 else V1;
    }
    idx := SkipCommon(l, r, if |l| < |r| then |l| else |r|);
    FirstDifference(l, r, pad, n, idx, orEqual);
    if idx > 0 {
      return if l[idx - 1] == V0 then V1 else V0;
    }
    res := if orEqual then V1 else V0;
  }

  /** The operator ==: bit by bit, each operand continued with its padding. */
  method Same(l: Verinum, r: Verinum) returns (res: Bit)
    requires Operand(l.bits) && Operand(r.bits)
    ensures var s := BothSigned(l, r);
            res == if NumberOf(l.bits, s) == NumberOf(r.bits, s) then V1 else V0
  {
    var leftPad, rightPad := V0, V0;
    if l.signed && r.signed {
      leftPad := Top(l.bits);
      rightPad := Top(r.bits);
      if leftPad != rightPad {
        SignsDecide(l.bits, r.bits);
        return V0;
      }
    }
    var maxLen := Longest(l.bits, r.bits);
    SameExactly(l.bits, r.bits, BothSigned(l, r), leftPad, maxLen);
    for idx := 0 to maxLen
      invariant forall i | 0 <= i < idx :: BitAt(l.bits, leftPad, i) == BitAt(r.bits, rightPad, i)
    {
      var leftBit := if idx < |l.bits| then l.bits[idx] else leftPad;
      var rightBit := if idx < |r.bits| then r.bits[idx] else rightPad;
      if leftBit != rightBit {
        assert BitAt(l.bits, leftPad, idx) != BitAt(r.bits, rightPad, idx);
        return V0;
      }
    }
    res := V1;
  }

  /** Operands that stand for one number are those that are the same from bit 0 up. */
  lemma SameExactly(l: Bits, r: Bits, signed: bool, pad: Bit, n: nat)
    requires Operand(l) && Operand(r) && |l| <= n && |r| <= n
    requires Pad(l, signed) == Pad(r, signed) == pad
    ensures SameAbove(l, r, pad, n, 0) <==> NumberOf(l, signed) == NumberOf(r, signed)
  {
    var (u, v) := (ExtendTo(l, pad, n), ExtendTo(r, pad, n));
    ExtendKeepsValue(l, n);
    ExtendKeepsValue(r, n);
    if SameAbove(l, r, pad, n, 0) {
      forall i | 0 <= i < n ensures u[i] == v[i] {
        ExtendedBit(l, pad, n, i);
        ExtendedBit(r, pad, n, i);
        assert BitAt(l, pad, i) == BitAt(r, pad, i);
      }
      assert u == v;
    }
    if NumberOf(l, signed) == NumberOf(r, signed) {
      ValueInjective(u, v);
      forall i | 0 <= i < n ensures BitAt(l, pad, i) == BitAt(r, pad, i) {
        ExtendedBit(l, pad, n, i);
        ExtendedBit(r, pad, n, i);
      }
    }
  }

  // ----- folding comparisons -----

  datatype Op = Less | LessEq | Greater | GreaterEq

  /** An operand: a constant, or anything of a width and a sign. */
  datatype Side = Const(value: Verinum) | Variable(width: nat, signed: bool)

  function Width(s: Side): nat {
    match s case Const(v) => |v.bits| case Variable(w, _) => w
  }

  function IsSigned(s: Side): bool {
    match s case Const(v) => v.signed case Variable(_, signed) => signed
  }

  /** The largest value a side can have against a constant. */
  function Largest(w: nat, signed: bool): (v: Verinum)
    requires w > 0
    ensures Operand(v.bits) && |v.bits| == w && v.signed == signed
  {
    Verinum(if signed then Repeat(V1, w - 1) + [V0] else Repeat(V1, w), signed, true, false)
  }

  /** The comparison holds. */
  predicate Holds(op: Op, l: Bits, r: Bits, signed: bool)
    requires l != [] && r != []
  {
    var (a, b) := (NumberOf(l, signed), NumberOf(r, signed));
    match op
    case Less => a < b
    case LessEq => a <= b
    case Greater => a > b
    case GreaterEq => a >= b
  }

  lemma LargestIsLargest(v: Bits, signed: bool)
    requires Operand(v)
    ensures NumberOf(v, signed) <= NumberOf(Largest(|v|, signed).bits, signed)
  {
    var big := Largest(|v|, signed).bits;
    Ranges(v, Pow2(|v| - 1));
    if signed {
      AppendDigit(Repeat(V1, |v| - 1), V0);
      ValueOfRepeat(V1, |v| - 1);
    } else {
      ValueOfRepeat(V1, |v|);
    }
  }

  /** Whether everything of the width of le is below (or at) the constant: its largest value decides. */
  method MustBeLeeq(le: Side, rv: Verinum, eqFlag: bool) returns (must: bool)
    requires Operand(rv.bits) && Width(le) > 0
    ensures var s := IsSigned(le) && rv.signed;
            must <==> forall v: Bits | Operand(v) && |v| == Width(le) ::
              NumberOf(v, s) < NumberOf(rv.bits, s) || (eqFlag && NumberOf(v, s) == NumberOf(rv.bits, s))
  {
    var s := IsSigned(le) && rv.signed;
    var lv := Largest(Width(le), s);
    var less := Compare(lv, rv, false);
    must := less == V1;
    if !must && eqFlag {
      var same := Same(lv, rv);
      must := same == V1;
    }
    if must {
      forall v: Bits | Operand(v) && |v| == Width(le)
        ensures NumberOf(v, s) < NumberOf(rv.bits, s) || (eqFlag && NumberOf(v, s) == NumberOf(rv.bits, s))
      {
        LargestIsLargest(v, s);
      }
    }
  }

  /** A value the side can have, with unknown bits filled. */
  predicate ValueOfSide(s: Side, v: Bits) {
    match s
    case Const(c) => Fills(v, c.bits) && v != []
    case Variable(w, _) => Operand(v) && |v| == w
  }

  /** A defined vector has no fill but itself. */
  lemma OnlyFill(v: Bits)
    requires Defined(v)
    ensures forall f | Fills(f, v) :: f == v
  {
    forall f | Fills(f, v) ensures f == v {
      FoldBoolean.DefinedFillIsSelf(f, v);
    }
  }

  function LessOp(eqFlag: bool): Op {
    if eqFlag then LessEq else Less
  }

  /** Every value of the width of le is below (or at) v. */
  ghost predicate AlwaysBelow(le: Side, v: Bits, eqFlag: bool, signed: bool)
    requires v != [] && Width(le) > 0
  {
    forall u: Bits | Operand(u) && |u| == Width(le) :: Holds(LessOp(eqFlag), u, v, signed)
  }

  /**
   * What folding le < re or le <= re has to answer: 1 if all values of the left width hold against a
   * defined constant; else nothing if a side is not constant, x if one has unknown bits, and the truth if
   * both are defined constants.
   */
  ghost predicate LessAnswer(le: Side, re: Side, eqFlag: bool, res: Option<Bit>)
    requires Width(le) > 0 && Width(re) > 0
  {
    var signed := IsSigned(le) && IsSigned(re);
    if re.Variable? then res == None
    else if !Defined(re.value.bits) then res == Some(Vx)
    else if AlwaysBelow(le, re.value.bits, eqFlag, signed) then res == Some(V1)
    else if le.Variable? then res == None
    else if !Defined(le.value.bits) then res == Some(Vx)
    else res == Some(if Holds(LessOp(eqFlag), le.value.bits, re.value.bits, signed) then V1 else V0)
  }

  /** Such an answer of 1 or 0 holds for all values the sides can have; defined constants get one. */
  lemma LessAnswerHolds(le: Side, re: Side, eqFlag: bool, res: Option<Bit>)
    requires Width(le) > 0 && Width(re) > 0 && LessAnswer(le, re, eqFlag, res)
    ensures res == Some(V1) ==> forall v, w | ValueOfSide(le, v) && ValueOfSide(re, w) ::
              Holds(LessOp(eqFlag), v, w, IsSigned(le) && IsSigned(re))
    ensures res == Some(V0) ==> forall v, w | ValueOfSide(le, v) && ValueOfSide(re, w) ::
              !Holds(LessOp(eqFlag), v, w, IsSigned(le) && IsSigned(re))
    ensures le.Const? && re.Const? && Defined(le.value.bits) && Defined(re.value.bits) ==> res.Some? && Known(res.value)
  {
    if re.Const? && Defined(re.value.bits) {
      OnlyFill(re.value.bits);
      if le.Const? && Defined(le.value.bits) {
        OnlyFill(le.value.bits);
      }
    }
  }

  /**
   * Folding le < re or le <= re; the other two comparisons come here with the sides exchanged. With
   * a defined constant on the right, any other left side folds exactly when all its values hold.
   */
  method EvalLess(le: Side, re: Side, eqFlag: bool) returns (res: Option<Bit>)
    requires Width(le) > 0 && Width(re) > 0
    ensures LessAnswer(le, re, eqFlag, res)
    ensures res == Some(V1) ==> forall v, w | ValueOfSide(le, v) && ValueOfSide(re, w) ::
              Holds(LessOp(eqFlag), v, w, IsSigned(le) && IsSigned(re))
    ensures res == Some(V0) ==> forall v, w | ValueOfSide(le, v) && ValueOfSide(re, w) ::
              !Holds(LessOp(eqFlag), v, w, IsSigned(le) && IsSigned(re))
    ensures le.Const? && re.Const? && Defined(le.value.bits) && Defined(re.value.bits) ==> res.Some? && Known(res.value)
    ensures le.Variable? && re.Const? && Defined(re.value.bits) ==>
              (res != None <==> forall v | ValueOfSide(le, v) ::
                Holds(LessOp(eqFlag), v, re.value.bits, IsSigned(le) && IsSigned(re)))
  {
    res := AnswerLess(le, re, eqFlag);
    LessAnswerHolds(le, re, eqFlag, res);
    if le.Variable? && re.Const? && Defined(re.value.bits) {
      forall v: Bits ensures ValueOfSide(le, v) <==> Operand(v) && |v| == Width(le) {
      }
    }
  }

  /** The steps of the folding. */
  method AnswerLess(le: Side, re: Side, eqFlag: bool) returns (res: Option<Bit>)
    requires Width(le) > 0 && Width(re) > 0
    ensures LessAnswer(le, re, eqFlag, res)
  {
    if !re.Const? {
      return None;
    }
    var rv := re.value;
    if !Defined(rv.bits) {
      return Some(Vx);
    }
    var must := MustBeLeeq(le, rv, eqFlag);
    assert must <==> AlwaysBelow(le, rv.bits, eqFlag, IsSigned(le) && IsSigned(re));
    if must {
      return Some(V1);
    }
    if !le.Const? {
      return None;
    }
    var lv := le.value;
    if !Defined(lv.bits) {
      return Some(Vx);
    }
    var b := Compare(lv, rv, eqFlag);
    res := Some(b);
  }

  /**
   * Folding a comparison. An answer of 1 or 0 holds for every value of an operand that is not
   * constant, and however unknown bits are filled; defined constants always get one.
   */
  method EvalComp(op: Op, l: Side, r: Side) returns (res: Option<Bit>)
    requires Width(l) > 0 && Width(r) > 0
    ensures res == Some(V1) ==> forall v, w | ValueOfSide(l, v) && ValueOfSide(r, w) ::
              Holds(op, v, w, IsSigned(l) && IsSigned(r))
    ensures res == Some(V0) ==> forall v, w | ValueOfSide(l, v) && ValueOfSide(r, w) ::
              !Holds(op, v, w, IsSigned(l) && IsSigned(r))
    ensures l.Const? && r.Const? && Defined(l.value.bits) && Defined(r.value.bits) ==> res.Some? && Known(res.value)
    ensures match op
            case Less => LessAnswer(l, r, false, res)
            case LessEq => LessAnswer(l, r, true, res)
            case Greater => LessAnswer(r, l, false, res)
            case GreaterEq => LessAnswer(r, l, true, res)
  {
    match op
    case Less => res := EvalLess(l, r, false);
    case LessEq => res := EvalLess(l, r, true);
    case Greater =>
      res := EvalLess(r, l, false);
      Exchanged(Greater, l, r, res == Some(V1), res == Some(V0));
    case GreaterEq =>
      res := EvalLess(r, l, true);
      Exchanged(GreaterEq, l, r, res == Some(V1), res == Some(V0));
  }

  /** What holds of the exchanged sides holds of the sides. */
  lemma Exchanged(op: Op, l: Side, r: Side, always: bool, never: bool)
    requires op.Greater? || op.GreaterEq?
    requires always ==> forall v, w | ValueOfSide(r, v) && ValueOfSide(l, w) ::
               Holds(if op.Greater? then Less else LessEq, v, w, IsSigned(r) && IsSigned(l))
    requires never ==> forall v, w | ValueOfSide(r, v) && ValueOfSide(l, w) ::
               !Holds(if op.Greater? then Less else LessEq, v, w, IsSigned(r) && IsSigned(l))
    ensures always ==> forall v, w | ValueOfSide(l, v) && ValueOfSide(r, w) ::
            Holds(op, v, w, IsSigned(l) && IsSigned(r))
    ensures never ==> forall v, w | ValueOfSide(l, v) && ValueOfSide(r, w) ::
            !Holds(op, v, w, IsSigned(l) && IsSigned(r))
  {
    var (s, opposite) := (IsSigned(r) && IsSigned(l), if op.Greater? then Less else LessEq);
    forall v, w | ValueOfSide(l, v) && ValueOfSide(r, w)
      ensures Holds(op, v, w, s) <==> Holds(opposite, w, v, s)
      ensures always ==> Holds(opposite, w, v, s)
      ensures never ==> !Holds(opposite, w, v, s)
    {
    }
  }

  // ----- the conditional operator -----

  /** The operand a condition chooses. */
  function Chosen(cond: bool, t: Bits, f: Bits): Bits {
    if cond then t else f
  }

  /** Where both operands have the same bit, that bit, else x; the shorter operand goes on with zeros. */
  function Blended(t: Bits, f: Bits): (r: Bits)
    ensures |r| == Longest(t, f)
  {
    seq(Longest(t, f), i requires 0 <= i < Longest(t, f) =>
      if BitAt(t, V0, i) == BitAt(f, V0, i) then BitAt(t, V0, i) else Vx)
  }

  method Blend(t: Bits, f: Bits) returns (r: Bits)
    ensures r == Blended(t, f)
  {
    var rsize := if |t| > |f| then |t| else |f|;
    var val := new Bit[rsize](_ => V0);
    for idx := 0 to rsize
      invariant forall i | 0 <= i < idx :: val[i] == Blended(t, f)[i]
    {
      var tv := if idx < |t| then t[idx] else V0;
      var fv := if idx < |f| then f[idx] else V0;
      if tv == fv {
        val[idx] := tv;
      } else {
        val[idx] := Vx;
      }
    }
    r := val[..];
  }

  /** Folding cond ? t : f with constant operands. */
  method EvalTernary(cond: Bits, t: Bits, f: Bits) returns (r: Bits)
    ensures FoldBoolean.Truth(cond) == V1 ==> r == t
    ensures FoldBoolean.Truth(cond) == V0 ==> r == f
    ensures FoldBoolean.Truth(cond) == Vx ==> r == Blended(t, f)
  {
    var c := FoldBoolean.TruthOf(cond);
    if c == V0 {
      return f;
    } else if c == V1 {
      return t;
    }
    r := Blend(t, f);
  }

  /**
   * For operands of one length the answer is exact: a bit is 0 or 1 exactly when, however the
   * condition's unknown bits are filled, the operand it chooses has that bit.
   */
  lemma TernaryFoldIsExact(cond: Bits, t: Bits, f: Bits, i: nat, b: Bit)
    requires |t| == |f| && i < |t| && Known(b)
    ensures var truth := FoldBoolean.Truth(cond);
            var r := if truth == V1 then t else if truth == V0 then f else Blended(t, f);
            r[i] == b <==> forall c | Fills(c, cond) :: Chosen(FoldBoolean.AnyOne(c), t, f)[i] == b
  {
    var c0, c1 := FillWith(cond, V0), FillWith(cond, V1);
    FoldBoolean.TruthIsExact(cond, c0);
    FoldBoolean.TruthIsExact(cond, c1);
    forall c | Fills(c, cond)
      ensures FoldBoolean.Truth(cond) == V1 ==> FoldBoolean.AnyOne(c)
      ensures FoldBoolean.Truth(cond) == V0 ==> !FoldBoolean.AnyOne(c)
    {
      FoldBoolean.TruthIsExact(cond, c);
    }
    assert Chosen(FoldBoolean.AnyOne(c0), t, f)[i] == b || Chosen(FoldBoolean.AnyOne(c0), t, f)[i] != b;
    assert Chosen(FoldBoolean.AnyOne(c1), t, f)[i] == b || Chosen(FoldBoolean.AnyOne(c1), t, f)[i] != b;
  }
}
