/** The constant folding of $clog2. */
module Clog2 {
  import opened Prelude
  import opened Verinum
  import opened VerinumArith

  // ----- the ceiling logarithm -----

  function BitLength(n: nat): nat {
    if n == 0 then 0 else 1 + BitLength(n / 2)
  }

  /** The logarithm of a to base 2, rounded up; 0 for a = 0. */
  function CeilingLog(a: nat): nat {
    if a == 0 then 0 else BitLength(a - 1)
  }

  lemma {:induction false} BitLengthBounds(n: nat)
    ensures n < Pow2(BitLength(n))
    ensures n > 0 ==> Pow2(BitLength(n) - 1) <= n
  {
    if n > 1 {
      BitLengthBounds(n / 2);
    }
  }

  /** CeilingLog(a) is the least n with 2^n >= a. */
  lemma CeilingLogIsLeast(a: nat, n: nat)
    ensures n >= CeilingLog(a) <==> Pow2(n) >= a
  {
    if a > 0 {
      BitLengthBounds(a - 1);
      var c := BitLength(a - 1);
      if n >= c {
        Pow2Monotone(c, n);
      } else {
        Pow2Monotone(n, c - 1);
      }
    }
  }

  // ----- number operations -----

  /** A shift to the right; what is left has at least one bit, and is unsigned unless all was shifted out. */
  function ShiftedRight(v: Verinum, shift: nat): (r: Verinum)
    requires v.bits != []
    ensures r.bits != []
  {
    if shift >= |v.bits| then Verinum([if v.signed then Top(v.bits) else V0], v.signed, true, false)
    else Verinum(v.bits[shift..], false, v.hasLen, false)
  }

  /** The bits whose logarithm is taken: a negative number of indefinite length is trimmed first. */
  function Argument(v: Verinum): (bits: Bits)
    requires Operand(v.bits)
    ensures Operand(bits) && |bits| <= |v.bits|
  {
    TrimKeepsValue(v);
    if Negative(v) then Trim(v).bits else v.bits
  }

  function Log(v: Verinum, integerWidth: nat): nat
    requires Operand(v.bits)
  {
    var n := CeilingLog(Value(Argument(v)));
    if Negative(v) && n < integerWidth then integerWidth else n
  }

  lemma OneBit()
    ensures Value([V1]) == 1 && Operand([V1])
  {
    assert [V1][1..] == [];
  }

  /** Evaluating $clog2 of a constant: count the shifts that bring arg - 1 to zero. */
  method EvaluateClog2(value: Verinum, integerWidth: nat) returns (r: Verinum)
    requires value.bits != []
    ensures r.signed && r.hasLen && !r.isString && |r.bits| == integerWidth
    ensures !Defined(value.bits) ==> AllAre(r.bits, Vx)
    ensures Defined(value.bits) ==> r.bits == FromNat(Log(value, integerWidth), integerWidth)
  {
    var arg := value;
    if !Defined(arg.bits) {
      return Verinum(Repeat(Vx, integerWidth), true, true, false);
    }
    var isNeg := false;
    var res := 0;
    if Negative(arg) {
      isNeg := true;
      if !arg.hasLen {
        arg := TrimVnum(arg);
      }
    }
    arg := arg.(signed := false);
    assert arg.bits == Argument(value);
    ValueOfZero(arg.bits);
    if !IsZero(arg.bits) {
      arg := MinusOne(arg);
      ghost var start := Value(arg.bits);
      while !IsZero(arg.bits)
        invariant Operand(arg.bits) && !arg.signed
        invariant res + BitLength(Value(arg.bits)) == BitLength(start)
        decreases Value(arg.bits)
      {
        ValueOfZero(arg.bits);
        res := res + 1;
        ShiftHalves(arg);
        arg := ShiftedRight(arg, 1);
      }
      ValueOfZero(arg.bits);
    }
    if isNeg && res < integerWidth {
      res := integerWidth;
    }
    r := Verinum(FromNat(res, integerWidth), true, true, false);
  }

  method MinusOne(arg: Verinum) returns (r: Verinum)
    requires Operand(arg.bits) && !arg.signed && Value(arg.bits) > 0
    ensures Operand(r.bits) && !r.signed && Value(r.bits) == Value(arg.bits) - 1
  {
    OneBit();
    var one := Verinum([V1], false, true, false);
    r := Subtract(arg, one);
    DifferenceIsExact(arg, one);
    DifferenceLowBits(arg, one, 0, 0);
  }

  lemma ShiftHalves(v: Verinum)
    requires Operand(v.bits) && !v.signed
    ensures Operand(ShiftedRight(v, 1).bits) && !ShiftedRight(v, 1).signed
    ensures Value(ShiftedRight(v, 1).bits) == Value(v.bits) / 2
  {
    DigitIsParity(v.bits);
    if |v.bits| == 1 {
      assert [V0][1..] == [];
    }
  }

  /**
   * The argument of a negative number is its bits, read as unsigned: all of a sized one, and the fewest
   * that stand for it if it has no size.
   */
  lemma ArgumentOfNegative(v: Verinum)
    requires Operand(v.bits) && Negative(v)
    ensures v.hasLen ==> Value(Argument(v)) == Value(v.bits)
    ensures !v.hasLen ==>
              var a := Argument(v);
              && SignedValue(a) == IntValue(v) && Value(a) == IntValue(v) + Pow2(|a|)
              && (|a| > 1 ==> a[|a| - 1] != a[|a| - 2])
  {
    TrimKeepsValue(v);
    var a := Argument(v);
    Ranges(a, Pow2(|a| - 1));
  }

  /**
   * The result is the least n with 2^n at least the argument; a negative argument gives at least the
   * width of an integer. Nothing is lost as long as the answer fits a signed integer.
   */
  lemma Clog2IsCeilingLog(v: Verinum, integerWidth: nat, n: nat)
    requires Operand(v.bits) && 3 <= integerWidth && |v.bits| < Pow2(integerWidth - 1)
    ensures var r := SignedValue(FromNat(Log(v, integerWidth), integerWidth));
            && (!Negative(v) ==> (n >= r <==> Pow2(n) >= Value(v.bits)))
            && (Negative(v) ==> r >= integerWidth)
            && (Negative(v) ==> (n >= r <==> n >= integerWidth && Pow2(n) >= Value(Argument(v))))
  {
    var a := Argument(v);
    CeilingLogIsLeast(Value(a), n);
    CeilingLogIsLeast(Value(a), |a|);
    ValueBound(a);
    WidthFits(integerWidth);
    SmallIsItself(Log(v, integerWidth), integerWidth);
  }

  lemma {:induction false} WidthFits(w: nat)
    requires w >= 3
    ensures w < Pow2(w - 1)
  {
    if w > 3 {
      WidthFits(w - 1);
    } else {
      assert Pow2(2) == 4;
    }
  }

  lemma SmallIsItself(n: nat, w: nat)
    requires w > 0 && n < Pow2(w - 1)
    ensures SignedValue(FromNat(n, w)) == n
  {
    FromNatValue(n, w);
    Ranges(FromNat(n, w), Pow2(w - 1));
  }
}
