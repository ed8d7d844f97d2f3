/**
 * Arithmetic on Verilog numbers: ripple-carry addition and subtraction, padding, trimming and
 * shifting, each with the numeric value it computes.
 */
module VerinumArith {
  import opened Prelude
  import opened Verinum

  // ----- addition and subtraction -----

  /** One full adder: sum bit and carry; anything unknown makes both x. */
  function AddWithCarry(l: Bit, r: Bit, c: Bit): (Bit, Bit) {
    if !Known(c) || !Known(l) || !Known(r) then (Vx, Vx)
    else
      var sum := Digit(c) + Digit(l) + Digit(r);
      (if sum == 1 || sum == 3 then V1 else V0, if sum >= 2 then V1 else V0)
  }

  /** Rippling the carry through two vectors of one length. */
  function Ripple(u: Bits, v: Bits, c: Bit): (r: (Bits, Bit))
    requires |u| == |v|
    ensures |r.0| == |u|
  {
    if u == [] then ([], c)
    else
      var n := |u| - 1;
      var (sums, carry) := Ripple(u[..n], v[..n], c);
      var (sum, carry') := AddWithCarry(u[n], v[n], carry);
      (sums + [sum], carry')
  }

  /** What a bit at weight p contributes to a value. */
  function Weigh(b: Bit, p: nat): nat {
    if b == V1 then p else 0
  }

  lemma {:induction false} AppendDigit(v: Bits, b: Bit)
    ensures Value(v + [b]) == Value(v) + Weigh(b, Pow2(|v|))
  {
    if v == [] {
      assert (v + [b])[1..] == [];
    } else {
      AppendDigit(v[1..], b);
      assert (v + [b])[1..] == v[1..] + [b];
    }
  }

  /** One full adder at weight p: the sum bit stays, the carry weighs twice as much. */
  lemma FullAdder(l: Bit, r: Bit, c: Bit, p: nat)
    requires Known(l) && Known(r) && Known(c)
    ensures var (sum, carry) := AddWithCarry(l, r, c);
            && Known(sum) && Known(carry)
            && Weigh(sum, p) + Weigh(carry, 2 * p) == Weigh(l, p) + Weigh(r, p) + Weigh(c, p)
  {
    var total := Digit(c) + Digit(l) + Digit(r);
    assert total == 0 || total == 1 || total == 2 || total == 3;
  }

  lemma DefinedAppend(v: Bits, b: Bit)
    requires Defined(v) && Known(b)
    ensures Defined(v + [b])
  {
  }

  lemma DefinedParts(v: Bits, n: nat)
    requires Defined(v) && n <= |v|
    ensures Defined(v[..n]) && Defined(v[n..])
  {
  }

  /** The carry out is the sum's bit beyond the vectors. */
  lemma {:induction false} RippleIsAddition(u: Bits, v: Bits, c: Bit)
    requires |u| == |v| && Defined(u) && Defined(v) && Known(c)
    ensures var (sums, carry) := Ripple(u, v, c);
            && Defined(sums) && Known(carry)
            && Value(sums) + Weigh(carry, Pow2(|u|)) == Value(u) + Value(v) + Digit(c)
  {
    if u != [] {
      var n := |u| - 1;
      DefinedParts(u, n);
      DefinedParts(v, n);
      RippleIsAddition(u[..n], v[..n], c);
      var (sums, carry) := Ripple(u[..n], v[..n], c);
      var (sum, carry') := AddWithCarry(u[n], v[n], carry);
      FullAdder(u[n], v[n], carry, Pow2(n));
      DefinedAppend(sums, sum);
      LastDigit(u);
      LastDigit(v);
      AppendDigit(sums, sum);
      assert Ripple(u, v, c) == (sums + [sum], carry');
      assert Pow2(|u|) == 2 * Pow2(n);
    }
  }

  lemma LastDigit(v: Bits)
    requires v != []
    ensures Value(v) == Value(v[..|v| - 1]) + Weigh(Top(v), Pow2(|v| - 1))
  {
    assert v == v[..|v| - 1] + [Top(v)];
    AppendDigit(v[..|v| - 1], Top(v));
  }

  /** The bit an operand is continued with: its sign bit in signed arithmetic, else 0. */
  function SignPad(v: Verinum, signed: bool): Bit
    requires signed ==> v.bits != []
  {
    if signed then Top(v.bits) else V0
  }

  predicate BothSigned(l: Verinum, r: Verinum) {
    l.signed && r.signed
  }

  function Inverted(v: Bits): (r: Bits)
    ensures |r| == |v|
    ensures forall i | 0 <= i < |v| :: r[i] == NotBit(v[i])
  {
    seq(|v|, i requires 0 <= i < |v| => NotBit(v[i]))
  }

  /** The sum, one bit wider than the wider operand. */
  function Sum(l: Verinum, r: Verinum): Verinum
    requires BothSigned(l, r) ==> l.bits != [] && r.bits != []
  {
    var n := Longest(l.bits, r.bits) + 1;
    var s := BothSigned(l, r);
    Verinum(Ripple(ExtendTo(l.bits, SignPad(l, s), n), ExtendTo(r.bits, SignPad(r, s), n), V0).0, s, false, false)
  }

  /** All bits of l - r, one more than the wider operand has. */
  function DifferenceBits(l: Verinum, r: Verinum): (d: Bits)
    requires BothSigned(l, r) ==> l.bits != [] && r.bits != []
    ensures |d| == Longest(l.bits, r.bits) + 1
  {
    var n := Longest(l.bits, r.bits) + 1;
    var s := BothSigned(l, r);
    Ripple(ExtendTo(l.bits, SignPad(l, s), n), Inverted(ExtendTo(r.bits, SignPad(r, s), n)), V1).0
  }

  /** The difference, as wide as the wider operand; one more bit when a signed result needs it. */
  function Difference(l: Verinum, r: Verinum): Verinum
    requires BothSigned(l, r) ==> l.bits != [] && r.bits != []
  {
    var d := DifferenceBits(l, r);
    var max := Longest(l.bits, r.bits);
    var keep := if BothSigned(l, r) && d[max] != d[max - 1] then max + 1 else max;
    Verinum(d[..keep], BothSigned(l, r), false, false)
  }

  /** One more bit of a sum. */
  lemma RippleStep(a: Bits, b: Bits, c: Bit, idx: nat)
    requires |a| == |b| && idx < |a|
    ensures var (sums, carry) := Ripple(a[..idx], b[..idx], c);
            var (sum, carry') := AddWithCarry(a[idx], b[idx], carry);
            Ripple(a[..idx + 1], b[..idx + 1], c) == (sums + [sum], carry')
  {
    assert a[..idx + 1][..idx] == a[..idx] && b[..idx + 1][..idx] == b[..idx];
  }

  /** A bit at a time from the low end: add u and v continued with their pads to n bits. */
  method RippleLoop(u: Bits, v: Bits, upad: Bit, vpad: Bit, carryIn: Bit, n: nat) returns (bits: Bits)
    requires |u| <= n && |v| <= n
    ensures bits == Ripple(ExtendTo(u, upad, n), ExtendTo(v, vpad, n), carryIn).0
  {
    ghost var a, b := ExtendTo(u, upad, n), ExtendTo(v, vpad, n);
    var carry := carryIn;
    bits := [];
    for idx := 0 to n
      invariant (bits, carry) == Ripple(a[..idx], b[..idx], carryIn)
    {
      var l := if idx < |u| then u[idx] else upad;
      var r := if idx < |v| then v[idx] else vpad;
      RippleStep(a, b, carryIn, idx);
      var (sum, c) := AddWithCarry(l, r, carry);
      bits := bits + [sum];
      carry := c;
    }
    assert a[..n] == a && b[..n] == b;
  }

  /** Adding two numbers. */
  method Add(l: Verinum, r: Verinum) returns (res: Verinum)
    requires BothSigned(l, r) ==> l.bits != [] && r.bits != []
    ensures res == Sum(l, r)
  {
    var signedFlag := BothSigned(l, r);
    var lpad := if signedFlag then Top(l.bits) else V0;
    var rpad := if signedFlag then Top(r.bits) else V0;
    var bits := RippleLoop(l.bits, r.bits, lpad, rpad, V0, Longest(l.bits, r.bits) + 1);
    res := Verinum(bits, signedFlag, false, false);
  }

  lemma InvertedExtension(v: Bits, pad: Bit, n: nat)
    requires |v| <= n
    ensures ExtendTo(Inverted(v), NotBit(pad), n) == Inverted(ExtendTo(v, pad, n))
  {
    var e, f := ExtendTo(v, pad, n), ExtendTo(Inverted(v), NotBit(pad), n);
    forall i | 0 <= i < n ensures f[i] == NotBit(e[i]) {
      if i < |v| {
        assert e[i] == e[..|v|][i] && f[i] == f[..|v|][i];
      }
    }
  }

  /** Subtracting, as adding the complement with a carry in. */
  method Subtract(l: Verinum, r: Verinum) returns (res: Verinum)
    requires BothSigned(l, r) ==> l.bits != [] && r.bits != []
    ensures res == Difference(l, r)
  {
    var signedFlag := BothSigned(l, r);
    var max := Longest(l.bits, r.bits);
    var rpad := if signedFlag then NotBit(Top(r.bits)) else V1;
    var lpad := if signedFlag then Top(l.bits) else V0;
    var bits := RippleLoop(l.bits, Inverted(r.bits), lpad, rpad, V1, max + 1);
    InvertedExtension(r.bits, SignPad(r, signedFlag), max + 1);
    if signedFlag && bits[max] != bits[max - 1] {
      max := max + 1;
    }
    res := Verinum(bits[..max], signedFlag, false, false);
  }

  // ----- values -----

  /** What a number stands for: two's complement if signed. */
  function IntValue(v: Verinum): int
    requires v.signed ==> v.bits != []
  {
    if v.signed then SignedValue(v.bits) else Value(v.bits)
  }

  /** A signed number below 0. */
  predicate Negative(v: Verinum)
    requires v.bits != []
  {
    v.signed && Top(v.bits) == V1
  }

  lemma {:induction false} ComplementValue(v: Bits)
    requires Defined(v)
    ensures Defined(Inverted(v)) && Value(Inverted(v)) == Pow2(|v|) - 1 - Value(v)
  {
    if v != [] {
      ComplementValue(v[1..]);
      assert Inverted(v)[1..] == Inverted(v[1..]);
    }
  }

  lemma {:induction false} ExtendedValue(v: Bits, b: Bit, n: nat)
    requires |v| <= n
    ensures Value(ExtendTo(v, b, n)) == Value(v) + if b == V1 then Pow2(n) - Pow2(|v|) else 0
    decreases n
  {
    if n == |v| {
      assert ExtendTo(v, b, n) == v;
    } else {
      ExtendedValue(v, b, n - 1);
      var e := ExtendTo(v, b, n);
      assert e == ExtendTo(v, b, n - 1) + [b] by {
        forall i | 0 <= i < |v| ensures e[i] == ExtendTo(v, b, n - 1)[i] {
          assert e[..|v|][i] == ExtendTo(v, b, n - 1)[..|v|][i];
        }
      }
      AppendDigit(ExtendTo(v, b, n - 1), b);
    }
  }

  /** Continuing a vector with its sign bit keeps its signed value; with zeros, its value. */
  lemma ExtendKeepsValue(v: Bits, n: nat)
    requires |v| <= n && Operand(v)
    ensures Value(ExtendTo(v, V0, n)) == Value(v)
    ensures SignedValue(ExtendTo(v, Top(v), n)) == SignedValue(v)
    ensures Top(ExtendTo(v, Top(v), n)) == Top(v)
    ensures Defined(ExtendTo(v, V0, n)) && Defined(ExtendTo(v, Top(v), n))
  {
    ExtendedValue(v, V0, n);
    ExtendDefined(v, V0, n);
    ExtendDefined(v, Top(v), n);
    ExtendWithSign(v, n);
  }

  lemma ExtendWithSign(v: Bits, n: nat)
    requires |v| <= n && v != []
    ensures SignedValue(ExtendTo(v, Top(v), n)) == SignedValue(v)
    ensures Top(ExtendTo(v, Top(v), n)) == Top(v)
  {
    ExtendedValue(v, Top(v), n);
    var e := ExtendTo(v, Top(v), n);
    assert e[n - 1] == Top(v);
  }

  lemma ExtendDefined(v: Bits, b: Bit, n: nat)
    requires |v| <= n && Defined(v) && Known(b)
    ensures Defined(ExtendTo(v, b, n))
  {
    var e := ExtendTo(v, b, n);
    forall i | 0 <= i < n ensures Known(e[i]) {
      if i < |v| { assert e[..|v|][i] == e[i]; }
    }
  }

  predicate Operand(v: Bits) {
    v != [] && Defined(v)
  }

  /** The low w bits of an extended vector are those of the vector. */
  lemma ExtendPrefix(v: Bits, pad: Bit, n: nat, w: nat)
    requires w <= |v| <= n
    ensures ExtendTo(v, pad, n)[..w] == v[..w]
  {
    assert ExtendTo(v, pad, n)[..|v|][..w] == ExtendTo(v, pad, n)[..w];
  }

  /** The low w bits of a sum are the sum of the low w bits, modulo 2^w. */
  lemma SumLowBits(l: Verinum, r: Verinum, w: nat, total: int)
    requires Operand(l.bits) && Operand(r.bits) && w <= |l.bits| && w <= |r.bits|
    requires total == Value(l.bits[..w]) + Value(r.bits[..w])
    ensures |Sum(l, r).bits| == Longest(l.bits, r.bits) + 1 && Defined(Sum(l, r).bits)
    ensures Value(Sum(l, r).bits[..w]) == Wrap(total, Pow2(w))
  {
    var a, b := ContinuedOperands(l, r, w);
    assert Sum(l, r).bits == Ripple(a, b, V0).0;
    RippleIsAddition(a, b, V0);
    RippleLowBits(a, b, V0, w, total);
  }

  lemma {:induction false} RipplePrefix(u: Bits, v: Bits, c: Bit, w: nat)
    requires |u| == |v| && w <= |u|
    ensures Ripple(u, v, c).0[..w] == Ripple(u[..w], v[..w], c).0
    decreases |u|
  {
    if w < |u| {
      var n := |u| - 1;
      RipplePrefix(u[..n], v[..n], c, w);
      assert u[..n][..w] == u[..w] && v[..n][..w] == v[..w];
      assert Ripple(u, v, c).0[..n] == Ripple(u[..n], v[..n], c).0;
      assert Ripple(u, v, c).0[..n][..w] == Ripple(u, v, c).0[..w];
    } else {
      assert u[..w] == u && v[..w] == v;
      assert Ripple(u, v, c).0[..w] == Ripple(u, v, c).0;
    }
  }

  lemma RippleLowBits(u: Bits, v: Bits, c: Bit, w: nat, total: int)
    requires |u| == |v| && Defined(u) && Defined(v) && Known(c) && w <= |u|
    requires total == Value(u[..w]) + Value(v[..w]) + Digit(c)
    ensures Value(Ripple(u, v, c).0[..w]) == Wrap(total, Pow2(w))
  {
    RipplePrefix(u, v, c, w);
    DefinedParts(u, w);
    DefinedParts(v, w);
    RippleWraps(u[..w], v[..w], c, total);
  }

  /** The sum bits alone are the sum modulo 2^n. */
  lemma RippleWraps(u: Bits, v: Bits, c: Bit, total: int)
    requires |u| == |v| && Defined(u) && Defined(v) && Known(c)
    requires total == Value(u) + Value(v) + Digit(c)
    ensures Value(Ripple(u, v, c).0) == Wrap(total, Pow2(|u|))
  {
    RippleIsAddition(u, v, c);
    ValueBound(Ripple(u, v, c).0);
    WrapOnce(total, Pow2(|u|), Value(Ripple(u, v, c).0));
  }

  lemma WrapOnce(a: int, p: nat, r: nat)
    requires p > 0 && r < p && (a == r || a == r + p || a == r - p)
    ensures Wrap(a, p) == r
  {
  }

  /** The low w bits of a difference, modulo 2^w. */
  lemma DifferenceLowBits(l: Verinum, r: Verinum, w: nat, total: int)
    requires Operand(l.bits) && Operand(r.bits) && w <= |l.bits| && w <= |r.bits|
    requires total == Value(l.bits[..w]) - Value(r.bits[..w])
    ensures |Difference(l, r).bits| >= Longest(l.bits, r.bits) && Defined(Difference(l, r).bits)
    ensures Value(Difference(l, r).bits[..w]) == Wrap(total, Pow2(w))
  {
    AllDifferenceBits(l, r, w, total);
    DifferenceKeeps(l, r, w);
  }

  lemma AllDifferenceBits(l: Verinum, r: Verinum, w: nat, total: int)
    requires Operand(l.bits) && Operand(r.bits) && w <= |l.bits| && w <= |r.bits|
    requires total == Value(l.bits[..w]) - Value(r.bits[..w])
    ensures Defined(DifferenceBits(l, r)) && Value(DifferenceBits(l, r)[..w]) == Wrap(total, Pow2(w))
  {
    var a, e := ContinuedOperands(l, r, w);
    assert DifferenceBits(l, r) == Ripple(a, Inverted(e), V1).0;
    RippleDifferenceBits(a, e, w, total);
  }

  /** Both operands continued to one more bit than the wider one has. */
  lemma ContinuedOperands(l: Verinum, r: Verinum, w: nat) returns (a: Bits, b: Bits)
    requires Operand(l.bits) && Operand(r.bits) && w <= |l.bits| && w <= |r.bits|
    ensures var (n, s) := (Longest(l.bits, r.bits) + 1, BothSigned(l, r));
            && a == ExtendTo(l.bits, SignPad(l, s), n) && b == ExtendTo(r.bits, SignPad(r, s), n)
    ensures |a| == |b| == Longest(l.bits, r.bits) + 1 && Defined(a) && Defined(b)
    ensures a[..w] == l.bits[..w] && b[..w] == r.bits[..w]
  {
    var n, s := Longest(l.bits, r.bits) + 1, BothSigned(l, r);
    a, b := ExtendTo(l.bits, SignPad(l, s), n), ExtendTo(r.bits, SignPad(r, s), n);
    ContinuedOperand(l.bits, SignPad(l, s), n, w);
    ContinuedOperand(r.bits, SignPad(r, s), n, w);
  }

  lemma ContinuedOperand(v: Bits, pad: Bit, n: nat, w: nat)
    requires Defined(v) && Known(pad) && w <= |v| <= n
    ensures Defined(ExtendTo(v, pad, n)) && ExtendTo(v, pad, n)[..w] == v[..w]
  {
    ExtendDefined(v, pad, n);
    ExtendPrefix(v, pad, n, w);
  }

  lemma DifferenceKeeps(l: Verinum, r: Verinum, w: nat)
    requires Operand(l.bits) && Operand(r.bits) && w <= Longest(l.bits, r.bits)
    requires Defined(DifferenceBits(l, r))
    ensures |Difference(l, r).bits| >= Longest(l.bits, r.bits) && Defined(Difference(l, r).bits)
    ensures Difference(l, r).bits[..w] == DifferenceBits(l, r)[..w]
  {
    var d := DifferenceBits(l, r);
    DefinedParts(d, |Difference(l, r).bits|);
    assert d[..|Difference(l, r).bits|][..w] == d[..w];
  }

  lemma RippleDifferenceBits(a: Bits, e: Bits, w: nat, total: int)
    requires |a| == |e| && Defined(a) && Defined(e) && w <= |a|
    requires total == Value(a[..w]) - Value(e[..w])
    ensures Defined(Ripple(a, Inverted(e), V1).0)
    ensures Value(Ripple(a, Inverted(e), V1).0[..w]) == Wrap(total, Pow2(w))
  {
    ComplementValue(e);
    RippleIsAddition(a, Inverted(e), V1);
    RipplePrefix(a, Inverted(e), V1, w);
    DefinedParts(a, w);
    DefinedParts(e, w);
    assert Inverted(e)[..w] == Inverted(e[..w]);
    DifferenceOf(a[..w], e[..w], total);
  }

  /** Adding the complement and one, in w bits, is subtracting modulo 2^w. */
  lemma DifferenceOf(u: Bits, v: Bits, total: int)
    requires |u| == |v| && Defined(u) && Defined(v)
    requires total == Value(u) - Value(v)
    ensures Value(Ripple(u, Inverted(v), V1).0) == Wrap(total, Pow2(|u|))
  {
    ComplementValue(v);
    RippleIsAddition(u, Inverted(v), V1);
    ValueBound(Ripple(u, Inverted(v), V1).0);
    WrapOnce(total, Pow2(|u|), Value(Ripple(u, Inverted(v), V1).0));
  }

  /** Bounds on values and signed values of n bits, with the weight h of the sign bit. */
  lemma Ranges(v: Bits, h: nat)
    requires v != [] && h == Pow2(|v| - 1)
    ensures Pow2(|v|) == 2 * h
    ensures 0 <= Value(v) < 2 * h
    ensures Top(v) == V1 <==> Value(v) >= h
    ensures -(h as int) <= SignedValue(v) < h
  {
    var n := |v| - 1;
    assert v == v[..n] + [v[n]];
    AppendDigit(v[..n], v[n]);
    ValueBound(v[..n]);
  }

  /** A vector congruent to a number that fits it stands for that number. */
  lemma SignedFromCongruent(v: Bits, x: int, h: nat)
    requires v != [] && h == Pow2(|v| - 1)
    requires -(h as int) <= x < h
    requires Value(v) == x || Value(v) == x + 2 * h || Value(v) == x + 4 * h || Value(v) == x - 2 * h
    ensures SignedValue(v) == x
  {
    Ranges(v, h);
  }

  /** An operand continued to n bits keeps what it stands for, which fits n - 1 bits. */
  lemma ExtendedOperand(v: Verinum, n: nat)
    requires Operand(v.bits) && |v.bits| < n
    ensures var e := ExtendTo(v.bits, SignPad(v, v.signed), n);
            && Defined(e)
            && (if v.signed then SignedValue(e) else Value(e)) == IntValue(v)
    ensures v.signed ==> -(Pow2(n - 1) as int) <= 2 * IntValue(v) < Pow2(n - 1)
    ensures !v.signed ==> 0 <= IntValue(v) < Pow2(n - 1)
  {
    ExtendKeepsValue(v.bits, n);
    ValueBound(v.bits);
    Ranges(v.bits, Pow2(|v.bits| - 1));
    Pow2Monotone(|v.bits|, n - 1);
  }

  /** Addition never overflows: the result stands for the exact sum. */
  lemma SumIsExact(l: Verinum, r: Verinum)
    requires Operand(l.bits) && Operand(r.bits) && l.signed == r.signed
    ensures IntValue(Sum(l, r)) == IntValue(l) + IntValue(r)
  {
    if l.signed {
      SignedSumIsExact(l, r);
    } else {
      UnsignedSumIsExact(l, r);
    }
  }

  /** Signed operands continued to one more bit than the wider one has: their sum and difference fit. */
  lemma SignedOperands(l: Verinum, r: Verinum) returns (a: Bits, b: Bits, h: nat)
    requires Operand(l.bits) && Operand(r.bits) && l.signed && r.signed
    ensures var n := Longest(l.bits, r.bits) + 1;
            && a == ExtendTo(l.bits, Top(l.bits), n) && b == ExtendTo(r.bits, Top(r.bits), n) && h == Pow2(n - 1)
    ensures a != [] && |a| == |b| && Defined(a) && Defined(b) && h == Pow2(|a| - 1)
    ensures SignedValue(a) == IntValue(l) && SignedValue(b) == IntValue(r)
    ensures -(h as int) <= SignedValue(a) + SignedValue(b) < h
    ensures -(h as int) <= SignedValue(a) - SignedValue(b) < h
  {
    var n := Longest(l.bits, r.bits) + 1;
    a, b, h := ExtendTo(l.bits, Top(l.bits), n), ExtendTo(r.bits, Top(r.bits), n), Pow2(n - 1);
    ExtendedOperand(l, n);
    ExtendedOperand(r, n);
  }

  lemma SignedSumIsExact(l: Verinum, r: Verinum)
    requires Operand(l.bits) && Operand(r.bits) && l.signed && r.signed
    ensures IntValue(Sum(l, r)) == IntValue(l) + IntValue(r)
  {
    var a, b, h := SignedOperands(l, r);
    SignedSum(a, b, h);
    assert Sum(l, r) == Verinum(Ripple(a, b, V0).0, true, false, false);
  }

  lemma UnsignedSumIsExact(l: Verinum, r: Verinum)
    requires Operand(l.bits) && Operand(r.bits) && !l.signed && !r.signed
    ensures IntValue(Sum(l, r)) == IntValue(l) + IntValue(r)
  {
    var n := Longest(l.bits, r.bits) + 1;
    var a, b := ExtendTo(l.bits, V0, n), ExtendTo(r.bits, V0, n);
    ExtendedOperand(l, n);
    ExtendedOperand(r, n);
    assert Sum(l, r).bits == Ripple(a, b, V0).0;
    UnsignedSum(a, b, Pow2(n - 1));
  }

  lemma SignedSum(a: Bits, b: Bits, h: nat)
    requires a != [] && |a| == |b| && Defined(a) && Defined(b) && h == Pow2(|a| - 1)
    requires -(h as int) <= SignedValue(a) + SignedValue(b) < h
    ensures SignedValue(Ripple(a, b, V0).0) == SignedValue(a) + SignedValue(b)
  {
    RippleIsAddition(a, b, V0);
    var sums := Ripple(a, b, V0).0;
    Ranges(a, h);
    Ranges(b, h);
    Ranges(sums, h);
    SignedFromCongruent(sums, SignedValue(a) + SignedValue(b), h);
  }

  lemma UnsignedSum(a: Bits, b: Bits, h: nat)
    requires a != [] && |a| == |b| && Defined(a) && Defined(b) && h == Pow2(|a| - 1)
    requires Value(a) + Value(b) < 2 * h
    ensures Value(Ripple(a, b, V0).0) == Value(a) + Value(b)
  {
    RippleIsAddition(a, b, V0);
    Ranges(Ripple(a, b, V0).0, h);
  }

  /** Signed subtraction never overflows; unsigned subtraction is exact when it stays non-negative. */
  lemma DifferenceIsExact(l: Verinum, r: Verinum)
    requires Operand(l.bits) && Operand(r.bits) && l.signed == r.signed
    requires !l.signed ==> Value(l.bits) >= Value(r.bits)
    ensures IntValue(Difference(l, r)) == IntValue(l) - IntValue(r)
  {
    if l.signed {
      SignedDifferenceIsExact(l, r);
    } else {
      UnsignedDifferenceIsExact(l, r);
    }
  }

  lemma SignedDifferenceIsExact(l: Verinum, r: Verinum)
    requires Operand(l.bits) && Operand(r.bits) && l.signed && r.signed
    ensures IntValue(Difference(l, r)) == IntValue(l) - IntValue(r)
  {
    var a, b, h := SignedOperands(l, r);
    SignedDifference(a, b, h);
    var d := Ripple(a, Inverted(b), V1).0;
    assert DifferenceBits(l, r) == d;
    DroppedSignBit(d);
    KeptBits(l, r, d);
  }

  /** The top bit goes if it says nothing. */
  lemma KeptBits(l: Verinum, r: Verinum, d: Bits)
    requires l.bits != [] && r.bits != [] && l.signed && r.signed && d == DifferenceBits(l, r)
    ensures |d| >= 2 && Difference(l, r).signed
    ensures Difference(l, r).bits == if d[|d| - 1] == d[|d| - 2] then d[..|d| - 1] else d
  {
    assert d[..|d|] == d;
  }

  lemma UnsignedDifferenceIsExact(l: Verinum, r: Verinum)
    requires Operand(l.bits) && Operand(r.bits) && !l.signed && !r.signed
    requires Value(l.bits) >= Value(r.bits)
    ensures IntValue(Difference(l, r)) == IntValue(l) - IntValue(r)
  {
    var a, e, h := UnsignedOperands(l, r);
    UnsignedDifference(a, e, h);
  }

  /** Unsigned operands continued to one more bit than the wider one has, of which their difference drops one. */
  lemma UnsignedOperands(l: Verinum, r: Verinum) returns (a: Bits, e: Bits, h: nat)
    requires Operand(l.bits) && Operand(r.bits) && !l.signed && !r.signed
    ensures a != [] && |a| == |e| && Defined(a) && Defined(e) && h == Pow2(|a| - 1)
    ensures Value(a) == Value(l.bits) < h && Value(e) == Value(r.bits) < h
    ensures h == Pow2(Longest(l.bits, r.bits))
    ensures Difference(l, r).bits == Ripple(a, Inverted(e), V1).0[..|a| - 1] && !Difference(l, r).signed
  {
    var n := Longest(l.bits, r.bits) + 1;
    a, e, h := ExtendTo(l.bits, V0, n), ExtendTo(r.bits, V0, n), Pow2(n - 1);
    ExtendedOperand(l, n);
    ExtendedOperand(r, n);
  }

  lemma SignedDifference(a: Bits, e: Bits, h: nat)
    requires a != [] && |a| == |e| && Defined(a) && Defined(e) && h == Pow2(|a| - 1)
    requires -(h as int) <= SignedValue(a) - SignedValue(e) < h
    ensures var d := Ripple(a, Inverted(e), V1).0;
            Defined(d) && SignedValue(d) == SignedValue(a) - SignedValue(e)
  {
    ComplementValue(e);
    RippleIsAddition(a, Inverted(e), V1);
    var d := Ripple(a, Inverted(e), V1).0;
    Ranges(a, h);
    Ranges(e, h);
    Ranges(d, h);
    SignedFromCongruent(d, SignedValue(a) - SignedValue(e), h);
  }

  lemma UnsignedDifference(a: Bits, e: Bits, h: nat)
    requires a != [] && |a| == |e| && Defined(a) && Defined(e) && h == Pow2(|a| - 1)
    requires 0 <= Value(a) - Value(e) < h
    ensures var d := Ripple(a, Inverted(e), V1).0;
            Value(d[..|a| - 1]) == Value(a) - Value(e)
  {
    ComplementValue(e);
    RippleIsAddition(a, Inverted(e), V1);
    var d := Ripple(a, Inverted(e), V1).0;
    Ranges(d, h);
    LastDigit(d);
  }

  /** Unsigned subtraction that borrows wraps at the wider operand's width. */
  lemma DifferenceBorrows(l: Verinum, r: Verinum)
    requires Operand(l.bits) && Operand(r.bits) && !l.signed && !r.signed && Value(l.bits) < Value(r.bits)
    ensures IntValue(Difference(l, r)) == Value(l.bits) - Value(r.bits) + Pow2(Longest(l.bits, r.bits))
  {
    var a, e, h := UnsignedOperands(l, r);
    BorrowedDifference(a, e, h);
  }

  lemma BorrowedDifference(a: Bits, e: Bits, h: nat)
    requires a != [] && |a| == |e| && Defined(a) && Defined(e) && h == Pow2(|a| - 1)
    requires -(h as int) <= Value(a) - Value(e) < 0
    ensures var d := Ripple(a, Inverted(e), V1).0;
            Value(d[..|a| - 1]) == Value(a) - Value(e) + h
  {
    ComplementValue(e);
    RippleIsAddition(a, Inverted(e), V1);
    var d := Ripple(a, Inverted(e), V1).0;
    Ranges(d, h);
    LastDigit(d);
  }

  /** A sign bit equal to the one below it can go. */
  lemma DroppedSignBit(d: Bits)
    requires |d| >= 2 && Defined(d)
    ensures d[|d| - 1] == d[|d| - 2] ==> SignedValue(d[..|d| - 1]) == SignedValue(d)
    ensures d[..|d|] == d
  {
    var n := |d| - 1;
    assert d == d[..n] + [d[n]];
    AppendDigit(d[..n], d[n]);
  }

  // ----- resizing -----

  /** A copy of n bits: truncated, or continued with the sign bit or zeros. */
  function Resize(v: Verinum, n: nat): (r: Verinum)
    requires v.bits != []
    ensures |r.bits| == n
  {
    Verinum(if n <= |v.bits| then v.bits[..n] else ExtendTo(v.bits, SignPad(v, v.signed), n), v.signed, true, false)
  }

  /** Padding a number that is not a string to at least n bits. */
  function PadToWidth(v: Verinum, n: nat): (r: Verinum)
    requires !v.isString
    ensures |r.bits| == if |v.bits| >= n then |v.bits| else n
  {
    if |v.bits| >= n then v
    else if v.bits == [] then Verinum(Repeat(V0, n), v.signed, v.hasLen, false)
    else
      var pad := if v.signed then Top(v.bits)
                 else if Top(v.bits) == V1 then V0
                 else if v.hasLen then V0 else Top(v.bits);
      Verinum(ExtendTo(v.bits, pad, n), v.signed, v.hasLen, false)
  }

  /** The highest position at or below top that does not hold b; 0 if there is none. */
  function LastOther(v: Bits, b: Bit, top: nat): (t: nat)
    requires top < |v|
    ensures t <= top && (t > 0 ==> v[t] != b)
    ensures forall i | t < i <= top :: v[i] == b
  {
    if top > 0 && v[top] == b then LastOther(v, b, top - 1) else top
  }

  /** How many bits a number of indefinite length needs. */
  function TrimmedLength(v: Verinum): (n: nat)
    requires v.bits != []
    ensures 0 < n <= |v.bits|
  {
    var max := |v.bits| - 1;
    if v.signed then
      var top := LastOther(v.bits, Top(v.bits), max);
      if v.bits[top] != Top(v.bits) then top + 2 else top + 1
    else
      var top := LastOther(v.bits, V0, max);
      if top == max then |v.bits| else if v.bits[top] == V0 then top + 1 else top + 2
  }

  function Trim(v: Verinum): Verinum {
    if v.hasLen || |v.bits| < 2 then v
    else if !v.signed && LastOther(v.bits, V0, |v.bits| - 1) == |v.bits| - 1 then v
    else Verinum(v.bits[..TrimmedLength(v)], v.signed, false, false)
  }

  /** Dropping the bits a number of indefinite length does not need. */
  method TrimVnum(v: Verinum) returns (r: Verinum)
    ensures r == Trim(v)
  {
    if v.hasLen || |v.bits| < 2 {
      return v;
    }
    var tlen;
    var top := |v.bits| - 1;
    if v.signed {
      var sign := v.bits[top];
      while top > 0 && v.bits[top] == sign
        invariant 0 <= top < |v.bits|
        invariant LastOther(v.bits, sign, |v.bits| - 1) == LastOther(v.bits, sign, top)
      {
        top := top - 1;
      }
      if v.bits[top] != sign {
        top := top + 1;
      }
      tlen := top + 1;
    } else {
      while top > 0 && v.bits[top] == V0
        invariant 0 <= top < |v.bits|
        invariant LastOther(v.bits, V0, |v.bits| - 1) == LastOther(v.bits, V0, top)
      {
        top := top - 1;
      }
      if top + 1 == |v.bits| {
        return v;
      }
      tlen := top + 2;
      if v.bits[top] == V0 {
        tlen := tlen - 1;
      }
    }
    r := Verinum(v.bits[..tlen], v.signed, false, false);
  }

  /** Trimming loses nothing, and what is left has no redundant sign bit. */
  lemma TrimKeepsValue(v: Verinum)
    requires Operand(v.bits)
    ensures Operand(Trim(v).bits) && Trim(v).signed == v.signed && Trim(v).hasLen == v.hasLen
    ensures IntValue(Trim(v)) == IntValue(v)
    ensures !v.hasLen && v.signed && |Trim(v).bits| >= 2 ==> Top(Trim(v).bits) != Trim(v).bits[|Trim(v).bits| - 2]
  {
    if Trim(v) != v {
      var n := TrimmedLength(v);
      DefinedParts(v.bits, n);
      TrimmedExtends(v);
      ExtendKeepsValue(v.bits[..n], |v.bits|);
    }
  }

  /** No redundant sign bit, or for an unsigned number at most one leading zero. */
  predicate NoneSpare(v: Verinum) {
    |v.bits| >= 2 ==>
      if v.signed then Top(v.bits) != v.bits[|v.bits| - 2] else Top(v.bits) == V1 || v.bits[|v.bits| - 2] == V1
  }

  lemma TrimSparesNone(v: Verinum)
    requires Operand(v.bits) && !v.hasLen
    ensures NoneSpare(Trim(v))
  {
    if v.signed {
      TrimKeepsValue(v);
    } else if Trim(v) == v && |v.bits| >= 2 {
      assert v.bits[..|v.bits|] == v.bits;
    }
  }

  /** What trimming drops is the continuation of what it keeps. */
  lemma TrimmedExtends(v: Verinum)
    requires Operand(v.bits) && !v.hasLen
    ensures var low := v.bits[..TrimmedLength(v)];
            v.bits == ExtendTo(low, SignPad(v.(bits := low), v.signed), |v.bits|)
  {
    var n := TrimmedLength(v);
    var pad := SignPad(v, v.signed);
    assert v.signed ==> v.bits[n - 1] == pad;
    var e := ExtendTo(v.bits[..n], pad, |v.bits|);
    forall i | 0 <= i < |v.bits| ensures v.bits[i] == e[i] {
      if i < n { assert e[..n][i] == e[i]; }
    }
  }

  /** A number as a native signed integer: 0 if undefined, else the low 63 bits with the sign. */
  function AsLong(v: Verinum): int {
    if v.bits == [] || !Defined(v.bits) then 0
    else
      var t := if |v.bits| > 63 then 63 else |v.bits|;
      Value(v.bits[..t]) - (if v.signed && Top(v.bits) == V1 then Pow2(t) else 0)
  }

  /** The low w bits of n. */
  function FromNat(n: nat, w: nat): (v: Bits)
    ensures |v| == w && Defined(v)
  {
    if w == 0 then [] else
      var rest := FromNat(n / 2, w - 1);
      [BitOf(n)] + rest
  }

  lemma {:induction false} FromNatValue(n: nat, w: nat)
    requires n < Pow2(w)
    ensures Value(FromNat(n, w)) == n
  {
    if w > 0 {
      FromNatValue(n / 2, w - 1);
      assert FromNat(n, w)[1..] == FromNat(n / 2, w - 1);
    }
  }

  // ----- values modulo 2^w -----

  /** What the number is, modulo 2^w. */
  function Residue(v: Verinum, w: nat): nat
    requires v.bits != []
  {
    Wrap(IntValue(v), Pow2(w))
  }

  lemma {:induction false} WrapMultiple(a: int, p: nat, k: nat)
    requires p > 0
    ensures Wrap(a + p * k, p) == Wrap(a, p)
    ensures Wrap(a - p * k, p) == Wrap(a, p)
  {
    if k > 0 {
      WrapMultiple(a, p, k - 1);
      assert p * k == p * (k - 1) + p;
      WrapShift(a + p * (k - 1), p);
      WrapShift(a - p * k, p);
    }
  }

  lemma WrapMultipleOf(a: int, p: nat, k: nat, multiple: nat)
    requires p > 0 && multiple == p * k
    ensures Wrap(a + multiple, p) == Wrap(a, p)
    ensures Wrap(a - multiple, p) == Wrap(a, p)
  {
    WrapMultiple(a, p, k);
  }

  /** Moving by h, less than p, changes the residue. */
  lemma DistinctResidues(a: int, h: nat, p: nat)
    requires 0 < h < p
    ensures Wrap(a, p) != Wrap(a + h, p) && Wrap(a, p) != Wrap(a - h, p)
  {
    WrapSum(a, h, p);
    WrapSum(a - h, h, p);
  }

  /** Moving by a power of two changes the residue exactly when the power is below the modulus. */
  lemma BorrowSeen(a: int, m: nat, w: nat)
    ensures Wrap(a + Pow2(m), Pow2(w)) == Wrap(a, Pow2(w)) <==> m >= w
  {
    if m >= w {
      Pow2Add(w, m - w);
      WrapMultiple(a, Pow2(w), Pow2(m - w));
    } else {
      Pow2Monotone(m + 1, w);
      DistinctResidues(a, Pow2(m), Pow2(w));
    }
  }

  /** Numbers that differ by a power of two have the same residue exactly when the power is no less than the modulus. */
  lemma PowerSeen(a: int, b: int, k: nat, w: nat)
    requires b == a + Pow2(k) || b == a - Pow2(k)
    ensures Wrap(b, Pow2(w)) == Wrap(a, Pow2(w)) <==> k >= w
  {
    if b == a + Pow2(k) {
      BorrowSeen(a, k, w);
    } else {
      BorrowSeen(b, k, w);
    }
  }

  /** The residue is read off the low w bits. */
  lemma ResidueIsLowBits(v: Verinum, w: nat)
    requires v.bits != [] && w <= |v.bits|
    ensures Residue(v, w) == Value(v.bits[..w])
  {
    var n := |v.bits|;
    ValueParts(v.bits, w);
    Pow2Add(w, n - w);
    LowResidue(Value(v.bits[..w]), Value(v.bits[w..]), Pow2(w), Pow2(n - w), Pow2(n), IntValue(v));
  }

  lemma LowResidue(low: nat, high: nat, p: nat, q: nat, pq: nat, x: int)
    requires low < p && pq == p * q && (x == low + p * high || x == low + p * high - pq)
    ensures Wrap(x, p) == low
  {
    WrapMultipleOf(low, p, high, p * high);
    WrapMultipleOf(low + p * high, p, q, pq);
  }

  /** A value below 2^n is held by the low n bits. */
  lemma LowBitsHoldValue(v: Bits, n: nat)
    requires n <= |v| && Value(v) < Pow2(n)
    ensures Value(v[..n]) == Value(v)
  {
    ValueParts(v, n);
    if Value(v[n..]) >= 1 {
      MultiplyAtLeast(Pow2(n), Value(v[n..]));
    }
  }

  /** Resizing to at least w bits keeps the residue. */
  lemma ResizeKeepsResidue(v: Verinum, n: nat, w: nat)
    requires Operand(v.bits) && 0 < n && w <= n
    ensures Operand(Resize(v, n).bits)
    ensures Residue(Resize(v, n), w) == Residue(v, w)
  {
    if n <= |v.bits| {
      DefinedParts(v.bits, n);
      ResidueIsLowBits(v, w);
      ResidueIsLowBits(Resize(v, n), w);
      assert v.bits[..n][..w] == v.bits[..w];
    } else {
      ExtendKeepsValue(v.bits, n);
    }
  }

  /** With an unknown top bit a number goes on with that bit, unless it is unsigned and has a size. */
  lemma PadUnknown(v: Verinum, n: nat, i: nat)
    requires v.bits != [] && !v.isString && !Known(Top(v.bits)) && |v.bits| <= i < n
    ensures PadToWidth(v, n).bits[i] == if v.hasLen && !v.signed then V0 else Top(v.bits)
    ensures PadToWidth(v, n).bits[..|v.bits|] == v.bits
  {
  }

  /** Padding keeps the value. */
  lemma PadKeepsValue(v: Verinum, n: nat)
    requires Operand(v.bits) && !v.isString
    ensures Operand(PadToWidth(v, n).bits) && PadToWidth(v, n).signed == v.signed
    ensures IntValue(PadToWidth(v, n)) == IntValue(v)
  {
    if |v.bits| < n {
      ExtendKeepsValue(v.bits, n);
      assert Known(Top(v.bits));
    }
  }
}
