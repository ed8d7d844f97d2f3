/**
 * Verilog numbers: vectors of four-valued bits, least significant first, with the numeric value of
 * their bits.
 */
module Verinum {
  import opened Prelude

  datatype Bit = V0 | V1 | Vx | Vz

  type Bits = seq<Bit>

  datatype Verinum = Verinum(bits: Bits, signed: bool, hasLen: bool, isString: bool)

  predicate Known(b: Bit) {
    b == V0 || b == V1
  }

  /** No x or z bits. */
  predicate Defined(v: Bits) {
    forall i | 0 <= i < |v| :: Known(v[i])
  }

  predicate IsZero(v: Bits) {
    forall i | 0 <= i < |v| :: v[i] == V0
  }

  function Digit(b: Bit): nat {
    if b == V1 then 1 else 0
  }

  function BitOf(n: nat): Bit {
    if n % 2 == 1 then V1 else V0
  }

  /** The unsigned value of the 1 bits. */
  function Value(v: Bits): nat {
    if v == [] then 0 else Digit(v[0]) + 2 * Value(v[1..])
  }

  /** The highest bit. */
  function Top(v: Bits): Bit
    requires v != []
  {
    v[|v| - 1]
  }

  /** The two's complement value of a signed vector. */
  function SignedValue(v: Bits): int
    requires v != []
  {
    Value(v) - (if Top(v) == V1 then Pow2(|v|) else 0)
  }

  function Repeat(b: Bit, n: nat): (v: Bits)
    ensures |v| == n && AllAre(v, b)
  {
    if n == 0 then [] else [b] + Repeat(b, n - 1)
  }

  /** v extended to n bits with pad. */
  function ExtendTo(v: Bits, pad: Bit, n: nat): (r: Bits)
    requires |v| <= n
    ensures |r| == n && r[..|v|] == v
    ensures forall i | 0 <= i < n :: r[i] == if i < |v| then v[i] else pad
  {
    v + Repeat(pad, n - |v|)
  }

  function Longest(u: Bits, v: Bits): nat {
    if |u| > |v| then |u| else |v|
  }

  /** A constant of n equal bits. */
  function Constant(b: Bit, n: nat, hasLen: bool): Verinum {
    Verinum(Repeat(b, n), false, hasLen, false)
  }

  lemma {:induction false} ValueBound(v: Bits)
    ensures Value(v) < Pow2(|v|)
  {
    if v != [] { ValueBound(v[1..]); }
  }

  lemma {:induction false} ValueAppend(u: Bits, v: Bits)
    ensures Value(u + v) == Value(u) + Pow2(|u|) * Value(v)
  {
    if u == [] {
      assert u + v == v;
    } else {
      ValueAppend(u[1..], v);
      assert (u + v)[1..] == u[1..] + v;
      assert Pow2(|u|) * Value(v) == 2 * (Pow2(|u| - 1) * Value(v));
    }
  }

  lemma {:induction false} ValueOfRepeat(b: Bit, n: nat)
    ensures Value(Repeat(b, n)) == if b == V1 then Pow2(n) - 1 else 0
  {
    if n > 0 {
      ValueOfRepeat(b, n - 1);
      assert Repeat(b, n)[1..] == Repeat(b, n - 1);
    }
  }

  lemma {:induction false} ValueOfZero(v: Bits)
    requires Defined(v)
    ensures IsZero(v) <==> Value(v) == 0
  {
    if v != [] {
      ValueOfZero(v[1..]);
      assert forall i | 0 < i < |v| :: v[i] == v[1..][i - 1];
    }
  }

  /** A vector's value in terms of its low n bits and the rest. */
  lemma ValueParts(v: Bits, n: nat)
    requires n <= |v|
    ensures Value(v) == Value(v[..n]) + Pow2(n) * Value(v[n..])
    ensures Value(v[..n]) < Pow2(n)
  {
    assert v == v[..n] + v[n..];
    ValueAppend(v[..n], v[n..]);
    ValueBound(v[..n]);
  }

  /** Taking the low n bits is reduction modulo 2^n, dropping them is division. */
  lemma ValueSplit(v: Bits, n: nat)
    requires n <= |v|
    ensures Value(v) == Value(v[..n]) + Pow2(n) * Value(v[n..])
    ensures Value(v[..n]) == Value(v) % Pow2(n)
    ensures Value(v[n..]) == Value(v) / Pow2(n)
  {
    ValueParts(v, n);
    DivModUnique(Value(v), Pow2(n), Value(v[n..]), Value(v[..n]));
  }

  lemma MulGap(p: nat, q: nat, q': nat)
    requires q < q'
    ensures p * q' >= p * q + p
  {
    assert p * q' == p * q + p * (q' - q);
    assert p * (q' - q) == p + p * (q' - q - 1);
  }

  lemma DivModUnique(a: nat, p: nat, q: nat, r: nat)
    requires p > 0 && a == r + p * q && r < p
    ensures a / p == q && a % p == r
  {
    if q < a / p {
      MulGap(p, q, a / p);
    } else if a / p < q {
      MulGap(p, a / p, q);
    }
  }

  /** Vectors of one length with one value are equal. */
  lemma {:induction false} ValueInjective(u: Bits, v: Bits)
    requires Defined(u) && Defined(v) && |u| == |v| && Value(u) == Value(v)
    ensures u == v
  {
    if u != [] {
      DigitIsParity(u);
      DigitIsParity(v);
      ValueInjective(u[1..], v[1..]);
      assert u == [u[0]] + u[1..] && v == [v[0]] + v[1..];
    }
  }

  lemma DigitIsParity(v: Bits)
    requires v != []
    ensures Digit(v[0]) == Value(v) % 2 && Value(v[1..]) == Value(v) / 2
  {
    Halves(Digit(v[0]), Value(v[1..]), Value(v));
  }

  lemma Halves(d: nat, n: nat, all: nat)
    requires d < 2 && all == d + 2 * n
    ensures all % 2 == d && all / 2 == n
  {
  }

  /** Every bit is b. */
  predicate AllAre(v: Bits, b: Bit) {
    forall i | 0 <= i < |v| :: v[i] == b
  }

  lemma AppendBit(v: Bits, b: Bit)
    ensures Defined(v + [b]) <==> Defined(v) && Known(b)
    ensures forall c :: AllAre(v + [b], c) <==> AllAre(v, c) && b == c
    ensures forall c :: c in v + [b] <==> c in v || c == b
  {
    var w := v + [b];
    assert w[|v|] == b;
    assert forall i | 0 <= i < |v| :: w[i] == v[i];
  }

  // ----- what unknown bits may stand for -----

  /** f is v with each unknown bit replaced by 0 or 1. */
  predicate Fills(f: Bits, v: Bits) {
    && |f| == |v| && Defined(f)
    && forall i | 0 <= i < |v| :: Known(v[i]) ==> f[i] == v[i]
  }

  /** The fill that replaces every unknown bit by b. */
  function FillWith(v: Bits, b: Bit): (f: Bits)
    requires Known(b)
    ensures Fills(f, v)
    ensures forall i | 0 <= i < |v| :: !Known(v[i]) ==> f[i] == b
  {
    seq(|v|, i requires 0 <= i < |v| => if Known(v[i]) then v[i] else b)
  }

  // ----- bitwise operators -----

  function NotBit(b: Bit): Bit {
    match b case V0 => V1 case V1 => V0 case _ => Vx
  }

  function AndBit(l: Bit, r: Bit): Bit {
    if l == V0 || r == V0 then V0 else if l != V1 || r != V1 then Vx else V1
  }

  function OrBit(l: Bit, r: Bit): Bit {
    if l == V1 || r == V1 then V1 else if l != V0 || r != V0 then Vx else V0
  }
}
