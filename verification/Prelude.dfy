/** Small notions shared by every component of the model. */
module Prelude {

  datatype Option<+T> = None | Some(value: T)

  /** 2 to the power n: the number of values an n-bit vector holds. */
  function Pow2(n: nat): (r: nat)
    ensures r > 0
  {
    if n == 0 then 1 else 2 * Pow2(n - 1)
  }

  lemma {:induction false} Pow2Monotone(m: nat, n: nat)
    requires m <= n
    ensures Pow2(m) <= Pow2(n)
    decreases n - m
  {
    if m < n {
      Pow2Monotone(m + 1, n);
    }
  }

  lemma {:induction false} Pow2Add(m: nat, n: nat)
    ensures Pow2(m + n) == Pow2(m) * Pow2(n)
  {
    if m > 0 {
      Pow2Add(m - 1, n);
      assert Pow2(m + n) == 2 * (Pow2(m - 1) * Pow2(n));
    }
  }

  /** a reduced modulo p, by steps of p: the wrap-around of a fixed-width register. */
  function Wrap(a: int, p: nat): (r: nat)
    requires p > 0
    ensures r < p
    decreases if a < 0 then p - a else a
  {
    if a < 0 then Wrap(a + p, p) else if a >= p then Wrap(a - p, p) else a
  }

  lemma WrapShift(a: int, p: nat)
    requires p > 0
    ensures Wrap(a + p, p) == Wrap(a, p)
  {
  }

  /** Reducing an operand early does not change a sum. */
  lemma {:induction false} WrapSum(a: int, b: int, p: nat)
    requires p > 0
    ensures Wrap(Wrap(a, p) + b, p) == Wrap(a + b, p)
    decreases if a < 0 then p - a else a
  {
    if a < 0 {
      WrapSum(a + p, b, p);
      WrapShift(a + b, p);
    } else if a >= p {
      WrapSum(a - p, b, p);
      WrapShift(a - p + b, p);
    }
  }

  lemma {:induction false} WrapDifference(a: int, b: int, p: nat)
    requires p > 0
    ensures Wrap(a - Wrap(b, p), p) == Wrap(a - b, p)
    decreases if b < 0 then p - b else b
  {
    if b < 0 {
      WrapDifference(a, b + p, p);
      WrapShift(a - b - p, p);
    } else if b >= p {
      WrapDifference(a, b - p, p);
      WrapShift(a - b, p);
    }
  }

  lemma {:induction false} WrapIsModulus(a: int, p: nat)
    requires p > 0
    ensures Wrap(a, p) == a % p
    decreases if a < 0 then p - a else a
  {
    if a < 0 {
      WrapIsModulus(a + p, p);
      ModStep(a, p, a / p, a % p);
    } else if a >= p {
      WrapIsModulus(a - p, p);
      ModStep(a - p, p, (a - p) / p, (a - p) % p);
    } else {
      ModUnique(a, p, 0, a);
    }
  }

  lemma ModStep(a: int, p: nat, q: int, r: int)
    requires p > 0 && a == p * q + r && 0 <= r < p
    ensures (a + p) % p == r
  {
    ModUnique(a + p, p, q + 1, r);
  }

  lemma ModUnique(a: int, p: nat, q: int, r: int)
    requires p > 0 && a == p * q + r && 0 <= r < p
    ensures a % p == r
  {
    MultipleInside(p, a / p - q, r - a % p);
  }

  /** The only multiple of p strictly between -p and p is 0. */
  lemma MultipleInside(p: nat, k: int, x: int)
    requires -(p as int) < x < p
    requires p * k == x
    ensures x == 0
  {
    if k >= 1 {
      MultiplyAtLeast(p, k);
    } else if k <= -1 {
      MultiplyAtLeast(p, -k);
    }
  }

  lemma MultiplyAtLeast(p: nat, k: int)
    requires k >= 1
    ensures p * k >= p
  {
    assert p * k == p + p * (k - 1);
  }
}
