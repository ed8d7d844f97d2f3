/** Shifts by a constant: folded on constants, and synthesized as a part select with padding. */
module FoldShift {
  import opened Prelude
  import opened Verinum
  import opened VerinumArith
  import opened Netlist

  datatype ShiftOp = Left | Right | ArithmeticRight

  /** v shifted by n into wid bits; what comes in from outside is pad. */
  function Shifted(op: ShiftOp, v: Bits, n: nat, wid: nat, pad: Bit): (r: Bits)
    ensures |r| == wid
  {
    seq(wid, i requires 0 <= i < wid =>
      if op.Left? then (if n <= i < n + |v| then v[i - n] else pad)
      else if i + n < |v| then v[i + n] else pad)
  }

  /** The shift amount as a 32-bit unsigned number. */
  function ShiftAmount(rv: Bits): nat {
    Value(rv) % 0x1_0000_0000
  }

  function Pad(op: ShiftOp, v: Bits, signed: bool): Bit
    requires v != []
  {
    if op.ArithmeticRight? && signed then Top(v) else V0
  }

  /** The width of the result: a number of indefinite length gets as much as it needs. */
  function ResultWidth(op: ShiftOp, lv: Verinum, n: nat, exprWidth: nat, prune: int): nat {
    var wid := if exprWidth == 0 || !lv.hasLen then |Trim(lv).bits| + (if op.Left? then n else 0) else exprWidth;
    if prune > 0 && wid > prune then prune else wid
  }

  function Operand1(lv: Verinum, exprWidth: nat): Verinum {
    if exprWidth == 0 || !lv.hasLen then Trim(lv) else lv
  }

  /** Folding a shift by n. */
  function FoldedBy(op: ShiftOp, left: Verinum, n: nat, exprWidth: nat, signed: bool, prune: int): Bits
    requires left.bits != []
  {
    var lv := Operand1(left, exprWidth);
    Shifted(op, lv.bits, n, ResultWidth(op, left, n, exprWidth, prune), Pad(op, lv.bits, signed))
  }

  /** Folding a shift of constants. */
  function Folded(op: ShiftOp, left: Verinum, rv: Bits, exprWidth: nat, leftWidth: nat, signed: bool, prune: int): Bits
    requires left.bits != []
  {
    if Defined(rv) then FoldedBy(op, left, ShiftAmount(rv), exprWidth, signed, prune)
    else Repeat(Vx, if exprWidth == 0 then leftWidth else exprWidth)
  }

  /** A vector of pads, with the operand's bits copied n places up. */
  method CopyUp(v: Bits, n: nat, wid: nat, pad: Bit) returns (res: Bits)
    ensures res == Shifted(Left, v, n, wid, pad)
  {
    var nv := new Bit[wid](_ => pad);
    var cnt := if wid > |v| then |v| else wid;
    if n >= wid {
      cnt := 0;
    } else if cnt > wid - n {
      cnt := wid - n;
    }
    for idx := 0 to cnt
      invariant forall i | 0 <= i < wid :: nv[i] == if n <= i < n + idx then v[i - n] else pad
    {
      nv[idx + n] := v[idx];
    }
    res := nv[..];
  }

  /** The same, n places down. */
  method CopyDown(op: ShiftOp, v: Bits, n: nat, wid: nat, pad: Bit) returns (res: Bits)
    requires !op.Left?
    ensures res == Shifted(op, v, n, wid, pad)
  {
    var nv := new Bit[wid](_ => pad);
    var cnt := wid;
    if n >= |v| {
      cnt := 0;
    } else if cnt > |v| - n {
      cnt := |v| - n;
    }
    for idx := 0 to cnt
      invariant forall i | 0 <= i < wid :: nv[i] == if i < idx then v[i + n] else pad
    {
      nv[idx] := v[idx + n];
    }
    res := nv[..];
  }

  /** Folding a shift of constants. */
  method EvalShift(op: ShiftOp, left: Verinum, rv: Verinum, exprWidth: nat, leftWidth: nat, signed: bool, prune: int)
      returns (res: Bits)
    requires left.bits != []
    ensures res == Folded(op, left, rv.bits, exprWidth, leftWidth, signed, prune)
    ensures !Defined(rv.bits) ==> AllAre(res, Vx) && |res| == if exprWidth == 0 then leftWidth else exprWidth
  {
    var lv, wid := left, exprWidth;
    if Defined(rv.bits) {
      var shift := ShiftAmount(rv.bits);
      if wid == 0 || !lv.hasLen {
        lv := TrimVnum(lv);
        wid := |lv.bits|;
        if op.Left? {
          wid := |lv.bits| + shift;
        }
      }
      if prune > 0 && wid > prune {
        wid := prune;
      }
      var pad := V0;
      if op.ArithmeticRight? && signed {
        pad := lv.bits[|lv.bits| - 1];
      }
      if op.Left? {
        res := CopyUp(lv.bits, shift, wid, pad);
      } else {
        res := CopyDown(op, lv.bits, shift, wid, pad);
      }
    } else {
      if wid == 0 {
        wid := leftWidth;
      }
      res := Repeat(Vx, wid);
    }
  }

  // ----- what a shift computes -----

  /** A bit that folds to 0 or 1 does so however the unknown bits of the amount are filled. */
  lemma KnownWhateverAmount(op: ShiftOp, left: Verinum, rv: Bits, exprWidth: nat, leftWidth: nat, signed: bool,
                            prune: int, g: Bits, i: nat)
    requires left.bits != [] && Fills(g, rv)
    requires var f := Folded(op, left, rv, exprWidth, leftWidth, signed, prune); i < |f| && Known(f[i])
    ensures var (f, f') := (Folded(op, left, rv, exprWidth, leftWidth, signed, prune),
                            Folded(op, left, g, exprWidth, leftWidth, signed, prune));
            i < |f'| && f'[i] == f[i]
  {
    if Defined(rv) {
      assert g == rv;
    }
  }

  /** Of a long amount the low 32 bits count. */
  lemma LowWordCounts(rv: Bits)
    requires |rv| >= 32
    ensures ShiftAmount(rv) == Value(rv[..32])
  {
    WordSize();
    ValueSplit(rv, 32);
  }

  /** A left shift multiplies by 2^n, modulo 2^w. */
  lemma LeftShiftMultiplies(v: Bits, n: nat, total: nat)
    requires total == Value(v) * Pow2(n)
    ensures Value(Shifted(Left, v, n, |v|, V0)) == Wrap(total, Pow2(|v|))
  {
    var w := |v|;
    if n >= w {
      assert Shifted(Left, v, n, w, V0) == Repeat(V0, w);
      ValueOfRepeat(V0, w);
      Pow2Add(w, n - w);
      MulSwap(Value(v), Pow2(w), Pow2(n - w));
      WrapMultiple(0, Pow2(w), Value(v) * Pow2(n - w));
    } else {
      LowBitsShifted(v, n);
      ValueParts(v, w - n);
      Pow2Add(w - n, n);
      ValueBound(Shifted(Left, v, n, w, V0));
      HighBitsWrap(Value(v), Value(v[..w - n]), Pow2(w - n), Value(v[w - n..]), Pow2(n), Pow2(w), total,
                   Value(Shifted(Left, v, n, w, V0)));
    }
  }

  lemma HighBitsWrap(v: nat, low: nat, p: nat, high: nat, q: nat, pq: nat, total: nat, r: nat)
    requires v == low + p * high && pq == p * q && total == v * q && r == q * low && r < pq
    ensures Wrap(total, pq) == r
  {
    Distribute(low, p, high, q);
    WrapMultiple(r, pq, high);
  }

  lemma LowBitsShifted(v: Bits, n: nat)
    requires n < |v|
    ensures Value(Shifted(Left, v, n, |v|, V0)) == Pow2(n) * Value(v[..|v| - n])
  {
    assert Shifted(Left, v, n, |v|, V0) == Repeat(V0, n) + v[..|v| - n];
    ValueAppend(Repeat(V0, n), v[..|v| - n]);
    ValueOfRepeat(V0, n);
  }

  lemma MulSwap(a: nat, b: nat, c: nat)
    ensures a * (b * c) == b * (a * c)
  {
  }

  lemma Distribute(low: nat, p: nat, high: nat, q: nat)
    ensures (low + p * high) * q == q * low + (p * q) * high
  {
    MulSwap(high, p, q);
  }

  /** Given room, a left shift loses nothing. */
  lemma LeftShiftIsLossless(v: Bits, n: nat)
    ensures Value(Shifted(Left, v, n, |v| + n, V0)) == Pow2(n) * Value(v)
  {
    assert Shifted(Left, v, n, |v| + n, V0) == Repeat(V0, n) + v;
    ValueAppend(Repeat(V0, n), v);
    ValueOfRepeat(V0, n);
  }

  /** A logical right shift divides by 2^n. */
  lemma RightShiftDivides(v: Bits, n: nat)
    ensures Value(Shifted(Right, v, n, |v|, V0)) == Value(v) / Pow2(n)
  {
    var w := |v|;
    var r := Shifted(Right, v, n, w, V0);
    if n >= w {
      assert r == Repeat(V0, w);
      ValueOfRepeat(V0, w);
      ValueBound(v);
      Pow2Monotone(w, n);
      FloorUnique(Value(v), Pow2(n), 0, Value(v));
    } else {
      assert r == ExtendTo(v[n..], V0, w);
      ExtendedValue(v[n..], V0, w);
      ValueSplit(v, n);
    }
  }

  /** An arithmetic right shift divides the signed value by 2^n, rounding down. */
  lemma ArithmeticShiftDivides(v: Bits, n: nat)
    requires Operand(v)
    ensures SignedValue(Shifted(ArithmeticRight, v, n, |v|, Top(v))) == SignedValue(v) / Pow2(n)
  {
    if n >= |v| {
      AllShiftedOut(v, n);
    } else {
      var w, high := |v|, v[n..];
      assert Top(high) == Top(v);
      ExtendedRest(v, n);
      DefinedParts(v, n);
      ExtendKeepsValue(high, w);
      SignedParts(v, n);
      FloorUnique(SignedValue(v), Pow2(n), SignedValue(high), Value(v[..n]));
    }
  }

  lemma AllShiftedOut(v: Bits, n: nat)
    requires Operand(v) && n >= |v|
    ensures SignedValue(Shifted(ArithmeticRight, v, n, |v|, Top(v))) == SignedValue(v) / Pow2(n)
  {
    var w := |v|;
    assert Shifted(ArithmeticRight, v, n, w, Top(v)) == Repeat(Top(v), w);
    ValueOfRepeat(Top(v), w);
    Pow2Monotone(w, n);
    Ranges(v, Pow2(w - 1));
    if Top(v) == V1 {
      FloorUnique(SignedValue(v), Pow2(n), -1, SignedValue(v) + Pow2(n));
    } else {
      FloorUnique(SignedValue(v), Pow2(n), 0, SignedValue(v));
    }
  }

  /** A signed vector in terms of its low n bits and the signed rest. */
  lemma SignedParts(v: Bits, n: nat)
    requires v != [] && n < |v|
    ensures SignedValue(v) == Pow2(n) * SignedValue(v[n..]) + Value(v[..n])
    ensures Value(v[..n]) < Pow2(n)
  {
    ValueParts(v, n);
    var whole, part := SignWeights(v, n);
    LessWeights(SignedValue(v), Value(v), Value(v[..n]), Pow2(n), SignedValue(v[n..]), Value(v[n..]), whole, part);
  }

  /** What the sign bit takes off the value, in the vector and in its high bits alone. */
  lemma SignWeights(v: Bits, n: nat) returns (whole: nat, part: nat)
    requires n < |v|
    ensures SignedValue(v) == Value(v) - whole && SignedValue(v[n..]) == Value(v[n..]) - part
    ensures whole == Pow2(n) * part
  {
    assert |v[n..]| == |v| - n && Top(v[n..]) == Top(v);
    if Top(v) == V1 {
      whole, part := Pow2(|v|), Pow2(|v| - n);
      Pow2Add(n, |v| - n);
    } else {
      whole, part := 0, 0;
    }
  }

  lemma LessWeights(s: int, v: int, low: int, p: nat, t: int, high: int, whole: nat, part: nat)
    requires v == low + p * high && s == v - whole && t == high - part && whole == p * part
    ensures s == p * t + low
  {
  }

  lemma FloorUnique(a: int, p: nat, q: int, r: nat)
    requires p > 0 && a == p * q + r && r < p
    ensures a / p == q
  {
    ModUnique(a, p, q, r);
    Cancel(p, a / p, q);
  }

  lemma Cancel(p: nat, a: int, b: int)
    requires p > 0 && p * a == p * b
    ensures a == b
  {
    if a > b {
      MulMore(p, a, b);
    } else if b > a {
      MulMore(p, b, a);
    }
  }

  lemma MulMore(p: nat, a: int, b: int)
    requires p > 0 && a > b
    ensures p * a > p * b
  {
    assert p * a == p * b + p * (a - b);
    MultiplyAtLeast(p, a - b);
  }

  // ----- what folding a constant computes -----

  /** The operand is shifted at its own width, unless it is of indefinite length. */
  predicate OwnWidth(left: Verinum, exprWidth: nat) {
    left.hasLen && exprWidth > 0 ==> exprWidth == |left.bits|
  }

  /** Trimming keeps the bits of a number that is not negative, and takes 2^m - 2^t off the others. */
  lemma TrimmedValue(v: Verinum)
    requires Operand(v.bits)
    ensures Operand(Trim(v).bits) && |Trim(v).bits| <= |v.bits| && Top(Trim(v).bits) == Top(v.bits)
    ensures |Trim(v).bits| == |v.bits| ==> Trim(v).bits == v.bits
    ensures Value(v.bits) == Value(Trim(v).bits) + (if Negative(v) then Pow2(|v.bits|) - Pow2(|Trim(v).bits|) else 0)
  {
    TrimKeepsValue(v);
    if Trim(v) != v {
      TrimmedExtends(v);
      var low := v.bits[..TrimmedLength(v)];
      var pad := SignPad(v.(bits := low), v.signed);
      ExtendedValue(low, pad, |v.bits|);
      if |low| < |v.bits| {
        assert Top(v.bits) == pad;
      }
      if !v.signed {
        TrimmedTop(v);
      }
    }
  }

  /** An unsigned number is trimmed down to a leading 0. */
  lemma TrimmedTop(v: Verinum)
    requires Operand(v.bits) && !v.signed && Trim(v) != v
    ensures Top(Trim(v).bits) == V0 == Top(v.bits)
  {
    var max := |v.bits| - 1;
    var top := LastOther(v.bits, V0, max);
    assert v.bits[max] == V0;
  }

  /** Folding a left shift gives an operand of indefinite length the room it needs; a sized one wraps. */
  lemma FoldedLeft(left: Verinum, n: nat, exprWidth: nat, signed: bool, total: nat)
    requires Operand(left.bits) && OwnWidth(left, exprWidth) && total == Value(Operand1(left, exprWidth).bits) * Pow2(n)
    ensures left.hasLen && exprWidth > 0 ==>
              Value(FoldedBy(Left, left, n, exprWidth, signed, 0)) == Wrap(total, Pow2(|left.bits|))
    ensures !(left.hasLen && exprWidth > 0) ==> Value(FoldedBy(Left, left, n, exprWidth, signed, 0)) == total
  {
    if left.hasLen && exprWidth > 0 {
      assert FoldedBy(Left, left, n, exprWidth, signed, 0) == Shifted(Left, left.bits, n, |left.bits|, V0);
      LeftShiftMultiplies(left.bits, n, total);
    } else {
      var v := Trim(left).bits;
      assert FoldedBy(Left, left, n, exprWidth, signed, 0) == Shifted(Left, v, n, |v| + n, V0);
      LosslessTotal(v, n, total);
    }
  }

  lemma LosslessTotal(v: Bits, n: nat, total: nat)
    requires total == Value(v) * Pow2(n)
    ensures Value(Shifted(Left, v, n, |v| + n, V0)) == total
  {
    LeftShiftIsLossless(v, n);
  }

  /**
   * Folding a logical right shift divides the operand's bits, read as a number, by 2^n, exactly when
   * it is not negative, or has no sign bits to trim, or nothing of it is left.
   */
  lemma FoldedRightDividesExactly(left: Verinum, n: nat, exprWidth: nat, signed: bool)
    requires Operand(left.bits) && OwnWidth(left, exprWidth)
    ensures Operand(Operand1(left, exprWidth).bits)
    ensures Value(FoldedBy(Right, left, n, exprWidth, signed, 0)) == Value(Operand1(left, exprWidth).bits) / Pow2(n)
    ensures Value(FoldedBy(Right, left, n, exprWidth, signed, 0)) == Value(left.bits) / Pow2(n)
            <==> !Negative(left) || |Operand1(left, exprWidth).bits| == |left.bits| || n >= |left.bits|
  {
    var lv := Operand1(left, exprWidth);
    TrimmedValue(left);
    RightShiftDivides(lv.bits, n);
    if Negative(left) && |lv.bits| < |left.bits| {
      if n < |left.bits| {
        var (k, m) := (|lv.bits|, |left.bits| - 1);
        HigherQuotient(Value(lv.bits), Value(left.bits), Pow2(k), Pow2(m), n, m, k);
      } else {
        NothingLeft(lv.bits, n);
        NothingLeft(left.bits, n);
      }
    }
  }

  lemma NothingLeft(v: Bits, n: nat)
    requires n >= |v|
    ensures Value(v) / Pow2(n) == 0
  {
    ValueBound(v);
    Pow2Monotone(|v|, n);
    FloorUnique(Value(v), Pow2(n), 0, Value(v));
  }

  /** The trimmed sign bits are worth at least 2^n, so they show in the quotient. */
  lemma HigherQuotient(a: nat, b: nat, t: nat, h: nat, n: nat, m: nat, k: nat)
    requires t == Pow2(k) && h == Pow2(m) && k <= m && n <= m && b == a + 2 * h - t
    ensures a / Pow2(n) < b / Pow2(n)
  {
    Pow2Monotone(k, m);
    Pow2Monotone(n, m);
    QuotientGrows(a, b, Pow2(n));
  }

  lemma QuotientGrows(a: nat, b: nat, p: nat)
    requires p > 0 && a + p <= b
    ensures a / p < b / p
  {
    assert a >= p * (a / p) && b < p * (b / p) + p;
    SmallerFactor(p, a / p, b / p);
  }

  lemma SmallerFactor(p: nat, x: nat, y: nat)
    requires p > 0 && p * x < p * y
    ensures x < y
  {
    if x > y { MulMore(p, x, y); }
  }

  /** Folding an arithmetic right shift divides a signed operand, rounding down, whatever is trimmed. */
  lemma FoldedArithmeticDivides(left: Verinum, n: nat, exprWidth: nat)
    requires Operand(left.bits) && OwnWidth(left, exprWidth) && left.signed
    ensures var f := FoldedBy(ArithmeticRight, left, n, exprWidth, true, 0);
            f != [] && SignedValue(f) == IntValue(left) / Pow2(n)
  {
    TrimKeepsValue(left);
    ArithmeticShiftDivides(Operand1(left, exprWidth).bits, n);
  }

  /** What a shift by n is to compute: a product, or a quotient rounded down. */
  function Exact(op: ShiftOp, v: Bits, n: nat, signed: bool): int
    requires v != []
  {
    if op.Left? then Pow2(n) * Value(v)
    else if op.ArithmeticRight? && signed then SignedValue(v) / Pow2(n)
    else Value(v) / Pow2(n)
  }

  /** A sized constant folds to a vector of the width of the expression, which holds that modulo 2^w. */
  lemma FoldedSized(op: ShiftOp, left: Verinum, n: nat, exprWidth: nat, signed: bool)
    requires Operand(left.bits) && left.hasLen && exprWidth > 0
    ensures var f := FoldedBy(op, left, n, exprWidth, signed, 0);
            |f| == exprWidth && Value(f) == Wrap(Exact(op, left.bits, n, signed), Pow2(exprWidth))
  {
    if op.Left? {
      LeftShiftWraps(left.bits, n, exprWidth);
    } else {
      RightShiftWraps(op, left.bits, n, exprWidth, signed);
    }
  }

  lemma LeftShiftWraps(v: Bits, n: nat, wid: nat)
    requires Operand(v)
    ensures Value(Shifted(Left, v, n, wid, V0)) == Wrap(Pow2(n) * Value(v), Pow2(wid))
  {
    var full := Shifted(Left, v, n, |v| + n, V0);
    var m := if wid > |full| then wid else |full|;
    var big := ExtendTo(full, V0, m);
    LeftShiftIsLossless(v, n);
    ExtendKeepsValue(full, m);
    LowBits(big, false, wid, Shifted(Left, v, n, wid, V0));
  }

  lemma RightShiftWraps(op: ShiftOp, v: Bits, n: nat, wid: nat, signed: bool)
    requires Operand(v) && !op.Left?
    ensures Value(Shifted(op, v, n, wid, Pad(op, v, signed))) == Wrap(Exact(op, v, n, signed), Pow2(wid))
  {
    var pad := Pad(op, v, signed);
    var full := Shifted(op, v, n, |v|, pad);
    var m := if wid > |full| then wid else |full|;
    var big := ExtendTo(full, pad, m);
    ExtendKeepsValue(full, m);
    if op.ArithmeticRight? && signed {
      ArithmeticShiftDivides(v, n);
      assert Top(full) == Top(v);
      LowBits(big, true, wid, Shifted(op, v, n, wid, pad));
    } else {
      assert full == Shifted(Right, v, n, |v|, V0);
      RightShiftDivides(v, n);
      LowBits(big, false, wid, Shifted(op, v, n, wid, pad));
    }
  }

  /** The low bits hold the number modulo 2^wid. */
  lemma LowBits(big: Bits, signed: bool, wid: nat, low: Bits)
    requires big != [] && wid <= |big| && low == big[..wid]
    ensures Value(low) == Wrap(if signed then SignedValue(big) else Value(big), Pow2(wid))
  {
    ResidueIsLowBits(Verinum(big, signed, false, false), wid);
  }

  /** Pruning cuts the result off. */
  lemma PrunedShift(op: ShiftOp, left: Verinum, n: nat, exprWidth: nat, signed: bool, prune: int)
    requires left.bits != []
    ensures ResultWidth(op, left, n, exprWidth, prune) <= |FoldedBy(op, left, n, exprWidth, signed, 0)|
    ensures FoldedBy(op, left, n, exprWidth, signed, prune)
            == FoldedBy(op, left, n, exprWidth, signed, 0)[..ResultWidth(op, left, n, exprWidth, prune)]
  {
  }

  // ----- synthesis -----

  /** What a netlist for a shift by n is to compute: a negative amount shifts the other way. */
  function ShiftedBy(op: ShiftOp, v: Bits, n: int, signed: bool): Bits
    requires v != []
  {
    if n >= 0 then Shifted(op, v, n, |v|, Pad(op, v, signed))
    else if op.Left? then Shifted(Right, v, -n, |v|, V0)
    else if op.ArithmeticRight? && signed && -n < |v| then
      ExtendTo(v[..|v| + n], v[|v| + n - 1], |v|)
    else Shifted(Left, v, -n, |v|, V0)
  }

  /** Whatever the signals carry, net id carries the shift of what lsig carries. */
  ghost predicate ShiftNet(nets: seq<Net>, id: nat, op: ShiftOp, lsig: nat, n: int, signed: bool)
    requires lsig < |nets| && nets[lsig].width > 0
  {
    && id < |nets|
    && forall val | Consistent(nets, val) :: val[id] == ShiftedBy(op, val[lsig], n, signed)
  }

  /**
   * Building the netlist of a shift by a constant: the part that survives, padded at the proper end.
   * None: the shift amount is not less than the width.
   */
  method SynthesizeShift(des: Design, op: ShiftOp, lsig: nat, rv: Verinum, signed: bool) returns (osig: Option<nat>)
    requires Built(des.nets) && lsig < |des.nets| && des.nets[lsig].width > 0
    modifies des
    ensures old(des.nets) <= des.nets && Built(des.nets)
    ensures osig.Some? <==> -(des.nets[lsig].width as int) < AsLong(rv) < des.nets[lsig].width
    ensures osig.Some? ==> ShiftNet(des.nets, osig.value, op, lsig, AsLong(rv), signed)
  {
    osig := SynthesizeShiftBy(des, op, lsig, AsLong(rv), signed);
  }

  method SynthesizeShiftBy(des: Design, op: ShiftOp, lsig: nat, n: int, signed: bool) returns (osig: Option<nat>)
    requires Built(des.nets) && lsig < |des.nets| && des.nets[lsig].width > 0
    modifies des
    ensures old(des.nets) <= des.nets && Built(des.nets)
    ensures osig.Some? <==> -(des.nets[lsig].width as int) < n < des.nets[lsig].width
    ensures osig.Some? ==> ShiftNet(des.nets, osig.value, op, lsig, n, signed)
  {
    var shift := n;
    var exprWidth := des.nets[lsig].width;
    var rightFlag := op.Right? || op.ArithmeticRight?;
    var signedFlag := signed && op.ArithmeticRight?;
    if rightFlag {
      shift := 0 - shift;
    }
    if shift == 0 {
      Unshifted(des.nets, op, lsig, signed);
      return Some(lsig);
    }
    var ushift := if shift >= 0 then shift else -shift;
    if ushift >= exprWidth {
      return None;
    }
    if signedFlag && rightFlag {
      var id := ShiftWithSign(des, op, lsig, shift, ushift, n);
      osig := Some(id);
    } else {
      var id := ShiftWithZeros(des, op, lsig, shift, ushift, n, signed);
      osig := Some(id);
    }
  }

  /** A part select of the bits that survive, whose sign is extended. */
  method ShiftWithSign(des: Design, op: ShiftOp, lsig: nat, shift: int, ushift: nat, n: int) returns (osig: nat)
    requires Built(des.nets) && lsig < |des.nets| && 0 < ushift < des.nets[lsig].width
    requires op.ArithmeticRight? && shift == 0 - n && ushift == if shift >= 0 then shift else 0 - shift
    modifies des
    ensures old(des.nets) <= des.nets && Built(des.nets)
    ensures ShiftNet(des.nets, osig, op, lsig, n, true)
  {
    var exprWidth := des.nets[lsig].width;
    var partWidth := exprWidth - ushift;
    var base := if shift < 0 then ushift else 0;
    assert SurvivingPart(exprWidth, n, base, partWidth);
    ghost var before := des.nets;
    osig := ExtendPart(des, lsig, base, partWidth);
    SignedShiftNet(before, des.nets, osig, op, lsig, n, base, partWidth);
  }

  /** Part of a net, extended to the net's width with its sign. */
  method ExtendPart(des: Design, lsig: nat, base: nat, k: nat) returns (id: nat)
    requires Built(des.nets) && lsig < |des.nets| && 0 < k && base + k <= des.nets[lsig].width
    modifies des
    ensures Built(des.nets) && id == |old(des.nets)| + 1
    ensures des.nets == old(des.nets) + [Net(PartSelect(lsig, base), k), Net(SignExtend(id - 1),
            old(des.nets)[lsig].width)]
  {
    var wid := des.nets[lsig].width;
    var psig := des.AddNode(PartSelect(lsig, base), k);
    id := des.AddNode(SignExtend(psig), wid);
  }

  /** A part select of the bits that survive, concatenated with zeros at the other end. */
  method ShiftWithZeros(des: Design, op: ShiftOp, lsig: nat, shift: int, ushift: nat, n: int, signed: bool)
      returns (osig: nat)
    requires Built(des.nets) && lsig < |des.nets| && 0 < ushift < des.nets[lsig].width
    requires !(op.ArithmeticRight? && signed)
    requires shift == (if op.Left? then n else 0 - n) && ushift == if shift >= 0 then shift else 0 - shift
    modifies des
    ensures old(des.nets) <= des.nets && Built(des.nets)
    ensures ShiftNet(des.nets, osig, op, lsig, n, signed)
  {
    var up := shift > 0;
    assert ushift == (if n > 0 then n else -n) && up == (op.Left? == (n > 0));
    ghost var before := des.nets;
    osig := PadPart(des, lsig, ushift, up);
    ZeroShiftNet(before, des.nets, osig, op, lsig, n, signed, ushift, up);
  }

  /** The part select, and its concatenation with k zeros. */
  method PadPart(des: Design, lsig: nat, k: nat, up: bool) returns (osig: nat)
    requires Built(des.nets) && lsig < |des.nets| && k < des.nets[lsig].width
    modifies des
    ensures Built(des.nets) && osig == |des.nets| - 1
    ensures des.nets == WithPadding(old(des.nets), lsig, k, up)
  {
    var exprWidth := des.nets[lsig].width;
    var psig := des.AddNode(PartSelect(lsig, if up then 0 else k), exprWidth - k);
    osig := PadWithZeros(des, psig, k, up);
  }

  /** A concatenation of a net with k zeros, below or above it. */
  method PadWithZeros(des: Design, psig: nat, k: nat, below: bool) returns (id: nat)
    requires Built(des.nets) && psig < |des.nets|
    modifies des
    ensures Built(des.nets) && id == |old(des.nets)| + 1
    ensures des.nets == old(des.nets) + [Net(Constant(Repeat(V0, k)), k),
              Net(Concat(if below then [id - 1, psig] else [psig, id - 1]), old(des.nets)[psig].width + k)]
  {
    var wid := des.nets[psig].width;
    var zsig := des.AddNode(Constant(Repeat(V0, k)), k);
    JoinTwo(zsig, psig, des.nets);
    JoinTwo(psig, zsig, des.nets);
    if below {
      id := des.AddNode(Concat([zsig, psig]), wid + k);
    } else {
      id := des.AddNode(Concat([psig, zsig]), wid + k);
    }
  }

  lemma Unshifted(nets: seq<Net>, op: ShiftOp, lsig: nat, signed: bool)
    requires lsig < |nets| && nets[lsig].width > 0
    ensures ShiftNet(nets, lsig, op, lsig, 0, signed)
  {
    forall val | Consistent(nets, val) ensures val[lsig] == ShiftedBy(op, val[lsig], 0, signed) {
      NoShift(op, val[lsig], Pad(op, val[lsig], signed));
    }
  }

  lemma NoShift(op: ShiftOp, v: Bits, pad: Bit)
    ensures Shifted(op, v, 0, |v|, pad) == v
  {
  }

  /** A part select with its sign extended. */
  lemma SignedShiftNet(before: seq<Net>, nets: seq<Net>, id: nat, op: ShiftOp, lsig: nat, n: int, base: nat, k: nat)
    requires lsig < |before| && SurvivingPart(before[lsig].width, n, base, k) && op.ArithmeticRight?
    requires nets == before + [Net(PartSelect(lsig, base), k), Net(SignExtend(|before|), before[lsig].width)]
    requires id == |before| + 1
    ensures before <= nets && ShiftNet(nets, id, op, lsig, n, true)
  {
    forall val | Consistent(nets, val) ensures val[id] == ShiftedBy(op, val[lsig], n, true) {
      ExtendedNet(nets, lsig, base, k, val);
      SignedBits(val[lsig], n, base, k);
    }
  }

  /** The k bits from base on are those of w that survive a shift by n. */
  predicate SurvivingPart(w: nat, n: int, base: nat, k: nat) {
    n != 0 && n < w && -n < w && base == (if n > 0 then n else 0) && k == w - (if n > 0 then n else -n)
  }

  lemma ExtendedNet(nets: seq<Net>, lsig: nat, base: nat, k: nat, val: seq<Bits>)
    requires |nets| >= 2 && lsig < |nets| - 2 && Consistent(nets, val)
    requires nets[|nets| - 2] == Net(PartSelect(lsig, base), k)
    requires nets[|nets| - 1] == Net(SignExtend(|nets| - 2), nets[lsig].width)
    ensures 0 < k && base + k <= |val[lsig]| == nets[lsig].width && k <= nets[lsig].width
    ensures var part := val[lsig][base..base + k];
            val[|nets| - 1] == ExtendTo(part, Top(part), |val[lsig]|)
  {
    PartSelectValue(nets, val, |nets| - 2);
    SignExtendValue(nets, val, |nets| - 1);
  }

  lemma SignedBits(v: Bits, n: int, base: nat, k: nat)
    requires SurvivingPart(|v|, n, base, k)
    ensures ExtendTo(v[base..base + k], Top(v[base..base + k]), |v|) == ShiftedBy(ArithmeticRight, v, n, true)
  {
    if n > 0 {
      ExtendedRest(v, n);
    } else {
      assert v[0..k] == v[..|v| + n];
    }
  }

  lemma ExtendedRest(v: Bits, n: nat)
    requires n < |v|
    ensures v[n..n + (|v| - n)] == v[n..] && Top(v[n..]) == Top(v)
    ensures ExtendTo(v[n..], Top(v), |v|) == Shifted(ArithmeticRight, v, n, |v|, Top(v))
  {
  }

  /** Zeros below or above a part select. */
  lemma ZeroShiftNet(before: seq<Net>, nets: seq<Net>, id: nat, op: ShiftOp, lsig: nat, n: int, signed: bool, k: nat,
                     up: bool)
    requires lsig < |before| && 0 < k < before[lsig].width && !(op.ArithmeticRight? && signed)
    requires k == (if n > 0 then n else -n) && up == (op.Left? == (n > 0))
    requires nets == WithPadding(before, lsig, k, up) && id == |nets| - 1
    ensures before <= nets && ShiftNet(nets, id, op, lsig, n, signed)
  {
    PaddingShape(before, nets, lsig, k, up);
    forall val | Consistent(nets, val) ensures val[id] == ShiftedBy(op, val[lsig], n, signed) {
      PaddedNet(nets, lsig, k, up, val);
      PaddedBits(op, val[lsig], n, signed);
    }
  }

  /** The nets with a part select, k zeros and their concatenation added. */
  function WithPadding(before: seq<Net>, lsig: nat, k: nat, up: bool): seq<Net>
    requires lsig < |before| && k < before[lsig].width
  {
    var (n, w) := (|before|, before[lsig].width);
    before + [Net(PartSelect(lsig, if up then 0 else k), w - k)]
    + [Net(Constant(Repeat(V0, k)), k), Net(Concat(if up then [n + 1, n] else [n, n + 1]), w)]
  }

  /** The last three nodes are a part select, k zeros, and their concatenation. */
  predicate PaddingNodes(nets: seq<Net>, lsig: nat, k: nat, up: bool) {
    && |nets| >= 3 && lsig < |nets| - 3 && k < nets[lsig].width
    && nets[|nets| - 3] == Net(PartSelect(lsig, if up then 0 else k), nets[lsig].width - k)
    && nets[|nets| - 2] == Net(Constant(Repeat(V0, k)), k)
    && nets[|nets| - 1] == Net(Concat(if up then [|nets| - 2, |nets| - 3]
            else [|nets| - 3, |nets| - 2]), nets[lsig].width)
  }

  lemma PaddingShape(before: seq<Net>, nets: seq<Net>, lsig: nat, k: nat, up: bool)
    requires lsig < |before| && k < before[lsig].width && nets == WithPadding(before, lsig, k, up)
    ensures PaddingNodes(nets, lsig, k, up)
  {
  }

  /** Part of v, with k zeros below or above it. */
  function Padded(v: Bits, k: nat, up: bool): Bits
    requires k < |v|
  {
    if up then Repeat(V0, k) + v[..|v| - k] else v[k..] + Repeat(V0, k)
  }

  lemma PaddedNet(nets: seq<Net>, lsig: nat, k: nat, up: bool, val: seq<Bits>)
    requires PaddingNodes(nets, lsig, k, up) && Consistent(nets, val)
    ensures k < |val[lsig]| && val[|nets| - 1] == Padded(val[lsig], k, up)
  {
    var (p, z, o) := (|nets| - 3, |nets| - 2, |nets| - 1);
    PartSelectValue(nets, val, p);
    ConstantValue(nets, val, z);
    if up {
      ConcatOfTwo(nets, val, o, z, p);
    } else {
      ConcatOfTwo(nets, val, o, p, z);
    }
  }

  lemma PaddedBits(op: ShiftOp, v: Bits, n: int, signed: bool)
    requires -(|v| as int) < n < |v| && n != 0 && !(op.ArithmeticRight? && signed)
    ensures Padded(v, if n > 0 then n else -n, op.Left? == (n > 0)) == ShiftedBy(op, v, n, signed)
  {
    PaddedShifts(v, if n > 0 then n else -n, op);
  }

  lemma PaddedShifts(v: Bits, k: nat, op: ShiftOp)
    requires k < |v|
    ensures Padded(v, k, true) == Shifted(Left, v, k, |v|, V0)
    ensures !op.Left? ==> Padded(v, k, false) == Shifted(op, v, k, |v|, V0)
    ensures Padded(v, k, false) == Shifted(Right, v, k, |v|, V0)
  {
  }

  // ----- when folding and synthesis agree -----

  /**
   * Folding a constant agrees with the netlist for it: the same vector if it is sized, else the same
   * number modulo 2^m, for the m bits of the constant's net.
   */
  predicate Agree(op: ShiftOp, left: Verinum, rv: Verinum, signed: bool)
    requires left.bits != []
  {
    var m := |left.bits|;
    var f, net := Folded(op, left, rv.bits, m, m, signed, 0), ShiftedBy(op, left.bits, AsLong(rv), signed);
    if left.hasLen then f == net else Defined(f) && Wrap(Value(f), Pow2(m)) == Value(net)
  }

  lemma WordSize()
    ensures Pow2(32) == 0x1_0000_0000
  {
    Pow2Doubled(4, 16);
    Pow2Doubled(8, 256);
    Pow2Doubled(16, 0x1_0000);
  }

  lemma Pow2Doubled(n: nat, p: nat)
    requires Pow2(n) == p
    ensures Pow2(2 * n) == p * p
  {
    Pow2Add(n, n);
  }

  lemma AmountsAgree(rv: Verinum)
    requires Operand(rv.bits) && 0 <= IntValue(rv) < 0x1_0000_0000
    ensures AsLong(rv) == IntValue(rv) == ShiftAmount(rv.bits)
  {
    ValueBound(rv.bits);
    if |rv.bits| > 63 {
      WordSize();
      Pow2Monotone(32, 63);
      LowBitsHoldValue(rv.bits, 63);
    } else {
      assert rv.bits[..|rv.bits|] == rv.bits;
    }
  }

  /** A shift of a sized operand by a defined amount that is not negative is folded and synthesized alike. */
  lemma NonNegativeAmountsAgree(op: ShiftOp, left: Verinum, rv: Verinum, signed: bool)
    requires Operand(rv.bits) && 0 <= IntValue(rv) < 0x1_0000_0000 && left.bits != [] && left.hasLen
    ensures Agree(op, left, rv, signed)
  {
    AmountsAgree(rv);
  }

  /** A negative amount of at most 32 bits: synthesis sees the sign, folding the bits. */
  lemma NegativeAmount(rv: Verinum)
    requires Operand(rv.bits) && IntValue(rv) < 0 && |rv.bits| <= 32
    ensures AsLong(rv) == IntValue(rv) && 0 < Value(rv.bits) == ShiftAmount(rv.bits)
  {
    ValueBound(rv.bits);
    WordSize();
    Pow2Monotone(|rv.bits|, 32);
    assert rv.bits[..|rv.bits|] == rv.bits;
    Ranges(rv.bits, Pow2(|rv.bits| - 1));
  }

  /**
   * For a shift amount smaller than the width, folding and synthesis agree on every sized operand
   * exactly when the amount is defined and not negative.
   */
  lemma AgreeExactly(op: ShiftOp, rv: Verinum, w: nat, signed: bool)
    requires rv.bits != [] && |rv.bits| <= 32 && 0 < w
    requires -(w as int) < IntValue(rv) < w
    ensures (forall left: Verinum | left.hasLen && |left.bits| == w && Defined(left.bits) ::
            Agree(op, left, rv, signed))
            <==> Defined(rv.bits) && IntValue(rv) >= 0
  {
    if !Defined(rv.bits) {
      var v := Repeat(V0, w);
      assert Repeat(Vx, w)[0] == Vx && v[0] == V0;
      NoShift(op, v, Pad(op, v, signed));
      assert !Agree(op, Verinum(v, false, true, false), rv, signed);
    } else if IntValue(rv) >= 0 {
      ValueBound(rv.bits);
      WordSize();
      Pow2Monotone(|rv.bits|, 32);
      forall left: Verinum | left.hasLen && |left.bits| == w && Defined(left.bits) ensures Agree(op, left, rv, signed) {
        NonNegativeAmountsAgree(op, left, rv, signed);
      }
    } else {
      NegativeAmount(rv);
      var v := NegativeDiffers(op, w, IntValue(rv), ShiftAmount(rv.bits), signed);
      assert !Agree(op, Verinum(v, false, true, false), rv, signed);
    }
  }

  /** A vector that a shift by n < 0 and a shift by s in the other direction treat differently. */
  lemma NegativeDiffers(op: ShiftOp, w: nat, n: int, s: nat, signed: bool) returns (v: Bits)
    requires -(w as int) < n < 0 < s
    ensures |v| == w && Defined(v) && Shifted(op, v, s, w, Pad(op, v, signed)) != ShiftedBy(op, v, n, signed)
  {
    if op.Left? {
      v := Repeat(V1, w);
      assert Shifted(Left, v, s, w, V0)[0] == V0 && Shifted(Right, v, -n, w, V0)[0] == V1;
    } else if op.ArithmeticRight? && signed {
      v := [V1] + Repeat(V0, w - 1);
      assert Shifted(op, v, s, w, Top(v))[0] == V0;
      var e := ExtendTo(v[..w + n], v[w + n - 1], w);
      assert e[..w + n][0] == e[0];
    } else {
      v := Repeat(V1, w);
      var i := if s < w then 0 else w - 1;
      assert Shifted(op, v, s, w, V0)[i] == if s < w then V1 else V0;
      assert Shifted(Left, v, -n, w, V0)[i] == if s < w then V0 else V1;
    }
  }

  // ----- operands of indefinite length -----

  /**
   * A shift of an operand of indefinite length, by an amount that is not negative and smaller than its
   * width, is folded and synthesized alike exactly when the operand is not negative, or the folded
   * result is at least as wide as the operand: the sign bits that trimming drops do not come back.
   */
  lemma UnsizedAgreeExactly(op: ShiftOp, left: Verinum, rv: Verinum, signed: bool)
    requires Operand(left.bits) && !left.hasLen
    requires Operand(rv.bits) && 0 <= IntValue(rv) < |left.bits| && IntValue(rv) < 0x1_0000_0000
    ensures Agree(op, left, rv, signed)
            <==> !Negative(left) || ResultWidth(op, left, IntValue(rv), |left.bits|, 0) >= |left.bits|
  {
    AmountsAgree(rv);
    var n := IntValue(rv);
    TrimmedValue(left);
    if op.Left? {
      UnsizedLeft(left, n, signed);
    } else if op.ArithmeticRight? && signed {
      UnsizedArithmetic(left, n);
    } else {
      UnsizedRight(op, left, n, signed);
    }
  }

  lemma ShiftedDefined(op: ShiftOp, v: Bits, n: nat, wid: nat, pad: Bit)
    requires Defined(v) && Known(pad)
    ensures Defined(Shifted(op, v, n, wid, pad))
  {
  }

  lemma UnsizedLeft(left: Verinum, n: nat, signed: bool)
    requires Operand(left.bits) && !left.hasLen && n < |left.bits|
    ensures var (f, net) := (FoldedBy(Left, left, n, |left.bits|, signed, 0), ShiftedBy(Left, left.bits, n, signed));
            && Defined(f)
            && (Wrap(Value(f), Pow2(|left.bits|)) == Value(net)
                <==> !Negative(left) || |Trim(left).bits| + n >= |left.bits|)
  {
    var m, v := |left.bits|, Trim(left).bits;
    var low, total := Products(Value(v), Value(left.bits), Pow2(n));
    TrimmedValue(left);
    ShiftedDefined(Left, v, n, |v| + n, V0);
    LosslessTotal(v, n, low);
    LeftShiftMultiplies(left.bits, n, total);
    ShiftedSignBits(Value(v), Value(left.bits), n, m, |v|, low, total);
  }

  lemma Products(a: nat, b: nat, p: nat) returns (low: nat, total: nat)
    ensures low == a * p && total == b * p
  {
    low, total := a * p, b * p;
  }

  /** Shifted up n places, the 2^m - 2^t of trimmed sign bits matter unless they are beyond m bits. */
  lemma ShiftedSignBits(a: nat, b: nat, n: nat, m: nat, t: nat, low: nat, total: nat)
    requires (b == a || b == a + Pow2(m) - Pow2(t)) && low == a * Pow2(n) && total == b * Pow2(n)
    ensures b == a ==> Wrap(low, Pow2(m)) == Wrap(total, Pow2(m))
    ensures b == a + Pow2(m) - Pow2(t) ==> (Wrap(low, Pow2(m)) == Wrap(total, Pow2(m)) <==> t + n >= m)
  {
    if b == a + Pow2(m) - Pow2(t) {
      Pow2Add(t, n);
      SignBitsTimes(a, b, Pow2(n), Pow2(m), Pow2(t), Pow2(t + n));
      SignBitsSeen(low, total, Pow2(m) * Pow2(n), Pow2(n), m, t + n, total - Pow2(m) * Pow2(n));
    }
  }

  lemma SignBitsSeen(low: nat, total: nat, multiple: nat, n: nat, m: nat, e: nat, middle: int)
    requires multiple == Pow2(m) * n && middle == total - multiple && low == middle + Pow2(e)
    ensures Wrap(low, Pow2(m)) == Wrap(total, Pow2(m)) <==> e >= m
  {
    WrapMultipleOf(total, Pow2(m), n, multiple);
    PowerSeen(middle, low, e, m);
  }

  lemma SignBitsTimes(a: nat, b: nat, p: nat, m: nat, t: nat, tp: nat)
    requires b == a + m - t && tp == t * p
    ensures a * p == b * p - m * p + tp
  {
  }

  lemma UnsizedRight(op: ShiftOp, left: Verinum, n: nat, signed: bool)
    requires Operand(left.bits) && !left.hasLen && n < |left.bits|
    requires op.Right? || (op.ArithmeticRight? && !signed)
    ensures var (f, net) := (FoldedBy(op, left, n, |left.bits|, signed, 0), ShiftedBy(op, left.bits, n, signed));
            && Defined(f)
            && (Wrap(Value(f), Pow2(|left.bits|)) == Value(net)
                <==> !Negative(left) || |Trim(left).bits| >= |left.bits|)
  {
    TrimmedValue(left);
    var f := FoldedBy(op, left, n, |left.bits|, signed, 0);
    ShiftedDefined(op, Trim(left).bits, n, |Trim(left).bits|, V0);
    assert f == FoldedBy(Right, left, n, |left.bits|, signed, 0);
    assert ShiftedBy(op, left.bits, n, signed) == Shifted(Right, left.bits, n, |left.bits|, V0);
    FoldedRightDividesExactly(left, n, |left.bits|, signed);
    RightShiftDivides(left.bits, n);
    ValueBound(f);
    Pow2Monotone(|f|, |left.bits|);
  }

  lemma UnsizedArithmetic(left: Verinum, n: nat)
    requires Operand(left.bits) && !left.hasLen && n < |left.bits|
    ensures var f := FoldedBy(ArithmeticRight, left, n, |left.bits|, true, 0);
            var net := ShiftedBy(ArithmeticRight, left.bits, n, true);
            && Defined(f)
            && (Wrap(Value(f), Pow2(|left.bits|)) == Value(net)
                <==> !Negative(left) || |Trim(left).bits| >= |left.bits|)
  {
    TrimmedValue(left);
    var v, m, pad := Trim(left).bits, |left.bits|, Top(left.bits);
    var f, net := Shifted(ArithmeticRight, v, n, |v|, pad), Shifted(ArithmeticRight, left.bits, n, m, pad);
    ShiftedDefined(ArithmeticRight, v, n, |v|, pad);
    SmallValueWraps(f, m);
    if |v| == m {
      SmallValueWraps(net, m);
    } else if Negative(left) {
      NegativeArithmetic(left, n);
    } else {
      UnsignedTop(left);
      assert f == Shifted(Right, v, n, |v|, V0) && net == Shifted(Right, left.bits, n, m, V0);
      FoldedRightDividesExactly(left, n, m, true);
      RightShiftDivides(left.bits, n);
    }
  }

  lemma SmallValueWraps(f: Bits, m: nat)
    requires |f| <= m
    ensures Wrap(Value(f), Pow2(m)) == Value(f)
  {
    ValueBound(f);
    Pow2Monotone(|f|, m);
  }

  /** Both stand for the same negative number, in different widths. */
  lemma NegativeArithmetic(left: Verinum, n: nat)
    requires Operand(left.bits) && Negative(left) && |Trim(left).bits| < |left.bits|
    requires Operand(Trim(left).bits) && Top(Trim(left).bits) == V1
    ensures var (v, m) := (Trim(left).bits, |left.bits|);
            Value(Shifted(ArithmeticRight, v, n, |v|, V1)) != Value(Shifted(ArithmeticRight, left.bits, n, m, V1))
  {
    var v := Trim(left).bits;
    ArithmeticShiftDivides(v, n);
    ArithmeticShiftDivides(left.bits, n);
    TrimKeepsValue(left);
    StaysNegative(v, n);
    StaysNegative(left.bits, n);
    Pow2Monotone(|v| + 1, |left.bits|);
  }

  lemma UnsignedTop(v: Verinum)
    requires Operand(v.bits) && !Negative(v) && Trim(v) != v
    ensures Top(v.bits) == V0
  {
    if !v.signed { TrimmedTop(v); }
  }

  /** The sign bit stays what it is. */
  lemma StaysNegative(v: Bits, n: nat)
    requires Operand(v) && Top(v) == V1
    ensures Top(Shifted(ArithmeticRight, v, n, |v|, Top(v))) == V1
  {
  }

  /** The number -4 in four bits is trimmed to three: shifted by one place it folds to 2, and its net carries 6. */
  lemma TrimmedShiftDiffers()
    ensures var left := Verinum([V0, V0, V1, V1], true, false, false);
            && IntValue(left) == -4
            && Value(FoldedBy(Right, left, 1, 4, true, 0)) == 2 && Value(ShiftedBy(Right, left.bits, 1, true)) == 6
  {
    var left := Verinum([V0, V0, V1, V1], true, false, false);
    var v := left.bits;
    assert v[1..] == [V0, V1, V1] && v[1..][1..] == [V1, V1] && v[1..][1..][1..] == [V1] && v[1..][1..][1..][1..] == [];
    assert Value(v) == 12 && Pow2(4) == 16;
    assert LastOther(v, V1, 3) == 1;
    assert Trim(left).bits == v[..3] == [V0, V0, V1];
    FoldedRightDividesExactly(left, 1, 4, true);
    RightShiftDivides(v, 1);
    TrimmedValue(left);
    assert Pow2(3) == 8 && Pow2(1) == 2;
  }
}
