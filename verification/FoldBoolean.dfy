/**
 * Constant folding of comparisons, logical operators and reductions, and what their answers say
 * about operands with unknown bits.
 */
module FoldBoolean {
  import opened Verinum

  // ----- equality -----

  /** The bit a vector is extended with: its own sign bit if it is signed and negative. */
  function OwnPad(v: Verinum): Bit {
    if v.signed && v.bits != [] && Top(v.bits) == V1 then V1 else V0
  }

  function Min(a: nat, b: nat): nat {
    if a < b then a else b
  }

  /** Two numbers have the same bits, each extended by its own padding to the longer length. */
  predicate SameNumber(l: Verinum, r: Verinum) {
    var n := Longest(l.bits, r.bits);
    ExtendTo(l.bits, OwnPad(l), n) == ExtendTo(r.bits, OwnPad(r), n)
  }

  /** Somewhere both vectors have a known bit, and these differ. */
  predicate Clash(u: Bits, v: Bits)
    requires |u| == |v|
  {
    exists i | 0 <= i < |u| :: Known(u[i]) && Known(v[i]) && u[i] != v[i]
  }

  /** The verdict on the bits both operands have: V1 equal, V0 different, Vx unknown. */
  function HeadVerdict(u: Bits, v: Bits): Bit
    requires |u| == |v|
  {
    if Clash(u, v) then V0 else if Defined(u) && Defined(v) then V1 else Vx
  }

  /** The verdict after the bits beyond the shorter operand. */
  function TailVerdict(tail: Bits, pad: Bit, head: Bit): Bit {
    if !Defined(tail) then Vx else if !AllAre(tail, pad) then V0 else head
  }

  /** What folding == answers. */
  function EqualityFold(l: Verinum, r: Verinum): Bit {
    var n := Min(|l.bits|, |r.bits|);
    var head := HeadVerdict(l.bits[..n], r.bits[..n]);
    if head == Vx then Vx
    else if |l.bits| > n then TailVerdict(l.bits[n..], OwnPad(r), head)
    else TailVerdict(r.bits[n..], OwnPad(l), head)
  }

  /** != gives the opposite answer, and x with x. */
  function FlagAnswer(b: Bit, neFlag: bool): Bit {
    if neFlag then NotBit(b) else b
  }

  /** The pass over the bits both operands have. */
  method CompareHead(u: Bits, v: Bits, eqRes: Bit, neRes: Bit) returns (res: Bit)
    requires |u| == |v| && Known(eqRes) && neRes == NotBit(eqRes)
    ensures res == if HeadVerdict(u, v) == V1 then eqRes else if HeadVerdict(u, v) == V0 then neRes else Vx
  {
    res := eqRes;
    var idx := 0;
    while idx < |u|
      invariant idx <= |u|
      invariant !Clash(u[..idx], v[..idx])
      invariant res == if Defined(u[..idx]) && Defined(v[..idx]) then eqRes else Vx
    {
      assert u[..idx + 1] == u[..idx] + [u[idx]] && v[..idx + 1] == v[..idx] + [v[idx]];
      AppendBit(u[..idx], u[idx]);
      AppendBit(v[..idx], v[idx]);
      var xPresent := false;
      if u[idx] == Vx || u[idx] == Vz {
        res := Vx;
        xPresent := true;
      }
      if v[idx] == Vx || v[idx] == Vz {
        res := Vx;
        xPresent := true;
      }
      if !xPresent && v[idx] != u[idx] {
        assert Clash(u, v);
        res := neRes;
        return;
      }
      idx := idx + 1;
    }
    assert u[..idx] == u && v[..idx] == v;
  }

  /** One pass over the bits beyond the shorter operand. */
  method CompareTail(tail: Bits, pad: Bit, start: Bit, neRes: Bit) returns (res: Bit)
    requires Known(pad) && Known(start) && Known(neRes)
    ensures res == if !Defined(tail) then Vx else if !AllAre(tail, pad) then neRes else start
  {
    res := start;
    for idx := 0 to |tail|
      invariant res == if !Defined(tail[..idx]) then Vx else if !AllAre(tail[..idx], pad) then neRes else start
    {
      assert tail[..idx + 1] == tail[..idx] + [tail[idx]];
      AppendBit(tail[..idx], tail[idx]);
      match tail[idx]
      case Vx => res := Vx;
      case Vz => res := Vx;
      case V0 => if res != Vx && pad != V0 { res := neRes; }
      case V1 => if res != Vx && pad != V1 { res := neRes; }
    }
    assert tail[..|tail|] == tail;
  }

  /** Folding <A> == <B> and <A> != <B>. */
  method EvalEqEq(l: Verinum, r: Verinum, neFlag: bool) returns (res: Bit)
    ensures res == FlagAnswer(EqualityFold(l, r), neFlag)
  {
    var lv, rv := l.bits, r.bits;
    var eqRes := if neFlag then V0 else V1;
    var neRes := if neFlag then V1 else V0;
    var top := |lv|;
    if |rv| < top {
      top := |rv|;
    }
    res := CompareHead(lv[..top], rv[..top], eqRes, neRes);
    if res != Vx {
      var lpad := V0;
      var rpad := V0;
      if l.signed && lv != [] && lv[|lv| - 1] == V1 {
        lpad := V1;
      }
      if r.signed && rv != [] && rv[|rv| - 1] == V1 {
        rpad := V1;
      }
      res := CompareTail(lv[top..], rpad, res, neRes);
      if res != Vx {
        res := CompareTail(rv[top..], lpad, res, neRes);
      }
    }
  }

  lemma DefinedFillIsSelf(f: Bits, v: Bits)
    requires Fills(f, v) && Defined(v)
    ensures f == v
  {
  }

  /** On defined operands the fold decides equality. */
  lemma DefinedEquality(l: Verinum, r: Verinum)
    requires Defined(l.bits) && Defined(r.bits)
    ensures EqualityFold(l, r) == if SameNumber(l, r) then V1 else V0
  {
    var n := Min(|l.bits|, |r.bits|);
    if |l.bits| > n {
      ExtendedEqual(l.bits, r.bits, OwnPad(l), OwnPad(r));
    } else {
      ExtendedEqual(r.bits, l.bits, OwnPad(r), OwnPad(l));
    }
  }

  /** Comparing with the extension of a shorter vector is comparing the head, and the tail with the pad. */
  lemma ExtendedEqual(v: Bits, u: Bits, p: Bit, q: Bit)
    requires Defined(u) && Defined(v) && |u| <= |v|
    ensures ExtendTo(v, p, |v|) == ExtendTo(u, q, |v|)
            <==> HeadVerdict(v[..|u|], u) == V1 && AllAre(v[|u|..], q)
    ensures HeadVerdict(v[..|u|], u) == HeadVerdict(u, v[..|u|])
    ensures HeadVerdict(v[..|u|], u) != Vx
    ensures u[..|u|] == u
  {
    var a, b := ExtendTo(v, p, |v|), ExtendTo(u, q, |v|);
    assert a == v;
    if HeadVerdict(v[..|u|], u) == V1 && AllAre(v[|u|..], q) {
      forall i | 0 <= i < |v| ensures a[i] == b[i] {
        if i < |u| {
          assert v[..|u|][i] == v[i];
        } else {
          assert v[|u|..][i - |u|] == v[i];
        }
      }
    }
    if a == b {
      assert forall i | 0 <= i < |u| :: v[..|u|][i] == b[i];
      assert forall i | 0 <= i < |v| - |u| :: v[|u|..][i] == b[i + |u|];
    }
  }

  /** A definite answer holds however the unknown bits are filled, for operands of any lengths. */
  lemma EqualityFoldIsSound(l: Verinum, r: Verinum, f: Bits, g: Bits)
    requires Fills(f, l.bits) && Fills(g, r.bits)
    ensures EqualityFold(l, r) == V1 ==> SameNumber(l.(bits := f), r.(bits := g))
    ensures EqualityFold(l, r) == V0 ==> !SameNumber(l.(bits := f), r.(bits := g))
  {
    var n := Min(|l.bits|, |r.bits|);
    if Clash(l.bits[..n], r.bits[..n]) {
      ClashStays(l.(bits := f), r.(bits := g), l.bits, r.bits);
      assert EqualityFold(l, r) != V1;
    } else if EqualityFold(l, r) != Vx {
      DecidedIsDefined(l, r);
      DefinedFillIsSelf(f, l.bits);
      DefinedFillIsSelf(g, r.bits);
      DefinedEquality(l, r);
    }
  }

  /** Vectors that clash are different however they are filled. */
  lemma ClashStays(l: Verinum, r: Verinum, u: Bits, v: Bits)
    requires Fills(l.bits, u) && Fills(r.bits, v)
    requires var n := Min(|u|, |v|); Clash(u[..n], v[..n])
    ensures !SameNumber(l, r)
  {
    var n, m := Min(|u|, |v|), Longest(l.bits, r.bits);
    var i :| 0 <= i < n && Known(u[..n][i]) && Known(v[..n][i]) && u[..n][i] != v[..n][i];
    assert l.bits[i] == u[i] && r.bits[i] == v[i];
    assert ExtendTo(l.bits, OwnPad(l), m)[i] != ExtendTo(r.bits, OwnPad(r), m)[i];
  }

  /** Without a clash, only defined operands get a definite answer. */
  lemma DecidedIsDefined(l: Verinum, r: Verinum)
    requires EqualityFold(l, r) != Vx
    requires var n := Min(|l.bits|, |r.bits|); !Clash(l.bits[..n], r.bits[..n])
    ensures Defined(l.bits) && Defined(r.bits)
  {
    var n := Min(|l.bits|, |r.bits|);
    SplitDefined(l.bits, n);
    SplitDefined(r.bits, n);
    assert |l.bits[n..]| == 0 || |r.bits[n..]| == 0;
  }

  lemma SplitDefined(v: Bits, n: nat)
    requires n <= |v|
    ensures Defined(v) <==> Defined(v[..n]) && Defined(v[n..])
  {
    if Defined(v[..n]) && Defined(v[n..]) {
      forall i | 0 <= i < |v| ensures Known(v[i]) {
        if i < n { assert v[..n][i] == v[i]; } else { assert v[n..][i - n] == v[i]; }
      }
    }
  }

  /** Without a clash both vectors fill to one. */
  function CommonFill(u: Bits, v: Bits): (f: Bits)
    requires |u| == |v| && !Clash(u, v)
    ensures Fills(f, u) && Fills(f, v)
  {
    seq(|u|, i requires 0 <= i < |u| => if Known(u[i]) then u[i] else if Known(v[i]) then v[i] else V0)
  }

  lemma SameLengthSameNumber(l: Verinum, r: Verinum)
    requires |l.bits| == |r.bits|
    ensures SameNumber(l, r) <==> l.bits == r.bits
  {
    var n := |l.bits|;
    assert ExtendTo(l.bits, OwnPad(l), n) == l.bits;
    assert ExtendTo(r.bits, OwnPad(r), n) == r.bits;
  }

  /** For operands of one length x is answered only when both answers are possible. */
  lemma EqualityFoldIsComplete(l: Verinum, r: Verinum) returns (f: Bits, f': Bits, g': Bits)
    requires |l.bits| == |r.bits| && EqualityFold(l, r) == Vx
    ensures Fills(f, l.bits) && Fills(f, r.bits) && SameNumber(l.(bits := f), r.(bits := f))
    ensures Fills(f', l.bits) && Fills(g', r.bits) && !SameNumber(l.(bits := f'), r.(bits := g'))
  {
    var n := |l.bits|;
    assert l.bits[..n] == l.bits && r.bits[..n] == r.bits;
    f := CommonFill(l.bits, r.bits);
    f', g' := UncommonFills(l.bits, r.bits, f);
    SameLengthSameNumber(l.(bits := f), r.(bits := f));
    SameLengthSameNumber(l.(bits := f'), r.(bits := g'));
  }

  /** An unknown bit of either vector can be filled otherwise than in a common fill. */
  lemma UncommonFills(u: Bits, v: Bits, f: Bits) returns (f': Bits, g': Bits)
    requires Fills(f, u) && Fills(f, v) && !(Defined(u) && Defined(v))
    ensures Fills(f', u) && Fills(g', v) && f' != g'
  {
    var k :| 0 <= k < |f| && (!Known(u[k]) || !Known(v[k]));
    var other := f[k := NotBit(f[k])];
    assert other[k] != f[k];
    f', g' := if Known(u[k]) then f else other, if Known(u[k]) then other else f;
  }

  // ----- case equality -----

  /** The bit === extends v with: its sign bit when both operands are signed, else 0. */
  function CommonPad(v: Verinum, signed: bool): Bit {
    if signed && v.bits != [] then Top(v.bits) else V0
  }

  /** The vectors are the same, x and z included, when extended to the longer length. */
  predicate CaseEqual(l: Verinum, r: Verinum) {
    var n := Longest(l.bits, r.bits);
    var signed := l.signed && r.signed;
    ExtendTo(l.bits, CommonPad(l, signed), n) == ExtendTo(r.bits, CommonPad(r, signed), n)
  }

  method FirstDifferent(tail: Bits, pad: Bit) returns (res: Bit)
    ensures res == if AllAre(tail, pad) then V1 else V0
  {
    res := V1;
    var idx := 0;
    while idx < |tail|
      invariant idx <= |tail| && res == V1
      invariant AllAre(tail[..idx], pad)
    {
      if tail[idx] != pad {
        res := V0;
        return;
      }
      assert tail[..idx + 1] == tail[..idx] + [tail[idx]];
      idx := idx + 1;
    }
    assert tail[..idx] == tail;
  }

  /** The pass over the bits both operands have, x and z included. */
  method SameHead(u: Bits, v: Bits) returns (res: Bit)
    requires |u| == |v|
    ensures res == if u == v then V1 else V0
  {
    res := V1;
    var idx := 0;
    while idx < |u| && res == V1
      invariant idx <= |u| && res == if u[..idx] == v[..idx] then V1 else V0
    {
      assert u[..idx + 1] == u[..idx] + [u[idx]] && v[..idx + 1] == v[..idx] + [v[idx]];
      if u[idx] != v[idx] {
        res := V0;
      }
      idx := idx + 1;
    }
    if res == V1 {
      assert u[..idx] == u && v[..idx] == v;
    }
  }

  /** Folding <A> === <B> and <A> !== <B>. */
  method EvalCaseEq(l: Verinum, r: Verinum, neFlag: bool) returns (res: Bit)
    requires l.signed && r.signed ==> l.bits != [] && r.bits != []
    ensures res == if CaseEqual(l, r) != neFlag then V1 else V0
  {
    var lv, rv := l.bits, r.bits;
    var cnt := |lv|;
    if cnt > |rv| {
      cnt := |rv|;
    }
    res := SameHead(lv[..cnt], rv[..cnt]);
    var isSigned := l.signed && r.signed;
    CaseEqualSplit(l, r);
    if res == V1 {
      var pad := V0;
      if isSigned {
        pad := rv[|rv| - 1];
      }
      res := FirstDifferent(lv[cnt..], pad);
    }
    if res == V1 {
      var pad := V0;
      if isSigned {
        pad := lv[|lv| - 1];
      }
      res := FirstDifferent(rv[cnt..], pad);
    }
    if neFlag {
      res := if res == V0 then V1 else V0;
    }
  }

  lemma CaseEqualSplit(l: Verinum, r: Verinum)
    ensures var n := Min(|l.bits|, |r.bits|);
            var signed := l.signed && r.signed;
            CaseEqual(l, r) <==>
              && l.bits[..n] == r.bits[..n]
              && AllAre(l.bits[n..], CommonPad(r, signed)) && AllAre(r.bits[n..], CommonPad(l, signed))
  {
    var signed := l.signed && r.signed;
    if |l.bits| >= |r.bits| {
      PaddedEqual(l.bits, r.bits, CommonPad(l, signed), CommonPad(r, signed));
    } else {
      PaddedEqual(r.bits, l.bits, CommonPad(r, signed), CommonPad(l, signed));
    }
  }

  lemma PaddedEqual(v: Bits, u: Bits, p: Bit, q: Bit)
    requires |u| <= |v|
    ensures ExtendTo(v, p, |v|) == ExtendTo(u, q, |v|) <==> v[..|u|] == u && AllAre(v[|u|..], q)
    ensures u[..|u|] == u
  {
    var a, b := ExtendTo(v, p, |v|), ExtendTo(u, q, |v|);
    assert a == v;
    if a == b {
      assert forall i | 0 <= i < |u| :: v[..|u|][i] == b[i];
      assert forall i | 0 <= i < |v| - |u| :: v[|u|..][i] == b[i + |u|];
    }
    if v[..|u|] == u && AllAre(v[|u|..], q) {
      forall i | 0 <= i < |v| ensures a[i] == b[i] {
        if i < |u| { assert v[..|u|][i] == v[i]; } else { assert v[|u|..][i - |u|] == v[i]; }
      }
    }
  }

  /**
   * A shorter, signed and negative s, and a longer, unsigned t that begins like s and goes on with
   * equal bits.
   */
  predicate MixedSignClash(s: Verinum, t: Verinum) {
    && s.signed && !t.signed && 0 < |s.bits| < |t.bits| && Top(s.bits) == V1
    && t.bits[..|s.bits|] == s.bits
    && (AllAre(t.bits[|s.bits|..], V0) || AllAre(t.bits[|s.bits|..], V1))
  }

  /**
   * == extends each operand by its own sign, === only when both are signed, as the language has it
   * for both. On defined operands the two disagree exactly on a mixed-sign clash.
   */
  lemma EqualitiesAgreeExactly(l: Verinum, r: Verinum)
    requires Defined(l.bits) && Defined(r.bits)
    ensures (EqualityFold(l, r) == V1 <==> CaseEqual(l, r)) <==> !MixedSignClash(l, r) && !MixedSignClash(r, l)
  {
    DefinedEquality(l, r);
    CaseEqualSplit(l, r);
    if |l.bits| >= |r.bits| {
      PaddedEqual(l.bits, r.bits, OwnPad(l), OwnPad(r));
      PadsDiffer(l, r);
    } else {
      PaddedEqual(r.bits, l.bits, OwnPad(r), OwnPad(l));
      PadsDiffer(r, l);
    }
  }

  lemma PadsDiffer(t: Verinum, s: Verinum)
    requires |s.bits| <= |t.bits| && Defined(s.bits)
    ensures var tail := t.bits[|s.bits|..];
            (AllAre(tail, OwnPad(s)) <==> AllAre(tail, CommonPad(s, s.signed && t.signed)))
            <==> !(s.signed && !t.signed && 0 < |s.bits| < |t.bits| && Top(s.bits) == V1
                   && (AllAre(tail, V0) || AllAre(tail, V1)))
  {
    var tail := t.bits[|s.bits|..];
    if tail != [] {
      assert AllAre(tail, V0) ==> tail[0] == V0;
      assert AllAre(tail, V1) ==> tail[0] == V1;
    }
  }

  // ----- logical operators -----

  /** Some bit is 1. */
  predicate AnyOne(v: Bits) {
    exists i | 0 <= i < |v| :: v[i] == V1
  }

  /** Some bit is 0. */
  predicate AnyZero(v: Bits) {
    exists i | 0 <= i < |v| :: v[i] == V0
  }

  lemma AppendAny(v: Bits, b: Bit)
    ensures AnyOne(v + [b]) <==> AnyOne(v) || b == V1
    ensures AnyZero(v + [b]) <==> AnyZero(v) || b == V0
  {
    var w := v + [b];
    assert w[|v|] == b;
    assert forall i | 0 <= i < |v| :: w[i] == v[i];
    if AnyOne(v) { var i :| 0 <= i < |v| && v[i] == V1; assert w[i] == V1; }
    if AnyZero(v) { var i :| 0 <= i < |v| && v[i] == V0; assert w[i] == V0; }
  }

  /** V1 if some bit is 1, V0 if all are known and none is, else Vx. */
  function Truth(v: Bits): Bit {
    if AnyOne(v) then V1 else if Defined(v) then V0 else Vx
  }

  /** Every fill of a vector is true, none is, or there are both. */
  lemma TruthIsExact(v: Bits, f: Bits)
    requires Fills(f, v)
    ensures Truth(v) == V1 ==> AnyOne(f)
    ensures Truth(v) == V0 ==> !AnyOne(f)
    ensures Truth(v) == Vx ==> AnyOne(FillWith(v, V1)) && !AnyOne(FillWith(v, V0))
  {
    if AnyOne(v) {
      var i :| 0 <= i < |v| && v[i] == V1;
      assert f[i] == V1;
    } else if !Defined(v) {
      var i :| 0 <= i < |v| && !Known(v[i]);
      assert FillWith(v, V1)[i] == V1;
    }
  }

  /** The scan for the truth of one operand. */
  method TruthOf(v: Bits) returns (b: Bit)
    ensures b == Truth(v)
  {
    b := V0;
    var idx := 0;
    while idx < |v| && b == V0
      invariant idx <= |v|
      invariant b == if AnyOne(v[..idx]) then V1 else V0
    {
      assert v[..idx + 1] == v[..idx] + [v[idx]];
      AppendAny(v[..idx], v[idx]);
      if v[idx] == V1 {
        b := V1;
      }
      idx := idx + 1;
    }
    if b == V0 {
      assert v[..idx] == v;
      if !Defined(v) {
        b := Vx;
      }
    } else {
      var i :| 0 <= i < idx && v[..idx][i] == V1;
      assert v[i] == V1;
    }
  }

  datatype LogicOp = LogicalAnd | LogicalOr

  function LogicFold(op: LogicOp, lv: Bit, rv: Bit): Bit {
    match op
    case LogicalAnd => if lv == V0 || rv == V0 then V0 else if lv == V1 && rv == V1 then V1 else Vx
    case LogicalOr => if lv == V1 || rv == V1 then V1 else if lv == V0 && rv == V0 then V0 else Vx
  }

  predicate LogicMeaning(op: LogicOp, l: bool, r: bool) {
    match op case LogicalAnd => l && r case LogicalOr => l || r
  }

  /** Folding && and ||. */
  method EvalLogic(op: LogicOp, l: Bits, r: Bits) returns (res: Bit)
    ensures res == LogicFold(op, Truth(l), Truth(r))
  {
    var lv := TruthOf(l);
    var rv := TruthOf(r);
    match op
    case LogicalAnd =>
      res := if lv == V0 || rv == V0 then V0 else if lv == V1 && rv == V1 then V1 else Vx;
    case LogicalOr =>
      res := if lv == V1 || rv == V1 then V1 else if lv == V0 && rv == V0 then V0 else Vx;
  }

  /** The answer is exact: 1 or 0 when every fill agrees on it, x when both outcomes are possible. */
  lemma LogicFoldIsExact(op: LogicOp, l: Bits, r: Bits)
    ensures var res := LogicFold(op, Truth(l), Truth(r));
            && (res == V1 <==> forall f, g :: Fills(f, l) && Fills(g, r) ==> LogicMeaning(op, AnyOne(f), AnyOne(g)))
            && (res == V0 <==> forall f, g :: Fills(f, l) && Fills(g, r) ==> !LogicMeaning(op, AnyOne(f), AnyOne(g)))
  {
    var res := LogicFold(op, Truth(l), Truth(r));
    forall f, g | Fills(f, l) && Fills(g, r)
      ensures res == V1 ==> LogicMeaning(op, AnyOne(f), AnyOne(g))
      ensures res == V0 ==> !LogicMeaning(op, AnyOne(f), AnyOne(g))
    {
      TruthIsExact(l, f);
      TruthIsExact(r, g);
    }
    var f0, f1, g0, g1 := FillWith(l, V0), FillWith(l, V1), FillWith(r, V0), FillWith(r, V1);
    TruthIsExact(l, f0);
    TruthIsExact(l, f1);
    TruthIsExact(r, g0);
    TruthIsExact(r, g1);
    assert res != V1 ==> !LogicMeaning(op, AnyOne(f0), AnyOne(g0));
    assert res != V0 ==> LogicMeaning(op, AnyOne(f1), AnyOne(g1));
  }

  // ----- reductions -----

  datatype ReduceOp = Not | And | Nand | Or | Nor | Xor | Xnor

  function Ones(v: Bits): nat {
    if v == [] then 0 else Digit(v[0]) + Ones(v[1..])
  }

  /** What each reduction means on a defined vector. */
  predicate Reduced(op: ReduceOp, f: Bits) {
    match op
    case Not => !AnyOne(f)
    case And => !AnyZero(f)
    case Nand => AnyZero(f)
    case Or => AnyOne(f)
    case Nor => !AnyOne(f)
    case Xor => Ones(f) % 2 == 1
    case Xnor => Ones(f) % 2 == 0
  }

  /** What folding the reduction answers. */
  function ReduceFold(op: ReduceOp, v: Bits): Bit {
    match op
    case Not => NotBit(Truth(v))
    case And => if AnyZero(v) then V0 else if Defined(v) then V1 else Vx
    case Nand => if AnyZero(v) then V1 else if Defined(v) then V0 else Vx
    case Or => Truth(v)
    case Nor => NotBit(Truth(v))
    case Xor => if !Defined(v) then Vx else if Ones(v) % 2 == 1 then V1 else V0
    case Xnor => if !Defined(v) then Vx else if Ones(v) % 2 == 1 then V0 else V1
  }

  lemma {:induction false} OnesAppend(v: Bits, b: Bit)
    ensures Ones(v + [b]) == Ones(v) + Digit(b)
  {
    if v == [] {
      assert (v + [b])[1..] == [];
    } else {
      OnesAppend(v[1..], b);
      assert (v + [b])[1..] == v[1..] + [b];
    }
  }

  /** The counts of ones and of unknown bits. */
  method Count(v: Bits) returns (ones: nat, unknown: nat)
    ensures ones == Ones(v)
    ensures ones == 0 <==> !AnyOne(v)
    ensures unknown == 0 <==> Defined(v)
  {
    ones, unknown := 0, 0;
    for idx := 0 to |v|
      invariant ones == Ones(v[..idx])
      invariant ones == 0 <==> !AnyOne(v[..idx])
      invariant unknown == 0 <==> Defined(v[..idx])
    {
      assert v[..idx + 1] == v[..idx] + [v[idx]];
      OnesAppend(v[..idx], v[idx]);
      AppendAny(v[..idx], v[idx]);
      AppendBit(v[..idx], v[idx]);
      match v[idx]
      case V0 =>
      case V1 => ones := ones + 1;
      case Vx => unknown := unknown + 1;
      case Vz => unknown := unknown + 1;
    }
    assert v[..|v|] == v;
  }

  /** Folding a reduction. */
  method EvalReduce(op: ReduceOp, v: Bits) returns (res: Bit)
    ensures res == ReduceFold(op, v)
  {
    var invert := op == Nand || op == Nor || op == Xnor;
    if op == Not {
      var ones, unknown := Count(v);
      res := if ones != 0 then V0 else if unknown != 0 then Vx else V1;
    } else if op == And || op == Nand {
      res := V1;
      for idx := 0 to |v|
        invariant res == if AnyZero(v[..idx]) then V0 else if Defined(v[..idx]) then V1 else Vx
      {
        assert v[..idx + 1] == v[..idx] + [v[idx]];
        AppendAny(v[..idx], v[idx]);
        AppendBit(v[..idx], v[idx]);
        res := AndBit(res, v[idx]);
      }
      assert v[..|v|] == v;
    } else if op == Or || op == Nor {
      res := V0;
      for idx := 0 to |v|
        invariant res == Truth(v[..idx])
      {
        assert v[..idx + 1] == v[..idx] + [v[idx]];
        AppendAny(v[..idx], v[idx]);
        AppendBit(v[..idx], v[idx]);
        res := OrBit(res, v[idx]);
      }
      assert v[..|v|] == v;
    } else {
      var ones, unknown := Count(v);
      res := if unknown != 0 then Vx else if ones % 2 == 1 then V1 else V0;
    }
    if invert {
      res := NotBit(res);
    }
  }

  /** Some fills of v: all zeros, all ones, and, if a bit is unknown, two of different parity. */
  lemma TellingFills(v: Bits) returns (f0: Bits, f1: Bits, p: Bits)
    ensures Fills(f0, v) && Fills(f1, v) && Fills(p, v)
    ensures f0 == FillWith(v, V0) && f1 == FillWith(v, V1)
    ensures !Defined(v) ==> AnyZero(f0) && Ones(p) == Ones(f0) + 1
    ensures !AnyZero(v) ==> !AnyZero(f1)
  {
    f0, f1 := FillWith(v, V0), FillWith(v, V1);
    p := f0;
    if !Defined(v) {
      var i :| 0 <= i < |v| && !Known(v[i]);
      assert f0[i] == V0;
      p := f0[i := V1];
      OnesUpdate(f0, i, V1);
    }
  }

  lemma {:induction false} OnesUpdate(v: Bits, k: nat, b: Bit)
    requires k < |v|
    ensures Ones(v[k := b]) == Ones(v) - Digit(v[k]) + Digit(b)
  {
    if k == 0 {
      assert v[k := b][1..] == v[1..];
    } else {
      OnesUpdate(v[1..], k - 1, b);
      assert v[k := b][1..] == v[1..][k - 1 := b];
    }
  }

  lemma ReduceFoldIsSound(op: ReduceOp, v: Bits, f: Bits)
    requires Fills(f, v)
    ensures ReduceFold(op, v) == V1 ==> Reduced(op, f)
    ensures ReduceFold(op, v) == V0 ==> !Reduced(op, f)
  {
    TruthIsExact(v, f);
    if Defined(v) { DefinedFillIsSelf(f, v); }
    if AnyZero(v) {
      var i :| 0 <= i < |v| && v[i] == V0;
      assert f[i] == V0;
    }
  }

  /** The answer is exact: 1 or 0 when every fill agrees on it, x when both outcomes are possible. */
  lemma ReduceFoldIsExact(op: ReduceOp, v: Bits)
    ensures ReduceFold(op, v) == V1 <==> forall f :: Fills(f, v) ==> Reduced(op, f)
    ensures ReduceFold(op, v) == V0 <==> forall f :: Fills(f, v) ==> !Reduced(op, f)
  {
    forall f | Fills(f, v)
      ensures ReduceFold(op, v) == V1 ==> Reduced(op, f)
      ensures ReduceFold(op, v) == V0 ==> !Reduced(op, f)
    {
      ReduceFoldIsSound(op, v, f);
    }
    var f0, f1, p := TellingFills(v);
    TruthIsExact(v, f0);
    var res := ReduceFold(op, v);
    if res == Vx {
      if op == Xor || op == Xnor {
        assert Reduced(op, f0) <==> !Reduced(op, p);
      } else {
        assert Reduced(op, f0) <==> !Reduced(op, f1);
      }
    } else {
      assert Fills(f0, v);
    }
  }
}
