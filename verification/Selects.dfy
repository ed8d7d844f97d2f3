/**
 * Constant indexed part selects, [b +: w] and [b -: w], of vectors declared with an ascending or a
 * descending range: as l-values, as nets, and of parameters.
 */
module Selects {
  import opened Prelude
  import opened Verinum
  import opened VerinumArith
  import FoldConcat
  import FoldSelect
  import FoldShift

  datatype Direction = Up | Down

  /** The declared range of a vector. */
  datatype Range = Range(msb: int, lsb: int)

  /** The position, from the least significant bit, of a declared index. */
  function ToIdx(r: Range, sb: int): int {
    if r.msb >= r.lsb then sb - r.lsb else r.lsb - sb
  }

  /** The indices a select names. */
  predicate Named(base: int, wid: nat, dir: Direction, j: int) {
    if dir.Up? then base <= j < base + wid else base - wid < j <= base
  }

  /** The width of an indexed select: 1, and an error, if it is not a positive constant. */
  method CalculateWidth(wid: Option<Verinum>) returns (w: nat, ok: bool)
    ensures w > 0
    ensures ok <==> wid.Some? && Defined(wid.value.bits) && Value(wid.value.bits[..Low64(wid.value.bits)]) > 0
    ensures w == if ok then Value(wid.value.bits[..Low64(wid.value.bits)]) else 1
    ensures wid.Some? && Defined(wid.value.bits) && 0 < Value(wid.value.bits) < Pow2(64) ==> w == Value(wid.value.bits)
  {
    if wid.Some? && Value(wid.value.bits) < Pow2(64) {
      NativeHolds(wid.value.bits);
    }
    w := if wid.Some? then AsUnsigned(wid.value.bits) else 0;
    ok := true;
    if w == 0 {
      ok := false;
      w := 1;
    }
  }

  function Low64(v: Bits): (n: nat)
    ensures n <= |v|
  {
    if |v| > 64 then 64 else |v|
  }

  /** A number as a native unsigned integer: the low 64 bits, 0 if undefined. */
  function AsUnsigned(v: Bits): nat {
    if Defined(v) then Value(v[..Low64(v)]) else 0
  }

  lemma NativeHolds(v: Bits)
    requires Value(v) < Pow2(64)
    ensures Value(v[..Low64(v)]) == Value(v)
  {
    if |v| > 64 {
      LowBitsHoldValue(v, 64);
    } else {
      assert v[..|v|] == v;
    }
  }

  // ----- what a select covers -----

  /** The lowest position named. */
  function LowestNamed(r: Range, base: int, wid: nat, dir: Direction): int {
    if dir.Up? == (r.msb >= r.lsb) then ToIdx(r, base)
    else if dir.Up? then ToIdx(r, base + wid - 1)
    else ToIdx(r, base - wid + 1)
  }

  /** The positions covered are those of the named indices, and no others. */
  ghost predicate CoversNamed(r: Range, base: int, wid: nat, dir: Direction, low: int) {
    forall j :: Named(base, wid, dir, j) <==> low <= ToIdx(r, j) < low + wid
  }

  lemma CoversExactly(r: Range, base: int, wid: nat, dir: Direction, low: int)
    requires wid > 0
    ensures CoversNamed(r, base, wid, dir, low) <==> low == LowestNamed(r, base, wid, dir)
  {
    var least := LowestNamed(r, base, wid, dir);
    forall j ensures Named(base, wid, dir, j) <==> least <= ToIdx(r, j) < least + wid {
    }
    if low != least {
      var j := FromIdx(r, if low < least then low else low + wid - 1);
      assert Named(base, wid, dir, j) <==> least <= ToIdx(r, j) < least + wid;
    }
  }

  /** The index at a position. */
  function FromIdx(r: Range, i: int): int {
    if r.msb >= r.lsb then r.lsb + i else r.lsb - i
  }

  /** Indices and positions are in one-to-one correspondence. */
  lemma IndicesArePositions(r: Range, j: int, i: int)
    ensures ToIdx(r, j) == i <==> FromIdx(r, i) == j
  {
  }

  // ----- l-values and nets -----

  /** A descending select of more than one bit of a vector declared with equal bounds. */
  predicate EqualBoundsDown(r: Range, wid: nat, dir: Direction) {
    r.msb == r.lsb && dir.Down? && wid > 1
  }

  /**
   * The position of the lowest bit a procedural assignment to a select writes: the bits written are
   * those named, except in one case.
   */
  method LvalBase(r: Range, base: int, wid: nat, dir: Direction) returns (relBase: int)
    requires wid > 0
    ensures CoversNamed(r, base, wid, dir, relBase) <==> !EqualBoundsDown(r, wid, dir)
    ensures EqualBoundsDown(r, wid, dir) ==> relBase == LowestNamed(r, base, wid, dir) + wid - 1
  {
    var offset := 0;
    if (r.msb < r.lsb && dir.Up?) || (r.msb > r.lsb && dir.Down?) {
      offset := 1 - wid;
    }
    relBase := ToIdx(r, base) + offset;
    CoversExactly(r, base, wid, dir, relBase);
  }

  /** The highest and lowest position a select of a net covers; false if none of it is there. */
  method EvalPartSelect(r: Range, base: int, wid: nat, dir: Direction, width: nat)
      returns (ok: bool, midx: int, lidx: int)
    requires wid > 0 && width > 0
    ensures midx - lidx + 1 == wid && CoversNamed(r, base, wid, dir, lidx)
    ensures ok <==> exists j :: Named(base, wid, dir, j) && 0 <= ToIdx(r, j) < width
  {
    midx := ToIdx(r, base);
    if dir.Up? {
      lidx := ToIdx(r, base + wid - 1);
    } else {
      lidx := ToIdx(r, base - wid + 1);
    }
    if midx < lidx {
      midx, lidx := lidx, midx;
    }
    CoversExactly(r, base, wid, dir, lidx);
    ok := true;
    if lidx >= width || midx < 0 {
      ok := false;
    }
    if ok {
      var j := FromIdx(r, if lidx < 0 then 0 else lidx);
      assert Named(base, wid, dir, j) && 0 <= ToIdx(r, j) < width;
    }
  }

  /** The l-value and the net form of a select give the same lowest position, except in that case. */
  lemma LvalAgreesWithNet(r: Range, base: int, wid: nat, dir: Direction, relBase: int, lidx: int)
    requires wid > 0
    requires CoversNamed(r, base, wid, dir, relBase) <==> !EqualBoundsDown(r, wid, dir)
    requires CoversNamed(r, base, wid, dir, lidx)
    ensures relBase == lidx <==> !EqualBoundsDown(r, wid, dir)
  {
    CoversExactly(r, base, wid, dir, relBase);
    CoversExactly(r, base, wid, dir, lidx);
  }

  // ----- parameters -----

  /** The bit of a parameter at a position, which may be outside the value. */
  function DeclaredBit(v: Verinum, off: int): Bit {
    if off < 0 then Vx
    else if off < |v.bits| then v.bits[off]
    else if v.isString then V0
    else if v.hasLen then Vx
    else if v.signed && v.bits != [] then Top(v.bits) else V0
  }

  /** A parameter without a size is a number, all of whose binary digits can be selected. */
  lemma UnsizedParamBit(v: Verinum, off: nat)
    requires Operand(v.bits) && !v.hasLen && !v.isString
    ensures Known(DeclaredBit(v, off)) && Digit(DeclaredBit(v, off)) == (IntValue(v) / Pow2(off)) % 2
  {
    ValueBound(v.bits);
    if v.signed {
      SignedDigit(v.bits, off);
    } else if off < |v.bits| {
      ValueSplit(v.bits, off);
      DigitIsParity(v.bits[off..]);
    } else {
      Pow2Monotone(|v.bits|, off);
      ModUniqueQuotient(Value(v.bits), Pow2(off), 0);
    }
  }

  lemma ModUniqueQuotient(a: int, p: nat, q: int)
    requires p > 0 && p * q <= a < p * q + p
    ensures a / p == q
  {
    FoldShift.FloorUnique(a, p, q, a - p * q);
  }

  lemma SignedDigit(v: Bits, off: nat)
    requires Operand(v)
    ensures Digit(if off < |v| then v[off] else Top(v)) == (SignedValue(v) / Pow2(off)) % 2
  {
    if off < |v| {
      var high := v[off..];
      FoldShift.SignedParts(v, off);
      FoldShift.FloorUnique(SignedValue(v), Pow2(off), SignedValue(high), Value(v[..off]));
      DigitIsParity(high);
      SameParity(Value(high), Pow2(|high| - 1), SignedValue(high));
    } else {
      Ranges(v, Pow2(|v| - 1));
      Pow2Monotone(|v|, off);
      ModUniqueQuotient(SignedValue(v), Pow2(off), if Top(v) == V1 then -1 else 0);
    }
  }

  lemma SameParity(a: int, half: nat, b: int)
    requires b == a || b == a - 2 * half
    ensures a % 2 == b % 2
  {
  }

  /** A sized one is a vector, selected from with x outside; a string goes on with zeros. */
  lemma SizedParamBit(v: Verinum, lsv: int, wid: nat, k: nat)
    requires v.hasLen && k < wid
    ensures !v.isString ==> DeclaredBit(v, lsv + k) == FoldSelect.Selected(v.bits, lsv, wid, Vx)[k]
    ensures v.isString && lsv >= 0 ==> DeclaredBit(v, lsv + k) == FoldSelect.Selected(v.bits, lsv, wid, V0)[k]
  {
  }

  /** A bit in a result: strings have no unknown bits. */
  function Shown(b: Bit, isString: bool): Bit {
    if isString && b != V1 then V0 else b
  }

  /** The index that bit k of a select names: the bits are taken from the least significant. */
  function NamedAt(r: Range, base: int, wid: nat, dir: Direction, k: nat): int {
    var low := if dir.Up? then base else base - wid + 1;
    if r.msb < r.lsb then low + wid - 1 - k else low + k
  }

  /** Copying wid bits of a parameter from position lsv on. */
  method ParamPartSelectBits(v: Verinum, wid: nat, lsv: int) returns (result: Verinum)
    requires v.bits != []
    ensures result.isString <==> v.isString && lsv % 8 == 0 && wid % 8 == 0
    ensures wid > 0 ==> |result.bits| == wid
    ensures wid > 0 ==> forall k | 0 <= k < wid :: result.bits[k] == Shown(DeclaredBit(v, lsv + k), result.isString)
    ensures result.hasLen && !result.signed
  {
    var bits := new Bit[wid](_ => Vx);
    for idx := 0 to wid
      invariant forall k | 0 <= k < idx :: bits[k] == DeclaredBit(v, lsv + k)
      invariant forall k | idx <= k < wid :: bits[k] == Vx
    {
      var off := idx + lsv;
      if off < 0 {
        continue;
      } else if off < |v.bits| {
        bits[idx] := v.bits[off];
      } else if v.isString {
        bits[idx] := V0;
      } else if v.hasLen {
        continue;
      } else {
        bits[idx] := if v.signed then Top(v.bits) else V0;
      }
    }
    var s := bits[..];
    if v.isString && lsv % 8 == 0 && wid % 8 == 0 {
      FoldConcat.Stringized(s);
      return Verinum(FoldConcat.FromString(FoldConcat.AsString(s)), false, true, true);
    }
    result := Verinum(s, false, true, false);
  }

  /** The position from which an ascending select of a parameter is copied. */
  method ParamOffsetUp(par: Range, base: int, wid: nat) returns (offset: int)
    requires wid > 0
    ensures CoversNamed(par, base, wid, Up, offset)
    ensures forall k: nat | k < wid :: ToIdx(par, NamedAt(par, base, wid, Up, k)) == offset + k
  {
    var lsv := base;
    var parBase := par.lsb;
    if par.msb < par.lsb {
      parBase := lsv;
      lsv := par.lsb - wid + 1;
    }
    offset := lsv - parBase;
    CoversExactly(par, base, wid, Up, offset);
  }

  /** The position from which a descending select of a parameter is copied. */
  method ParamOffsetDown(par: Range, base: int, wid: nat) returns (offset: int)
    requires wid > 0
    ensures CoversNamed(par, base, wid, Down, offset)
    ensures forall k: nat | k < wid :: ToIdx(par, NamedAt(par, base, wid, Down, k)) == offset + k
  {
    var lsv := base;
    var parBase := par.lsb + wid - 1;
    if par.msb < par.lsb {
      parBase := lsv;
      lsv := par.lsb;
    }
    offset := lsv - parBase;
    CoversExactly(par, base, wid, Down, offset);
  }

  /**
   * A constant indexed select of a parameter: bit k is the declared bit of the k-th index named. A
   * string is a string again when the select is on byte boundaries. An undefined base gives x.
   */
  method ParamSelect(v: Verinum, par: Range, base: Verinum, wid: nat, dir: Direction) returns (result: Verinum)
    requires v.bits != [] && wid > 0
    ensures result.hasLen && !result.signed
    ensures !Defined(base.bits) ==> result.bits == Repeat(Vx, wid) && !result.isString
    ensures Defined(base.bits) ==>
      var low := LowestNamed(par, AsLong(base), wid, dir);
      && (result.isString <==> v.isString && low % 8 == 0 && wid % 8 == 0)
      && |result.bits| == wid
      && forall k: nat | k < wid ::
           var off := ToIdx(par, NamedAt(par, AsLong(base), wid, dir, k));
           result.bits[k] == Shown(DeclaredBit(v, off), result.isString)
  {
    if !Defined(base.bits) {
      return Verinum(Repeat(Vx, wid), false, true, false);
    }
    var offset;
    if dir.Up? {
      offset := ParamOffsetUp(par, AsLong(base), wid);
    } else {
      offset := ParamOffsetDown(par, AsLong(base), wid);
    }
    CoversExactly(par, AsLong(base), wid, dir, offset);
    result := ParamPartSelectBits(v, wid, offset);
  }
}
