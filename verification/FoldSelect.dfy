/** Constant part selects and padding: folded on constants, and synthesized as netlist nodes. */
module FoldSelect {
  import opened Prelude
  import opened Verinum
  import opened VerinumArith
  import opened Netlist

  /** w bits of v from position b on; pad stands for the bits that are not there. */
  function Selected(v: Bits, b: int, w: nat, pad: Bit): (r: Bits)
    ensures |r| == w
  {
    seq(w, i requires 0 <= i < w => if 0 <= b + i < |v| then v[b + i] else pad)
  }

  /** Without a base the select is there to pad: a 1 is continued only if it is a sign. */
  function PadBit(v: Bits, signed: bool): Bit
    requires v != []
  {
    if Top(v) == V1 && !signed then V0 else Top(v)
  }

  function Folded(v: Bits, base: Option<Verinum>, w: nat, signed: bool): Bits
    requires v != []
  {
    match base
    case Some(b) => Selected(v, AsLong(b), w, Vx)
    case None => Selected(v, 0, w, PadBit(v, signed))
  }

  /** Folding a select from a constant. */
  method EvalSelect(v: Bits, base: Option<Verinum>, w: nat, signed: bool) returns (res: Bits)
    requires v != []
    ensures res == Folded(v, base, w, signed)
  {
    var bval := if base.Some? then AsLong(base.value) else 0;
    var padBit := Vx;
    if base.None? {
      padBit := v[|v| - 1];
      if padBit == V1 && !signed {
        padBit := V0;
      }
    }
    var oval := new Bit[w](_ => V0);
    ghost var b := bval;
    for idx := 0 to w
      invariant bval == b + idx
      invariant forall i | 0 <= i < idx :: oval[i] == if 0 <= b + i < |v| then v[b + i] else padBit
    {
      if bval >= 0 && bval < |v| {
        oval[idx] := v[bval];
      } else {
        oval[idx] := padBit;
      }
      bval := bval + 1;
    }
    res := oval[..];
  }

  // ----- synthesis -----

  /** A select that overhangs both ends of a vector of n bits. */
  predicate OverhangsBothEnds(b: int, w: nat, n: nat) {
    b < 0 && b + w > n
  }

  predicate FitsWord(n: int) {
    -0x8000_0000 < n < 0x8000_0000
  }

  /** Whatever the signals carry, net id carries w bits of what sub carries, from b on, with x outside. */
  ghost predicate SelectNet(nets: seq<Net>, id: nat, sub: nat, b: int, w: nat) {
    && id < |nets| && sub < |nets|
    && forall val | Consistent(nets, val) :: val[id] == Selected(val[sub], b, w, Vx)
  }

  /** No vectors agree with the nodes. */
  ghost predicate Misfit(nets: seq<Net>) {
    forall val :: !Consistent(nets, val)
  }

  /** The netlist can be wired up, and net id carries what folding the select gives, whatever sub carries. */
  ghost predicate SelectAgrees(nets: seq<Net>, id: nat, sub: nat, base: Verinum, w: nat)
    requires id < |nets| && sub < |nets| && 0 < nets[sub].width
  {
    && Built(nets)
    && forall val, signed | Consistent(nets, val) :: val[id] == Folded(val[sub], Some(base), w, signed)
  }

  lemma MisfitIsNotBuilt(nets: seq<Net>)
    requires Misfit(nets)
    ensures !Built(nets)
  {
    if Built(nets) {
      var val := BuiltDetermines(nets, seq(|nets|, i requires 0 <= i < |nets| => Repeat(V0, nets[i].width)));
    }
  }

  /** A select with an undefined base folds as if the base were 0, but its net carries x. */
  lemma UndefinedBase(nets: seq<Net>, id: nat, sub: nat, base: Verinum, w: nat)
    requires Built(nets) && id < |nets| && sub < |nets| && 0 < nets[sub].width && nets[sub].driver.Input? && 0 < w
    requires nets[id].driver == Constant(Repeat(Vx, w)) && !Defined(base.bits)
    ensures !SelectAgrees(nets, id, sub, base, w)
  {
    var val := BuiltDetermines(nets, seq(|nets|, i requires 0 <= i < |nets| => Repeat(V0, nets[i].width)));
    ConstantValue(nets, val, id);
    assert Folded(val[sub], Some(base), w, false)[0] == V0 && val[id][0] == Vx;
  }

  /**
   * Building the netlist of a select with a constant base: x bits below, a part select, x bits
   * above. The width of the x bits above does not allow for those below. It agrees with folding
   * exactly when the base is defined and the select does not overhang both ends.
   */
  method SynthesizeSelect(des: Design, sub: nat, base: Verinum, exprWidth: nat) returns (id: nat)
    requires Built(des.nets) && sub < |des.nets| && 0 < des.nets[sub].width
    requires 0 < exprWidth && FitsWord(exprWidth) && FitsWord(des.nets[sub].width) && FitsWord(AsLong(base))
    modifies des
    ensures old(des.nets) <= des.nets && id < |des.nets|
    ensures !Defined(base.bits) ==> Built(des.nets) && des.nets[id].driver == Constant(Repeat(Vx, exprWidth))
    ensures Defined(base.bits) ==>
              if OverhangsBothEnds(AsLong(base), exprWidth, des.nets[sub].width) then Misfit(des.nets)
              else Built(des.nets) && SelectNet(des.nets, id, sub, AsLong(base), exprWidth)
    ensures des.nets[sub].driver.Input? ==>
              (SelectAgrees(des.nets, id, sub, base, exprWidth)
               <==> Defined(base.bits) && !OverhangsBothEnds(AsLong(base), exprWidth, des.nets[sub].width))
  {
    if !Defined(base.bits) {
      id := des.AddNode(Constant(Repeat(Vx, exprWidth)), exprWidth);
      if des.nets[sub].driver.Input? {
        UndefinedBase(des.nets, id, sub, base, exprWidth);
      }
    } else {
      id := SynthesizeSelectAt(des, sub, AsLong(base), exprWidth);
      if OverhangsBothEnds(AsLong(base), exprWidth, des.nets[sub].width) {
        MisfitIsNotBuilt(des.nets);
      }
    }
  }

  method SynthesizeSelectAt(des: Design, sub: nat, b: int, exprWidth: nat) returns (id: nat)
    requires Built(des.nets) && sub < |des.nets| && 0 < des.nets[sub].width && 0 < exprWidth
    modifies des
    ensures old(des.nets) <= des.nets && id < |des.nets|
    ensures if OverhangsBothEnds(b, exprWidth, des.nets[sub].width) then Misfit(des.nets)
            else Built(des.nets) && SelectNet(des.nets, id, sub, b, exprWidth)
  {
    var selectWidth := exprWidth;
    var baseVal := b;
    var below := None;
    var belowWidth := 0;
    if baseVal < 0 {
      belowWidth := -baseVal;
      baseVal := 0;
      if belowWidth > selectWidth {
        belowWidth := selectWidth;
        selectWidth := 0;
      } else {
        selectWidth := selectWidth - belowWidth;
      }
      id := des.AddNode(Constant(Repeat(Vx, belowWidth)), belowWidth);
      below := Some(id);
      if selectWidth == 0 {
        OutsideNet(des.nets, id, sub, b, exprWidth);
        return;
      }
    }
    var width := des.nets[sub].width;
    var above := None;
    if baseVal + selectWidth > width {
      if baseVal > width {
        selectWidth := 0;
      } else {
        selectWidth := width - baseVal;
      }
      id := des.AddNode(Constant(Repeat(Vx, exprWidth - selectWidth)), exprWidth - selectWidth);
      above := Some(id);
      if selectWidth == 0 {
        OutsideNet(des.nets, id, sub, b, exprWidth);
        return;
      }
    }
    var part := des.AddNode(PartSelect(sub, baseVal), selectWidth);
    id := ConcatParts(des, sub, b, exprWidth, part, below, above);
  }

  /** A part select of what is there of w bits from b on, and x bits below and above. */
  predicate Parts(nets: seq<Net>, sub: nat, b: int, w: nat, part: nat, below: Option<nat>, above: Option<nat>) {
    && sub < part < |nets| && 0 < nets[part].width && (below.Some? <==> b < 0) && -b < w
    && nets[part].driver == PartSelect(sub, if b < 0 then 0 else b)
    && (below.Some? ==> below.value < |nets| && nets[below.value] == Net(Constant(Repeat(Vx, 0 - b)), 0 - b))
    && (above.Some? <==> b + w > nets[sub].width)
    && (if above.Some? then
          && nets[part].width == (if b < 0 then nets[sub].width else nets[sub].width - b)
          && nets[part].width <= w && above.value < |nets|
          && nets[above.value] == Net(Constant(Repeat(Vx, w - nets[part].width)), w - nets[part].width)
        else nets[part].width == if b < 0 then w + b else w)
  }

  /** The part select alone, or concatenated with the x bits there are. */
  method ConcatParts(des: Design, sub: nat, b: int, w: nat, part: nat, below: Option<nat>, above: Option<nat>)
      returns (id: nat)
    requires Built(des.nets) && Parts(des.nets, sub, b, w, part, below, above)
    modifies des
    ensures old(des.nets) <= des.nets && id < |des.nets|
    ensures if OverhangsBothEnds(b, w, des.nets[sub].width) then Misfit(des.nets)
            else Built(des.nets) && SelectNet(des.nets, id, sub, b, w)
  {
    if below.Some? && above.Some? {
      JoinThree(below.value, part, above.value, des.nets);
      id := des.AddNode(Concat([below.value, part, above.value]), w);
      MisfitNet(des.nets, sub, b, w, below.value, part, above.value, id);
    } else if below.Some? {
      JoinTwo(below.value, part, des.nets);
      id := des.AddNode(Concat([below.value, part]), w);
      BelowNet(des.nets, sub, b, w, below.value, part, id);
    } else if above.Some? {
      JoinTwo(part, above.value, des.nets);
      id := des.AddNode(Concat([part, above.value]), w);
      AboveNet(des.nets, sub, b, w, part, above.value, id);
    } else {
      id := part;
      InsideNet(des.nets, sub, b, w, part);
    }
  }

  lemma JoinThree(a: nat, b: nat, c: nat, nets: seq<Net>)
    requires a < |nets| && b < |nets| && c < |nets|
    ensures JoinedWidth([a, b, c], nets) == nets[a].width + nets[b].width + nets[c].width
  {
    assert [a, b, c][1..] == [b, c];
    JoinTwo(b, c, nets);
  }

  /** With x bits at both ends the pins are wider than the concatenation, by the bits below. */
  lemma MisfitNet(nets: seq<Net>, sub: nat, b: int, w: nat, q: nat, p: nat, r: nat, o: nat)
    requires q < o && p < o && r < o < |nets| && Parts(nets, sub, b, w, p, Some(q), Some(r))
    requires nets[o] == Net(Concat([q, p, r]), w)
    ensures nets[q].width + nets[p].width + nets[r].width == w - b > w
    ensures Misfit(nets)
  {
    forall val | Consistent(nets, val) ensures false {
      ConcatValue(nets, val, o);
      ConsistentPrefix(nets, val, o);
      JoinLength([q, p, r], nets[..o], val[..o]);
      JoinThree(q, p, r, nets[..o]);
    }
  }

  lemma BelowNet(nets: seq<Net>, sub: nat, b: int, w: nat, q: nat, p: nat, o: nat)
    requires sub < p < o < |nets| && q < o && b < 0 < w + b
    requires nets[q] == Net(Constant(Repeat(Vx, 0 - b)), 0 - b) && nets[p] == Net(PartSelect(sub, 0), w + b)
    requires nets[o] == Net(Concat([q, p]), w)
    ensures SelectNet(nets, o, sub, b, w)
  {
    forall val | Consistent(nets, val) ensures val[o] == Selected(val[sub], b, w, Vx) {
      ConstantValue(nets, val, q);
      PartSelectValue(nets, val, p);
      ConcatOfTwo(nets, val, o, q, p);
      UnknownsBelow(val[sub], 0 - b, w + b);
    }
  }

  lemma UnknownsBelow(v: Bits, nb: nat, k: nat)
    requires k <= |v|
    ensures Repeat(Vx, nb) + v[0..0 + k] == Selected(v, 0 - nb, nb + k, Vx)
  {
  }

  lemma AboveNet(nets: seq<Net>, sub: nat, b: int, w: nat, p: nat, r: nat, o: nat)
    requires sub < p < o < |nets| && r < o && 0 <= b < nets[sub].width < b + w
    requires nets[p] == Net(PartSelect(sub, b), nets[sub].width - b)
    requires nets[r] == Net(Constant(Repeat(Vx, w - nets[p].width)), w - nets[p].width)
    requires nets[o] == Net(Concat([p, r]), w)
    ensures SelectNet(nets, o, sub, b, w)
  {
    forall val | Consistent(nets, val) ensures val[o] == Selected(val[sub], b, w, Vx) {
      ConstantValue(nets, val, r);
      PartSelectValue(nets, val, p);
      ConcatOfTwo(nets, val, o, p, r);
      UnknownsAbove(val[sub], b, w);
    }
  }

  lemma UnknownsAbove(v: Bits, b: nat, w: nat)
    requires b < |v| < b + w
    ensures v[b..b + (|v| - b)] + Repeat(Vx, w - (|v| - b)) == Selected(v, b, w, Vx)
  {
  }

  lemma InsideNet(nets: seq<Net>, sub: nat, b: int, w: nat, p: nat)
    requires sub < p < |nets| && b >= 0 && nets[p] == Net(PartSelect(sub, b), w)
    ensures SelectNet(nets, p, sub, b, w)
  {
    forall val | Consistent(nets, val) ensures val[p] == Selected(val[sub], b, w, Vx) {
      PartSelectValue(nets, val, p);
    }
  }

  /** Nothing selected is there. */
  lemma OutsideNet(nets: seq<Net>, id: nat, sub: nat, b: int, w: nat)
    requires id < |nets| && sub < |nets| && nets[id].driver == Constant(Repeat(Vx, w))
    requires b + w <= 0 || b >= nets[sub].width
    ensures SelectNet(nets, id, sub, b, w)
  {
    forall val | Consistent(nets, val) ensures val[id] == Selected(val[sub], b, w, Vx) {
      ConstantValue(nets, val, id);
    }
  }

  // ----- padding -----

  /** Whatever the signals carry, net id carries what folding a padding select of sub computes. */
  ghost predicate PadNet(nets: seq<Net>, id: nat, sub: nat, w: nat, signed: bool, val: seq<Bits>)
    requires Consistent(nets, val) && sub < |nets| && 0 < nets[sub].width && id < |nets|
  {
    val[id] == Folded(val[sub], None, w, signed)
  }

  /**
   * Building the netlist of a select without a base, which pads a narrower net: it agrees with
   * folding unless zeros are put above an unknown bit. A net that is wider already is not expected:
   * None, or, for a signed select, a sign extension that is narrower than what it extends.
   */
  method SynthesizePadding(des: Design, sub: nat, exprWidth: nat, signed: bool) returns (id: Option<nat>)
    requires Built(des.nets) && sub < |des.nets| && 0 < des.nets[sub].width
    modifies des
    ensures old(des.nets) <= des.nets
    ensures id.None? <==> des.nets[sub].width > exprWidth && !signed
    ensures des.nets[sub].width > exprWidth && signed ==>
              id.value < |des.nets| && des.nets[id.value] == Net(SignExtend(sub), exprWidth) && Misfit(des.nets)
    ensures des.nets[sub].width <= exprWidth ==> id.Some? && Built(des.nets) && id.value < |des.nets|
    ensures des.nets[sub].width <= exprWidth ==>
              forall val | Consistent(des.nets, val) ::
                PadNet(des.nets, id.value, sub, exprWidth, signed, val)
                <==> (des.nets[sub].width == exprWidth || signed || Known(Top(val[sub])))
  {
    var width := des.nets[sub].width;
    if width == exprWidth {
      forall val | Consistent(des.nets, val) ensures PadNet(des.nets, sub, sub, exprWidth, signed, val) {
        PaddedBits(val[sub], exprWidth, signed);
      }
      return Some(sub);
    }
    if signed {
      var net := des.AddNode(SignExtend(sub), exprWidth);
      if width < exprWidth {
        forall val | Consistent(des.nets, val) ensures PadNet(des.nets, net, sub, exprWidth, signed, val) {
          SignExtendValue(des.nets, val, net);
          PaddedBits(val[sub], exprWidth, signed);
        }
      } else {
        forall val | Consistent(des.nets, val) ensures false {
          SignExtendValue(des.nets, val, net);
        }
      }
      return Some(net);
    }
    if exprWidth <= width {
      return None;
    }
    var con := des.AddNode(Constant(Repeat(V0, exprWidth - width)), exprWidth - width);
    JoinTwo(sub, con, des.nets);
    var net := des.AddNode(Concat([sub, con]), exprWidth);
    forall val | Consistent(des.nets, val)
      ensures PadNet(des.nets, net, sub, exprWidth, signed, val) <==> Known(Top(val[sub]))
    {
      ConstantValue(des.nets, val, con);
      ConcatOfTwo(des.nets, val, net, sub, con);
      PaddedBits(val[sub], exprWidth, signed);
    }
    id := Some(net);
  }

  /** Folding a padding select extends with the pad bit; zeros do the same unless the top bit is unknown. */
  lemma PaddedBits(v: Bits, w: nat, signed: bool)
    requires 0 < |v| <= w
    ensures Folded(v, None, w, signed) == ExtendTo(v, PadBit(v, signed), w)
    ensures |v| == w ==> Folded(v, None, w, signed) == v
    ensures |v| < w && !signed ==> (v + Repeat(V0, w - |v|) == Folded(v, None, w, signed) <==> Known(Top(v)))
  {
    var (goal, e) := (Folded(v, None, w, signed), ExtendTo(v, PadBit(v, signed), w));
    forall i | 0 <= i < w ensures goal[i] == e[i] {
      if i < |v| { assert e[..|v|][i] == e[i]; }
    }
    if |v| < w && !signed {
      var joined := v + Repeat(V0, w - |v|);
      assert joined[|v|] == V0;
      if Known(Top(v)) {
        assert joined == goal;
      }
    }
  }
}
