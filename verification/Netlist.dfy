/** The netlist that expression synthesis adds nodes to, and the vectors its nets carry. */
module Netlist {
  import opened Verinum

  /** What drives a net. The pins of a concatenation start at the least significant. */
  datatype Driver =
    | Input
    | Constant(bits: Bits)
    | PartSelect(source: nat, base: nat)
    | Concat(pins: seq<nat>)
    | SignExtend(source: nat)

  datatype Net = Net(driver: Driver, width: nat)

  class Design {
    var nets: seq<Net>

    constructor ()
      ensures nets == []
    {
      nets := [];
    }

    /** A node and the net it drives. */
    method AddNode(driver: Driver, width: nat) returns (id: nat)
      modifies this
      ensures id == |old(nets)| && nets == old(nets) + [Net(driver, width)]
      ensures Built(old(nets)) && NodeFits(Net(driver, width), old(nets)) ==> Built(nets)
    {
      id := |nets|;
      if Built(nets) && NodeFits(Net(driver, width), nets) {
        AddedNodeFits(nets, Net(driver, width));
      }
      nets := nets + [Net(driver, width)];
    }
  }

  /** The vectors on some nets, the first least significant. */
  function Join(pins: seq<nat>, val: seq<Bits>): Bits
    requires forall i | 0 <= i < |pins| :: pins[i] < |val|
  {
    if pins == [] then [] else val[pins[0]] + Join(pins[1..], val)
  }

  function JoinedWidth(pins: seq<nat>, nets: seq<Net>): nat
    requires forall i | 0 <= i < |pins| :: pins[i] < |nets|
  {
    if pins == [] then 0 else nets[pins[0]].width + JoinedWidth(pins[1..], nets)
  }

  /** A node whose inputs are among the first nets, with pins of the right widths. */
  predicate NodeFits(n: Net, nets: seq<Net>) {
    match n.driver
    case Input => true
    case Constant(bits) => |bits| == n.width
    case PartSelect(s, base) => s < |nets| && base + n.width <= nets[s].width
    case Concat(pins) => (forall i | 0 <= i < |pins| :: pins[i] < |nets|) && JoinedWidth(pins, nets) == n.width
    case SignExtend(s) => s < |nets| && 0 < nets[s].width <= n.width
  }

  /** Every node fits the nets before it. */
  predicate Built(nets: seq<Net>) {
    forall i {:trigger NodeFits(nets[i], nets[..i])} | 0 <= i < |nets| :: NodeFits(nets[i], nets[..i])
  }

  /** The node puts v on its net. */
  predicate Drives(n: Net, val: seq<Bits>, v: Bits) {
    && |v| == n.width
    && match n.driver
       case Input => true
       case Constant(bits) => v == bits
       case PartSelect(s, base) => s < |val| && base + n.width <= |val[s]| && v == val[s][base..base + n.width]
       case Concat(pins) => (forall i | 0 <= i < |pins| :: pins[i] < |val|) && v == Join(pins, val)
       case SignExtend(s) => s < |val| && 0 < |val[s]| <= n.width && v == ExtendTo(val[s], Top(val[s]), n.width)
  }

  /** The vectors on all the nets agree with all the nodes. */
  predicate Consistent(nets: seq<Net>, val: seq<Bits>) {
    && |val| == |nets| && (forall i | 0 <= i < |nets| :: |val[i]| == nets[i].width)
    && forall i {:trigger Drives(nets[i], val[..i], val[i])} | 0 <= i < |nets| :: Drives(nets[i], val[..i], val[i])
  }

  lemma AddedNodeFits(nets: seq<Net>, n: Net)
    requires Built(nets) && NodeFits(n, nets)
    ensures Built(nets + [n])
  {
    var all := nets + [n];
    forall i | 0 <= i < |all| ensures NodeFits(all[i], all[..i]) {
      assert all[..i] == nets[..i];
    }
    assert nets[..|nets|] == nets;
  }

  /** Values consistent with a netlist are consistent with its first nets. */
  lemma ConsistentPrefix(nets: seq<Net>, val: seq<Bits>, k: nat)
    requires Consistent(nets, val) && k <= |nets|
    ensures Consistent(nets[..k], val[..k])
    ensures k < |nets| ==> Drives(nets[k], val[..k], val[k])
  {
    forall i | 0 <= i < k ensures Drives(nets[..k][i], val[..k][..i], val[..k][i]) {
      assert val[..k][..i] == val[..i];
    }
  }

  lemma {:induction false} JoinLength(pins: seq<nat>, nets: seq<Net>, val: seq<Bits>)
    requires |val| == |nets| && forall i | 0 <= i < |nets| :: |val[i]| == nets[i].width
    requires forall i | 0 <= i < |pins| :: pins[i] < |nets|
    ensures |Join(pins, val)| == JoinedWidth(pins, nets)
  {
    if pins != [] {
      JoinLength(pins[1..], nets, val);
    }
  }

  /** The vector a node makes of those before it. */
  function Output(n: Net, nets: seq<Net>, val: seq<Bits>, input: Bits): (v: Bits)
    requires |val| == |nets| && (forall i | 0 <= i < |nets| :: |val[i]| == nets[i].width)
    requires NodeFits(n, nets) && |input| == n.width
    ensures Drives(n, val, v)
  {
    match n.driver
    case Input => input
    case Constant(bits) => bits
    case PartSelect(s, base) => val[s][base..base + n.width]
    case Concat(pins) => JoinLength(pins, nets, val); Join(pins, val)
    case SignExtend(s) => ExtendTo(val[s], Top(val[s]), n.width)
  }

  /** A built netlist determines the vectors on all its nets from those on its inputs. */
  lemma {:induction false} BuiltDetermines(nets: seq<Net>, inputs: seq<Bits>) returns (val: seq<Bits>)
    requires Built(nets) && |inputs| == |nets| && forall i | 0 <= i < |nets| :: |inputs[i]| == nets[i].width
    ensures Consistent(nets, val)
    ensures forall i | 0 <= i < |nets| && nets[i].driver.Input? :: val[i] == inputs[i]
    ensures forall other: seq<Bits> | Consistent(nets, other)
                && (forall i | 0 <= i < |nets| && nets[i].driver.Input? :: other[i] == inputs[i]) :: other == val
  {
    if nets == [] {
      val := [];
    } else {
      var k := |nets| - 1;
      assert Built(nets[..k]) by {
        forall i | 0 <= i < k ensures NodeFits(nets[..k][i], nets[..k][..i]) {
          assert nets[..k][..i] == nets[..i];
        }
      }
      var before := BuiltDetermines(nets[..k], inputs[..k]);
      val := before + [Output(nets[k], nets[..k], before, inputs[k])];
      forall i | 0 <= i < |nets| ensures Drives(nets[i], val[..i], val[i]) {
        assert val[..i] == before[..i];
        if i < k { assert Drives(nets[..k][i], before[..i], before[i]); }
      }
      forall other: seq<Bits> | Consistent(nets, other)
          && (forall i | 0 <= i < |nets| && nets[i].driver.Input? :: other[i] == inputs[i])
        ensures other == val
      {
        ConsistentPrefix(nets, other, k);
        assert other[..k] == before;
        assert other == other[..k] + [other[k]];
      }
    }
  }

  lemma JoinTwo(a: nat, b: nat, nets: seq<Net>)
    requires a < |nets| && b < |nets|
    ensures JoinedWidth([a, b], nets) == nets[a].width + nets[b].width
  {
    assert [a, b][1..] == [b] && [b][1..] == [];
    assert JoinedWidth([b], nets) == nets[b].width;
  }

  // ----- what each kind of node puts on its net -----

  lemma ConstantValue(nets: seq<Net>, val: seq<Bits>, i: nat)
    requires Consistent(nets, val) && i < |nets| && nets[i].driver.Constant?
    ensures val[i] == nets[i].driver.bits
  {
    assert Drives(nets[i], val[..i], val[i]);
  }

  lemma PartSelectValue(nets: seq<Net>, val: seq<Bits>, i: nat)
    requires Consistent(nets, val) && i < |nets| && nets[i].driver.PartSelect?
    ensures var (s, base) := (nets[i].driver.source, nets[i].driver.base);
            && s < i && base + nets[i].width <= |val[s]|
            && val[i] == val[s][base..base + nets[i].width]
  {
    assert Drives(nets[i], val[..i], val[i]);
  }

  lemma SignExtendValue(nets: seq<Net>, val: seq<Bits>, i: nat)
    requires Consistent(nets, val) && i < |nets| && nets[i].driver.SignExtend?
    ensures var s := nets[i].driver.source;
            && s < i && 0 < |val[s]| <= nets[i].width
            && val[i] == ExtendTo(val[s], Top(val[s]), nets[i].width)
  {
    assert Drives(nets[i], val[..i], val[i]);
  }

  lemma ConcatValue(nets: seq<Net>, val: seq<Bits>, i: nat)
    requires Consistent(nets, val) && i < |nets| && nets[i].driver.Concat?
    ensures var pins := nets[i].driver.pins;
            && (forall k | 0 <= k < |pins| :: pins[k] < i)
            && val[i] == Join(pins, val[..i]) && |val[i]| == nets[i].width
  {
    assert Drives(nets[i], val[..i], val[i]);
  }

  lemma ConcatOfTwo(nets: seq<Net>, val: seq<Bits>, i: nat, a: nat, b: nat)
    requires Consistent(nets, val) && i < |nets| && nets[i].driver == Concat([a, b])
    ensures a < i && b < i && val[i] == val[a] + val[b]
  {
    ConcatValue(nets, val, i);
    assert [a, b][0] == a && [a, b][1] == b && [a, b][1..] == [b] && [b][1..] == [];
    assert Join([b], val[..i]) == val[b];
  }
}
