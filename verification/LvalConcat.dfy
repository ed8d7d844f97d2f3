/**
 * Concatenations on the left of an assignment: continuous assignments split a new vector with part
 * selects, from the most significant operand down; procedural assignments link the operands into a
 * chain that takes its bits from the least significant end.
 */
module LvalConcat {
  import opened Prelude
  import opened Verinum
  import opened Netlist
  import FoldConcat

  /** An l-value: a net, a net of real type, one that does not elaborate or is missing, or a concatenation. */
  datatype LTree = Signal(net: nat) | Real(net: nat) | Failed | Empty | Concat(parms: seq<LTree>, repeat: bool)

  /** Nothing is wrong with the l-value. */
  predicate Clean(t: LTree) {
    match t
    case Signal(_) => true
    case Concat(parms, repeat) => !repeat && AllClean(parms)
    case _ => false
  }

  predicate AllClean(parms: seq<LTree>) {
    parms != [] ==> AllClean(parms[..|parms| - 1]) && Clean(parms[|parms| - 1])
  }

  /** The errors counted in elaborating an l-value as a net: one for each operand that is in error, at every depth. */
  function ErrorCount(t: LTree): nat {
    match t
    case Concat(parms, repeat) => if repeat then 0 else ErrorsOf(parms)
    case _ => 0
  }

  function ErrorsOf(parms: seq<LTree>): nat {
    if parms == [] then 0
    else
      var last := parms[|parms| - 1];
      ErrorsOf(parms[..|parms| - 1]) + ErrorCount(last) + if Clean(last) then 0 else 1
  }

  /** An l-value without errors counts none, and a concatenation with errors some. */
  lemma {:induction false} CleanCountsNone(t: LTree)
    ensures Clean(t) ==> ErrorCount(t) == 0
    ensures t.Concat? && !t.repeat ==> (ErrorCount(t) == 0 <==> Clean(t))
    decreases t, 1
  {
    if t.Concat? { CleanCountsNoneOf(t, t.parms); }
  }

  lemma {:induction false} CleanCountsNoneOf(t: LTree, parms: seq<LTree>)
    requires t.Concat? && parms <= t.parms
    ensures ErrorsOf(parms) == 0 <==> AllClean(parms)
    decreases t, 0, |parms|
  {
    if parms != [] {
      var k := |parms| - 1;
      assert parms[k] == t.parms[k];
      CleanCountsNone(parms[k]);
      CleanCountsNoneOf(t, parms[..k]);
    }
  }

  /** Concatenations have operands, and the nets are among the first n. */
  predicate Wellformed(t: LTree, n: nat) {
    match t
    case Signal(net) => net < n
    case Real(net) => net < n
    case Concat(parms, _) => parms != [] && forall i | 0 <= i < |parms| :: Wellformed(parms[i], n)
    case _ => true
  }

  /** The nets named, the least significant first. Operands that are in error are left out. */
  function Leaves(t: LTree): seq<nat> {
    match t
    case Signal(net) => [net]
    case Concat(parms, repeat) => if repeat then [] else LeavesOf(parms)
    case _ => []
  }

  function LeavesOf(parms: seq<LTree>): seq<nat> {
    if parms == [] then [] else Leaves(parms[|parms| - 1]) + LeavesOf(parms[..|parms| - 1])
  }

  lemma {:induction false} LeavesInRange(t: LTree, n: nat)
    requires Wellformed(t, n)
    ensures forall i | 0 <= i < |Leaves(t)| :: Leaves(t)[i] < n
    decreases t, 1
  {
    if t.Concat? {
      LeavesOfInRange(t, t.parms, n);
    }
  }

  lemma {:induction false} LeavesOfInRange(t: LTree, parms: seq<LTree>, n: nat)
    requires t.Concat? && parms <= t.parms && Wellformed(t, n)
    ensures forall i | 0 <= i < |LeavesOf(parms)| :: LeavesOf(parms)[i] < n
    decreases t, 0, |parms|
  {
    if parms != [] {
      var k := |parms| - 1;
      assert parms[k] == t.parms[k];
      LeavesInRange(parms[k], n);
      LeavesOfInRange(t, parms[..k], n);
    }
  }

  // ----- continuous assignments -----

  /** A part select that drives net `to` with wid bits of net `from`. */
  datatype Part = Part(from: nat, off: nat, wid: nat, to: nat)

  class Design {
    var widths: seq<nat>
    var parts: seq<Part>
    var errors: nat

    constructor (widths: seq<nat>)
      ensures this.widths == widths && parts == [] && errors == 0
    {
      this.widths, parts, errors := widths, [], 0;
    }
  }

  /** The vectors on the nets agree with the part selects. */
  predicate Satisfied(widths: seq<nat>, parts: seq<Part>, val: seq<Bits>) {
    && |val| == |widths| && (forall i | 0 <= i < |val| :: |val[i]| == widths[i])
    && forall k {:trigger Drives(parts[k], val)} | 0 <= k < |parts| :: Drives(parts[k], val)
  }

  predicate Drives(p: Part, val: seq<Bits>) {
    && p.from < |val| && p.to < |val| && p.off + p.wid <= |val[p.from]|
    && val[p.to] == val[p.from][p.off..p.off + p.wid]
  }

  /** Net id carries the nets of the l-value, joined. */
  ghost predicate CarriesLeaves(widths: seq<nat>, parts: seq<Part>, id: nat, leaves: seq<nat>) {
    && id < |widths| && (forall i | 0 <= i < |leaves| :: leaves[i] < |widths|)
    && forall val | Satisfied(widths, parts, val) :: val[id] == Join(leaves, val)
  }

  /** More nets and part selects do not change what a net carries. */
  lemma StillCarries(widths: seq<nat>, parts: seq<Part>, widths': seq<nat>, parts': seq<Part>, id: nat,
                     leaves: seq<nat>)
    requires widths <= widths' && parts <= parts' && CarriesLeaves(widths, parts, id, leaves)
    requires forall k | 0 <= k < |parts| :: parts[k].from < |widths| && parts[k].to < |widths|
    ensures CarriesLeaves(widths', parts', id, leaves)
  {
    var n := |widths|;
    forall val | Satisfied(widths', parts', val) ensures val[id] == Join(leaves, val) {
      forall k | 0 <= k < |parts| ensures Drives(parts[k], val[..n]) {
        assert Drives(parts'[k], val);
      }
      assert Satisfied(widths, parts, val[..n]);
      JoinOfPrefix(leaves, val, n);
    }
  }

  lemma {:induction false} JoinOfPrefix(pins: seq<nat>, val: seq<Bits>, n: nat)
    requires n <= |val| && forall i | 0 <= i < |pins| :: pins[i] < n
    ensures Join(pins, val[..n]) == Join(pins, val)
  {
    if pins != [] {
      JoinOfPrefix(pins[1..], val, n);
    }
  }

  predicate PartsInRange(widths: seq<nat>, parts: seq<Part>) {
    forall k | 0 <= k < |parts| :: parts[k].from < |widths| && parts[k].to < |widths|
  }

  function Widths(nets: seq<nat>, widths: seq<nat>): nat
    requires forall i | 0 <= i < |nets| :: nets[i] < |widths|
  {
    if nets == [] then 0 else widths[nets[0]] + Widths(nets[1..], widths)
  }

  /** The part selects from the first k operands down, each at the offset below the ones before it. */
  ghost predicate TopDown(parts: seq<Part>, start: nat, osig: nat, nets: seq<nat>, widths: seq<nat>, k: nat)
    requires k <= |nets| && forall i | 0 <= i < |nets| :: nets[i] < |widths|
  {
    && |parts| == start + k
    && forall j {:trigger nets[j]} | 0 <= j < k ::
         parts[start + j] == Part(osig, Widths(nets[j + 1..], widths), widths[nets[j]], nets[j])
  }

  /**
   * Elaborating an l-value as a net. A concatenation makes a new net, and a part select for each
   * operand from the most significant down; nothing is made if an operand is in error. A net of real
   * type is in error only as an operand.
   */
  method ElaborateLnet(des: Design, t: LTree) returns (net: Option<nat>)
    requires Wellformed(t, |des.widths|) && PartsInRange(des.widths, des.parts)
    modifies des
    ensures old(des.widths) <= des.widths && old(des.parts) <= des.parts && PartsInRange(des.widths, des.parts)
    ensures net.Some? <==> Clean(t) || t.Real?
    ensures Clean(t) ==> CarriesLeaves(des.widths, des.parts, net.value, Leaves(t))
    ensures t.Real? ==> net == Some(t.net) && unchanged(des)
    ensures des.errors == old(des.errors) + ErrorCount(t)
    ensures t.Concat? && !t.repeat && net.None? ==> des.errors > old(des.errors)
    decreases t, 1
  {
    CleanCountsNone(t);
    match t
    case Signal(id) =>
      net := Some(id);
      forall val | Satisfied(des.widths, des.parts, val) ensures val[id] == Join([id], val) {
        assert [id][1..] == [];
      }
    case Real(id) =>
      net := Some(id);
    case Concat(parms, repeat) =>
      if repeat {
        return None;
      }
      var nets, width, errors := ElaborateOperands(des, t);
      if errors > 0 {
        des.errors := des.errors + errors;
        return None;
      }
      var osig := ConnectParts(des, nets, width, parms);
      net := Some(osig);
    case _ =>
      net := None;
  }

  /** The operands of a concatenation as nets, with their total width and the number in error. */
  method ElaborateOperands(des: Design, t: LTree) returns (nets: seq<nat>, width: nat, errors: nat)
    requires t.Concat? && Wellformed(t, |des.widths|) && PartsInRange(des.widths, des.parts)
    modifies des
    ensures old(des.widths) <= des.widths && old(des.parts) <= des.parts && PartsInRange(des.widths, des.parts)
    ensures des.errors + errors == old(des.errors) + ErrorsOf(t.parms)
    ensures errors == 0 <==> AllClean(t.parms)
    ensures errors == 0 ==> Operands(des.widths, des.parts, nets, t.parms, width)
    decreases t, 0
  {
    var parms := t.parms;
    errors, width, nets := 0, 0, [];
    for idx := 0 to |parms|
      invariant old(des.widths) <= des.widths && old(des.parts) <= des.parts && PartsInRange(des.widths, des.parts)
      invariant des.errors + errors == old(des.errors) + ErrorsOf(parms[..idx])
      invariant errors == 0 <==> AllClean(parms[..idx])
      invariant errors == 0 ==> Operands(des.widths, des.parts, nets, parms[..idx], width)
    {
      CleanOneMore(parms, idx);
      ghost var widths, parts := des.widths, des.parts;
      WellformedStays(parms[idx], |old(des.widths)|, |des.widths|);
      var r := ElaborateLnet(des, parms[idx]);
      if r.None? || parms[idx].Real? {
        errors := errors + 1;
      } else if errors == 0 {
        OneMoreOperand(widths, parts, des.widths, des.parts, nets, parms, idx, width, r.value);
        nets := nets + [r.value];
        width := width + des.widths[r.value];
      }
    }
    assert parms[..|parms|] == parms;
  }

  lemma CleanOneMore(parms: seq<LTree>, idx: nat)
    requires idx < |parms|
    ensures AllClean(parms[..idx + 1]) <==> AllClean(parms[..idx]) && Clean(parms[idx])
    ensures ErrorsOf(parms[..idx + 1])
         == ErrorsOf(parms[..idx]) + ErrorCount(parms[idx]) + if Clean(parms[idx]) then 0 else 1
  {
    assert parms[..idx + 1][..idx] == parms[..idx] && parms[..idx + 1][idx] == parms[idx];
  }

  /** The operands elaborated so far, each carrying its leaves, with their total width. */
  ghost predicate Operands(widths: seq<nat>, parts: seq<Part>, nets: seq<nat>, parms: seq<LTree>, width: nat) {
    && |nets| == |parms| && (forall i | 0 <= i < |nets| :: nets[i] < |widths|) && width == Widths(nets, widths)
    && forall i | 0 <= i < |nets| :: CarriesLeaves(widths, parts, nets[i], Leaves(parms[i]))
  }

  lemma OneMoreOperand(widths: seq<nat>, parts: seq<Part>, widths': seq<nat>, parts': seq<Part>,
                       nets: seq<nat>, parms: seq<LTree>, idx: nat, width: nat, id: nat)
    requires idx < |parms| && Operands(widths, parts, nets, parms[..idx], width) && PartsInRange(widths, parts)
    requires widths <= widths' && parts <= parts' && CarriesLeaves(widths', parts', id, Leaves(parms[idx]))
    ensures Operands(widths', parts', nets + [id], parms[..idx + 1], width + widths'[id])
  {
    forall i | 0 <= i < |nets| ensures CarriesLeaves(widths', parts', nets[i], Leaves(parms[i])) {
      assert parms[..idx][i] == parms[i];
      StillCarries(widths, parts, widths', parts', nets[i], Leaves(parms[i]));
    }
    WidthsAppend(nets, id, widths');
    WidthsStay(nets, widths, widths');
  }

  lemma {:induction false} WellformedStays(t: LTree, m: nat, n: nat)
    requires Wellformed(t, m) && m <= n
    ensures Wellformed(t, n)
  {
    if t.Concat? {
      forall i | 0 <= i < |t.parms| ensures Wellformed(t.parms[i], n) {
        WellformedStays(t.parms[i], m, n);
      }
    }
  }

  lemma {:induction false} WidthsAppend(nets: seq<nat>, id: nat, widths: seq<nat>)
    requires id < |widths| && forall i | 0 <= i < |nets| :: nets[i] < |widths|
    ensures Widths(nets + [id], widths) == Widths(nets, widths) + widths[id]
  {
    if nets == [] {
      assert [id][1..] == [];
    } else {
      WidthsAppend(nets[1..], id, widths);
      assert (nets + [id])[1..] == nets[1..] + [id];
    }
  }

  lemma {:induction false} WidthsStay(nets: seq<nat>, widths: seq<nat>, widths': seq<nat>)
    requires widths <= widths' && forall i | 0 <= i < |nets| :: nets[i] < |widths|
    ensures Widths(nets, widths') == Widths(nets, widths)
  {
    if nets != [] {
      WidthsStay(nets[1..], widths, widths');
    }
  }

  /** The new net, and a part select for each operand: the remaining width ends at 0. */
  method ConnectParts(des: Design, nets: seq<nat>, total: nat, ghost parms: seq<LTree>) returns (osig: nat)
    requires PartsInRange(des.widths, des.parts) && Operands(des.widths, des.parts, nets, parms, total)
    modifies des
    ensures des.widths == old(des.widths) + [total] && old(des.parts) <= des.parts
            && PartsInRange(des.widths, des.parts)
    ensures des.errors == old(des.errors)
    ensures TopDown(des.parts, |old(des.parts)|, osig, nets, des.widths, |nets|)
    ensures CarriesLeaves(des.widths, des.parts, osig, LeavesOf(parms))
  {
    var width := total;
    ghost var start := |des.parts|;
    osig := |des.widths|;
    des.widths := des.widths + [total];
    WidthsStay(nets, old(des.widths), des.widths);
    assert nets[0..] == nets;
    for idx := 0 to |nets|
      invariant des.widths == old(des.widths) + [total] && des.errors == old(des.errors)
      invariant old(des.parts) <= des.parts && PartsInRange(des.widths, des.parts)
      invariant width == Widths(nets[idx..], des.widths)
      invariant TopDown(des.parts, start, osig, nets, des.widths, idx)
    {
      var wid := des.widths[nets[idx]];
      NextPart(des.parts, start, osig, nets, des.widths, idx, width);
      var off := width - wid;
      des.parts := des.parts + [Part(osig, off, wid, nets[idx])];
      width := width - wid;
    }
    assert width == 0;
    ConnectedCarries(old(des.widths), old(des.parts), des.widths, des.parts, nets, parms);
  }

  lemma NextPart(parts: seq<Part>, start: nat, osig: nat, nets: seq<nat>, widths: seq<nat>, idx: nat, width: nat)
    requires idx < |nets| && (forall i | 0 <= i < |nets| :: nets[i] < |widths|) && width == Widths(nets[idx..], widths)
    requires TopDown(parts, start, osig, nets, widths, idx)
    ensures widths[nets[idx]] <= width && width - widths[nets[idx]] == Widths(nets[idx + 1..], widths)
    ensures TopDown(parts + [Part(osig, width - widths[nets[idx]], widths[nets[idx]], nets[idx])],
                    start, osig, nets, widths, idx + 1)
  {
    assert nets[idx..][1..] == nets[idx + 1..];
  }

  lemma ConnectedCarries(widths: seq<nat>, parts: seq<Part>, widths': seq<nat>, parts': seq<Part>,
                         nets: seq<nat>, parms: seq<LTree>)
    requires PartsInRange(widths, parts) && |nets| == |parms|
    requires forall i | 0 <= i < |nets| :: nets[i] < |widths| && CarriesLeaves(widths, parts, nets[i], Leaves(parms[i]))
    requires widths' == widths + [Widths(nets, widths)] && parts <= parts'
    requires TopDown(parts', |parts|, |widths|, nets, widths', |nets|)
    ensures CarriesLeaves(widths', parts', |widths|, LeavesOf(parms))
  {
    LeavesBound(parms, |widths|);
    forall val | Satisfied(widths', parts', val) ensures val[|widths|] == Join(LeavesOf(parms), val) {
      forall i | 0 <= i < |nets| ensures val[nets[i]] == Join(Leaves(parms[i]), val) {
        StillCarries(widths, parts, widths', parts', nets[i], Leaves(parms[i]));
      }
      WidthsStay(nets, widths, widths');
      TiledIsBody(val[|widths|], widths', parts', |parts|, |widths|, nets, val, 0);
      assert nets[0..] == nets;
      BodyOfLeaves(nets, parms, val);
    }
  }

  lemma {:induction false} LeavesBound(parms: seq<LTree>, n: nat)
    requires forall i | 0 <= i < |parms| :: forall j | 0 <= j < |Leaves(parms[i])| :: Leaves(parms[i])[j] < n
    ensures forall j | 0 <= j < |LeavesOf(parms)| :: LeavesOf(parms)[j] < n
  {
    if parms != [] {
      LeavesBound(parms[..|parms| - 1], n);
    }
  }

  /** The operands, at their offsets, tile the vector exactly. */
  lemma {:induction false} TiledIsBody(v: Bits, widths: seq<nat>, parts: seq<Part>, start: nat, osig: nat,
                                       nets: seq<nat>, val: seq<Bits>, i: nat)
    requires Satisfied(widths, parts, val) && (forall i | 0 <= i < |nets| :: nets[i] < |widths|) && i <= |nets|
    requires TopDown(parts, start, osig, nets, widths, |nets|)
    requires osig < |val| && v == val[osig] && |v| == Widths(nets, widths)
    ensures Widths(nets[i..], widths) <= |v|
    ensures v[..Widths(nets[i..], widths)] == FoldConcat.Body(FoldConcat.NetValues(nets[i..], val))
    decreases |nets| - i
  {
    if i < |nets| {
      TiledIsBody(v, widths, parts, start, osig, nets, val, i + 1);
      var k, wid := Widths(nets[i + 1..], widths), widths[nets[i]];
      NextTile(v, nets, i, widths, val, k);
      assert parts[start + i] == Part(osig, k, wid, nets[i]) && Drives(parts[start + i], val);
      SplitAt(v, k, wid);
    }
  }

  lemma SplitAt(v: Bits, k: nat, wid: nat)
    requires k + wid <= |v|
    ensures v[..k + wid] == v[..k] + v[k..k + wid]
  {
  }

  lemma NextTile(v: Bits, nets: seq<nat>, i: nat, widths: seq<nat>, val: seq<Bits>, k: nat)
    requires i < |nets| && |val| == |widths| && forall j | 0 <= j < |nets| :: nets[j] < |widths|
    requires k == Widths(nets[i + 1..], widths)
    ensures Widths(nets[i..], widths) == k + widths[nets[i]]
    ensures FoldConcat.Body(FoldConcat.NetValues(nets[i..], val))
         == FoldConcat.Body(FoldConcat.NetValues(nets[i + 1..], val)) + val[nets[i]]
  {
    assert nets[i..][1..] == nets[i + 1..];
    assert FoldConcat.NetValues(nets[i..], val)[1..] == FoldConcat.NetValues(nets[i + 1..], val);
  }

  lemma {:induction false} BodyLast(vs: seq<Bits>)
    requires vs != []
    ensures FoldConcat.Body(vs) == vs[|vs| - 1] + FoldConcat.Body(vs[..|vs| - 1])
  {
    var n := |vs| - 1;
    if n == 0 {
      assert vs[1..] == [] && vs[..0] == [];
    } else {
      BodyLast(vs[1..]);
      assert vs[1..][..n - 1] == vs[..n][1..] && vs[1..][n - 1] == vs[n] && vs[..n][0] == vs[0];
      var rest := FoldConcat.Body(vs[..n][1..]);
      assert (vs[n] + rest) + vs[0] == vs[n] + (rest + vs[0]);
    }
  }

  lemma {:induction false} BodyOfLeaves(nets: seq<nat>, parms: seq<LTree>, val: seq<Bits>)
    requires |nets| == |parms| && forall i | 0 <= i < |nets| :: nets[i] < |val|
    requires forall i | 0 <= i < |nets| ::
               (forall j | 0 <= j < |Leaves(parms[i])| :: Leaves(parms[i])[j] < |val|)
               && val[nets[i]] == Join(Leaves(parms[i]), val)
    ensures forall j | 0 <= j < |LeavesOf(parms)| :: LeavesOf(parms)[j] < |val|
    ensures FoldConcat.Body(FoldConcat.NetValues(nets, val)) == Join(LeavesOf(parms), val)
  {
    LeavesBound(parms, |val|);
    if parms != [] {
      var n := |parms| - 1;
      BodyOfLeaves(nets[..n], parms[..n], val);
      BodyLast(FoldConcat.NetValues(nets, val));
      assert FoldConcat.NetValues(nets, val)[..n] == FoldConcat.NetValues(nets[..n], val);
      FoldConcat.JoinAppend(Leaves(parms[n]), LeavesOf(parms[..n]), val);
    }
  }

  // ----- procedural assignments -----

  /** One target of a procedural assignment, linked to the next more significant one. */
  class NetAssign {
    const sig: nat
    const isReal: bool
    var more: NetAssign?

    constructor (sig: nat, isReal: bool)
      ensures this.sig == sig && this.isReal == isReal && more == null
    {
      this.sig, this.isReal, more := sig, isReal, null;
    }
  }

  /** The nodes reached from first, in order. */
  ghost predicate IsChain(first: NetAssign?, nodes: seq<NetAssign>)
    reads nodes
  {
    && first == (if nodes == [] then null else nodes[0])
    && (forall i {:trigger LinksOn(nodes, i)} | 0 <= i < |nodes| :: LinksOn(nodes, i))
    && Distinct(nodes)
  }

  /** The i-th node points to the next. */
  ghost predicate LinksOn(nodes: seq<NetAssign>, i: nat)
    requires i < |nodes|
    reads nodes[i]
  {
    nodes[i].more == if i + 1 < |nodes| then nodes[i + 1] else null
  }

  predicate Distinct(nodes: seq<NetAssign>) {
    forall i, j {:trigger Differ(nodes[i], nodes[j])} | 0 <= i < j < |nodes| :: Differ(nodes[i], nodes[j])
  }

  predicate Differ(a: NetAssign, b: NetAssign) {
    a != b
  }

  ghost function Sigs(nodes: seq<NetAssign>): seq<nat> {
    seq(|nodes|, i requires 0 <= i < |nodes| => nodes[i].sig)
  }

  /** Elaboration gives no target. */
  predicate GivesNothing(t: LTree) {
    match t
    case Failed => true
    case Concat(_, _) => Leaves(t) == []
    case _ => false
  }

  /** Elaboration dereferences the target of an operand that gives none. */
  predicate Crashes(t: LTree) {
    t.Concat? && !t.repeat && exists i | 0 <= i < |t.parms| :: Crashes(t.parms[i]) || GivesNothing(t.parms[i])
  }

  /** The nodes are targets for the nets, none of them real. */
  ghost predicate Targets(nodes: seq<NetAssign>, leaves: seq<nat>) {
    Sigs(nodes) == leaves && forall i | 0 <= i < |nodes| :: !nodes[i].isReal
  }

  lemma TargetsJoin(a: seq<NetAssign>, b: seq<NetAssign>)
    requires Targets(a, Sigs(a)) && Targets(b, Sigs(b))
    ensures Targets(a + b, Sigs(a) + Sigs(b))
  {
  }

  /** Following one chain to its last node, which is linked to the first of another. */
  method Link(first: NetAssign, ghost chain: seq<NetAssign>, rest: NetAssign?, ghost nodes: seq<NetAssign>,
              ghost low: seq<nat>, ghost high: seq<nat>)
    requires IsChain(first, chain) && IsChain(rest, nodes) && forall n | n in chain :: n !in nodes
    requires Targets(chain, low) && Targets(nodes, high)
    modifies chain
    ensures IsChain(first, chain + nodes) && Targets(chain + nodes, low + high)
  {
    var last := first;
    ghost var k := 0;
    assert LinksOn(chain, 0);
    while last.more != null
      invariant k < |chain| && last == chain[k] && LinksOn(chain, k)
      decreases |chain| - k
    {
      last := last.more;
      k := k + 1;
      assert LinksOn(chain, k);
    }
    ghost var (n, all) := (|chain|, chain + nodes);
    forall i | 0 <= i < n - 1 ensures chain[i] != last && chain[i].more == chain[i + 1] {
      assert Differ(chain[i], chain[n - 1]) && LinksOn(chain, i);
    }
    forall i: nat | i < |nodes| ensures LinksOn(nodes, i) {
    }
    assert last in chain && last !in nodes;
    last.more := rest;
    forall i | 0 <= i < |all| ensures LinksOn(all, i) {
      if i >= n {
        assert nodes[i - n] in nodes && LinksOn(nodes, i - n);
      } else if i < n - 1 {
        assert all[i] == chain[i];
      } else {
        assert all[i] == last;
      }
    }
    JoinedDistinct(chain, nodes);
    TargetsJoin(chain, nodes);
  }

  lemma JoinedDistinct(chain: seq<NetAssign>, nodes: seq<NetAssign>)
    requires Distinct(chain) && Distinct(nodes) && forall n | n in chain :: n !in nodes
    ensures Distinct(chain + nodes)
  {
    var all := chain + nodes;
    forall i, j | 0 <= i < j < |all| ensures Differ(all[i], all[j]) {
      if j < |chain| {
        assert Differ(chain[i], chain[j]);
      } else if i < |chain| {
        assert all[i] in chain && all[j] in nodes;
      } else {
        assert Differ(nodes[i - |chain|], nodes[j - |chain|]);
      }
    }
  }

  /**
   * Elaborating an l-value as a chain of targets: each operand's chain goes in front of those
   * before it, so the chain starts with the least significant target.
   */
  method ElaborateLval(t: LTree) returns (res: NetAssign?, crashed: bool, ghost nodes: seq<NetAssign>)
    ensures crashed <==> Crashes(t)
    ensures !crashed ==> IsChain(res, nodes) && fresh(nodes)
    ensures !crashed ==> if t.Real? then res != null && res.isReal && res.sig == t.net else Targets(nodes, Leaves(t))
    decreases t, 1
  {
    res, crashed, nodes := null, false, [];
    match t
    case Signal(net) =>
      res := new NetAssign(net, false);
      nodes := [res];
    case Real(net) =>
      res := new NetAssign(net, true);
      nodes := [res];
    case Concat(parms, repeat) =>
      if !repeat {
        res, crashed, nodes := LinkOperands(t);
      }
    case _ =>
  }

  /** The operands of a concatenation, the first one last in the chain. */
  method LinkOperands(t: LTree) returns (res: NetAssign?, crashed: bool, ghost nodes: seq<NetAssign>)
    requires t.Concat? && !t.repeat
    ensures crashed <==> Crashes(t)
    ensures !crashed ==> IsChain(res, nodes) && fresh(nodes) && Targets(nodes, LeavesOf(t.parms))
    decreases t, 0
  {
    var parms := t.parms;
    res, crashed, nodes := null, false, [];
    for idx := 0 to |parms|
      invariant IsChain(res, nodes) && fresh(nodes) && Targets(nodes, LeavesOf(parms[..idx]))
      invariant forall i | 0 <= i < idx :: !Crashes(parms[i]) && !GivesNothing(parms[i])
    {
      LeavesOfOneMore(parms, idx);
      if parms[idx].Empty? {
        continue;
      }
      ghost var chain;
      res, crashed, chain := LinkOne(parms[idx], res, nodes, LeavesOf(parms[..idx]));
      if crashed {
        return;
      }
      nodes := chain + nodes;
    }
    assert parms[..|parms|] == parms;
  }

  /** One operand's chain, in front of the chain so far. Real operands are passed over. */
  method LinkOne(p: LTree, rest: NetAssign?, ghost nodes: seq<NetAssign>, ghost leaves: seq<nat>)
      returns (res: NetAssign?, crashed: bool, ghost chain: seq<NetAssign>)
    requires IsChain(rest, nodes) && Targets(nodes, leaves) && !p.Empty?
    ensures crashed <==> Crashes(p) || GivesNothing(p)
    ensures !crashed ==> IsChain(res, chain + nodes) && fresh(chain) && Targets(chain + nodes, Leaves(p) + leaves)
    decreases p, 2
  {
    NothingGiven(p);
    ghost var linked;
    res, crashed, linked := ElaborateLval(p);
    crashed := crashed || res == null;
    chain := [];
    if !crashed {
      assert linked[0] == res;
      if res.isReal {
        res := rest;
        assert [] + nodes == nodes && Leaves(p) + leaves == leaves;
      } else {
        Link(res, linked, rest, nodes, Leaves(p), leaves);
        chain := linked;
      }
    }
  }

  lemma NothingGiven(p: LTree)
    ensures p.Real? ==> Leaves(p) == [] && !Crashes(p) && !GivesNothing(p)
    ensures !p.Real? && !p.Empty? ==> (GivesNothing(p) <==> Leaves(p) == [])
  {
  }

  lemma LeavesOfOneMore(parms: seq<LTree>, idx: nat)
    requires idx < |parms|
    ensures LeavesOf(parms[..idx + 1]) == Leaves(parms[idx]) + LeavesOf(parms[..idx])
  {
    assert parms[..idx + 1][..idx] == parms[..idx] && parms[..idx + 1][idx] == parms[idx];
  }

  // ----- the two agree -----

  /** How many bits the first k targets of a chain take. */
  function Offset(leaves: seq<nat>, widths: seq<nat>, k: nat): nat
    requires k <= |leaves| && forall i | 0 <= i < |leaves| :: leaves[i] < |widths|
  {
    if k == 0 then 0 else Offset(leaves, widths, k - 1) + widths[leaves[k - 1]]
  }

  lemma {:induction false} WidthOfFirst(leaves: seq<nat>, widths: seq<nat>, val: seq<Bits>, k: nat)
    requires |val| == |widths| && (forall i | 0 <= i < |val| :: |val[i]| == widths[i]) && k <= |leaves|
    requires forall i | 0 <= i < |leaves| :: leaves[i] < |widths|
    ensures |Join(leaves[..k], val)| == Offset(leaves, widths, k)
  {
    if k > 0 {
      WidthOfFirst(leaves, widths, val, k - 1);
      assert leaves[..k] == leaves[..k - 1] + [leaves[k - 1]];
      FoldConcat.JoinAppend(leaves[..k - 1], [leaves[k - 1]], val);
      assert [leaves[k - 1]][1..] == [];
    }
  }

  lemma JoinAround(leaves: seq<nat>, val: seq<Bits>, k: nat)
    requires k < |leaves| && forall i | 0 <= i < |leaves| :: leaves[i] < |val|
    ensures Join(leaves, val) == Join(leaves[..k], val) + (val[leaves[k]] + Join(leaves[k + 1..], val))
  {
    assert leaves == leaves[..k] + leaves[k..];
    FoldConcat.JoinAppend(leaves[..k], leaves[k..], val);
    JoinFrom(leaves, val, k);
  }

  /**
   * The net form gives every operand the bits that the chain gives it: those after the bits of the
   * less significant operands.
   */
  lemma LnetAgreesWithChain(widths: seq<nat>, parts: seq<Part>, root: nat, leaves: seq<nat>, val: seq<Bits>, k: nat,
                            low: nat)
    requires CarriesLeaves(widths, parts, root, leaves) && Satisfied(widths, parts, val) && k < |leaves|
    requires low == Offset(leaves, widths, k)
    ensures low + widths[leaves[k]] <= |val[root]|
    ensures val[leaves[k]] == val[root][low..low + widths[leaves[k]]]
  {
    TakesItsBits(leaves, widths, val, val[root], k, low);
  }

  /** Together the operands take all the bits. */
  lemma LnetTakesAllBits(widths: seq<nat>, parts: seq<Part>, root: nat, leaves: seq<nat>, val: seq<Bits>)
    requires CarriesLeaves(widths, parts, root, leaves) && Satisfied(widths, parts, val)
    ensures Offset(leaves, widths, |leaves|) == |val[root]|
  {
    WidthOfFirst(leaves, widths, val, |leaves|);
    assert leaves[..|leaves|] == leaves;
  }

  lemma TakesItsBits(leaves: seq<nat>, widths: seq<nat>, val: seq<Bits>, v: Bits, k: nat, low: nat)
    requires |val| == |widths| && (forall i | 0 <= i < |val| :: |val[i]| == widths[i]) && k < |leaves|
    requires (forall i | 0 <= i < |leaves| :: leaves[i] < |widths|) && v == Join(leaves, val)
    requires low == Offset(leaves, widths, k)
    ensures low + widths[leaves[k]] <= |v| && val[leaves[k]] == v[low..low + widths[leaves[k]]]
  {
    WidthOfFirst(leaves, widths, val, k);
    JoinAround(leaves, val, k);
    Middle(v, Join(leaves[..k], val), val[leaves[k]], Join(leaves[k + 1..], val));
  }

  lemma JoinFrom(leaves: seq<nat>, val: seq<Bits>, k: nat)
    requires k < |leaves| && forall i | 0 <= i < |leaves| :: leaves[i] < |val|
    ensures Join(leaves[k..], val) == val[leaves[k]] + Join(leaves[k + 1..], val)
  {
    assert leaves[k..][1..] == leaves[k + 1..];
  }

  lemma Middle(whole: Bits, low: Bits, mid: Bits, high: Bits)
    requires whole == low + (mid + high)
    ensures |low| + |mid| <= |whole| && mid == whole[|low|..|low| + |mid|]
  {
  }
}
