/**
 * Constant propagation over a netlist: a two-way mux whose select is a constant 0 or 1 becomes a
 * buffer from the selected input, until a scan finds nothing to do. One bit of each vector.
 */
module Cprop {
  import opened Verinum

  // ----- the netlist -----

  /** What is linked to a net, in the order of its list, apart from pins that only read it. */
  datatype Link =
    | Out(node: nat)
    | ConstOut(value: Bit)
    | Supply(one: bool)
    | Pull(one: bool)
    | RootInput(port: nat)

  datatype Nexus = Nexus(links: seq<Link>, forced: bool)

  datatype Node =
    | Mux(size: nat, selWidth: nat, result: nat, sel: nat, data: seq<nat>)
    | Bufz(output: nat, input: nat)
    | Other

  /** The nodes, the circular list of them from its front, and the nets. */
  datatype Netlist = Netlist(nodes: map<nat, Node>, order: seq<nat>, nexus: seq<Nexus>)

  // ----- the value of a net with constant drivers -----

  function OfBool(one: bool): Bit {
    if one then V1 else V0
  }

  /** A driver that is not constant: another node, or what is outside the root module. */
  predicate Varies(l: Link) {
    l.Out? || l.RootInput?
  }

  /** A driver that is not constant comes in the list only behind a supply. */
  predicate DriversConstant(links: seq<Link>) {
    forall i | 0 <= i < |links| && Varies(links[i]) :: exists j | 0 <= j < i :: links[j].Supply?
  }

  /** A constant or a pull, which says what the net may carry. */
  predicate Speaks(l: Link) {
    l.ConstOut? || l.Pull?
  }

  predicate Says(l: Link, v: Bit) {
    match l
    case ConstOut(value) => value == v
    case Pull(one) => OfBool(one) == v
    case _ => false
  }

  predicate NoSupply(links: seq<Link>) {
    forall i | 0 <= i < |links| :: !links[i].Supply?
  }

  predicate Silent(links: seq<Link>) {
    forall i | 0 <= i < |links| :: !Speaks(links[i])
  }

  predicate FirstSupplyAt(links: seq<Link>, i: nat)
    requires i < |links|
  {
    links[i].Supply? && forall j | 0 <= j < i :: !links[j].Supply?
  }

  predicate LastSpeakerAt(links: seq<Link>, i: nat)
    requires i < |links|
  {
    Speaks(links[i]) && forall j | i < j < |links| :: !Speaks(links[j])
  }

  /** The first supply in the list gives v. */
  predicate FirstSupply(links: seq<Link>, v: Bit) {
    exists i | 0 <= i < |links| :: FirstSupplyAt(links, i) && OfBool(links[i].one) == v
  }

  /** The last constant or pull in the list says v. */
  predicate LastSays(links: seq<Link>, v: Bit) {
    exists i | 0 <= i < |links| :: LastSpeakerAt(links, i) && Says(links[i], v)
  }

  /** The value guessed: that of the first supply, else of the last constant or pull, else z. */
  predicate Guessed(links: seq<Link>, v: Bit) {
    FirstSupply(links, v) || (NoSupply(links) && (LastSays(links, v) || (Silent(links) && v == Vz)))
  }

  /** What comes behind the first supply does not matter; without a supply nothing may vary. */
  lemma ConstantExactly(links: seq<Link>, i: nat)
    requires i <= |links| && (i < |links| ==> FirstSupplyAt(links, i)) && (i == |links| ==> NoSupply(links))
    ensures DriversConstant(links) <==> forall j | 0 <= j < i :: !Varies(links[j])
  {
    if forall j | 0 <= j < i :: !Varies(links[j]) {
      forall j | 0 <= j < |links| && Varies(links[j]) ensures exists k | 0 <= k < j :: links[k].Supply? {
        assert i < j && links[i].Supply?;
      }
    }
  }

  /** At most one value is guessed. */
  lemma GuessUnique(links: seq<Link>, v: Bit, u: Bit)
    requires Guessed(links, v) && Guessed(links, u)
    ensures v == u
  {
    if FirstSupply(links, v) {
      var i :| 0 <= i < |links| && FirstSupplyAt(links, i) && OfBool(links[i].one) == v;
      var j :| 0 <= j < |links| && FirstSupplyAt(links, j) && OfBool(links[j].one) == u;
    } else if LastSays(links, v) {
      var i :| 0 <= i < |links| && LastSpeakerAt(links, i) && Says(links[i], v);
      var j :| 0 <= j < |links| && LastSpeakerAt(links, j) && Says(links[j], u);
    }
  }

  method ScanDriversConstant(links: seq<Link>) returns (r: bool)
    ensures r <==> DriversConstant(links)
  {
    for cur := 0 to |links|
      invariant forall i | 0 <= i < cur :: !Varies(links[i]) && !links[i].Supply?
    {
      match links[cur]
      case Out(_) => return false;
      case RootInput(_) => return false;
      case Supply(_) => return true;
      case _ =>
    }
    r := true;
  }

  method ScanDrivenValue(links: seq<Link>) returns (val: Bit)
    ensures Guessed(links, val)
  {
    val := Vz;
    for cur := 0 to |links|
      invariant NoSupply(links[..cur])
      invariant LastSays(links[..cur], val) || (Silent(links[..cur]) && val == Vz)
    {
      var l := links[cur];
      SaidNext(links, cur, val);
      match l
      case Supply(one) => return OfBool(one);
      case ConstOut(v) => val := v;
      case Pull(one) => val := OfBool(one);
      case _ =>
    }
    assert links[..|links|] == links;
  }

  /** One more link. */
  lemma SaidNext(links: seq<Link>, cur: nat, val: Bit)
    requires cur < |links| && NoSupply(links[..cur])
    ensures if links[cur].Supply? then FirstSupplyAt(links, cur) else NoSupply(links[..cur + 1])
    ensures forall v :: Says(links[cur], v) ==> LastSays(links[..cur + 1], v)
    ensures !Speaks(links[cur]) && LastSays(links[..cur], val) ==> LastSays(links[..cur + 1], val)
    ensures !Speaks(links[cur]) && Silent(links[..cur]) ==> Silent(links[..cur + 1])
  {
    var seen, next := links[..cur], links[..cur + 1];
    assert next == seen + [links[cur]];
    assert forall j | 0 <= j < cur :: links[j] == seen[j];
    forall v | Says(links[cur], v) ensures LastSays(next, v) {
      assert LastSpeakerAt(next, cur);
    }
    if !Speaks(links[cur]) && LastSays(seen, val) {
      var i :| 0 <= i < |seen| && LastSpeakerAt(seen, i) && Says(seen[i], val);
      assert LastSpeakerAt(next, i) && Says(next[i], val);
    }
  }

  // ----- what the nets carry -----

  /** Two drivers on one wire. */
  function Wired(a: Bit, b: Bit): Bit {
    if a == Vz then b else if b == Vz || a == b then a else Vx
  }

  /** A binary mux: an unknown select gives x unless the inputs agree. */
  function MuxValue(sel: Bit, a: Bit, b: Bit): Bit {
    if sel == V0 then a else if sel == V1 then b else if a == b && Known(a) then a else Vx
  }

  /** Everything the netlist does not say: the other nodes, and what is outside the root module. */
  datatype World = World(other: (nat, seq<Bit>) -> Bit, outside: nat -> Bit)

  function OutValue(d: Netlist, id: nat, val: seq<Bit>, w: World): Bit
    requires InRange(d) && |val| == |d.nexus|
  {
    if id !in d.nodes then w.other(id, val)
    else match d.nodes[id]
      case Mux(size, selWidth, _, sel, data) =>
        if size == 2 && selWidth == 1 then MuxValue(val[sel], val[data[0]], val[data[1]]) else w.other(id, val)
      case Bufz(_, input) => val[input]
      case Other => w.other(id, val)
  }

  predicate NodeInRange(n: Node, count: nat) {
    match n
    case Mux(size, _, result, sel, data) =>
      result < count && sel < count && |data| == size && forall i | 0 <= i < |data| :: data[i] < count
    case Bufz(output, input) => output < count && input < count
    case Other => true
  }

  predicate InRange(d: Netlist) {
    forall id | id in d.nodes :: NodeInRange(d.nodes[id], |d.nexus|)
  }

  /** What the drivers that are not supplies or pulls make of a wire. */
  function Strong(d: Netlist, links: seq<Link>, val: seq<Bit>, w: World): Bit
    requires InRange(d) && |val| == |d.nexus|
  {
    if links == [] then Vz
    else
      var rest := Strong(d, links[1..], val, w);
      match links[0]
      case Out(id) => Wired(OutValue(d, id, val, w), rest)
      case ConstOut(v) => Wired(v, rest)
      case RootInput(port) => Wired(w.outside(port), rest)
      case _ => rest
  }

  /** The supplies on a wire, and the pulls. */
  function Supplies(links: seq<Link>): Bit {
    if links == [] then Vz
    else if links[0].Supply? then Wired(OfBool(links[0].one), Supplies(links[1..])) else Supplies(links[1..])
  }

  function Pulls(links: seq<Link>): Bit {
    if links == [] then Vz
    else if links[0].Pull? then Wired(OfBool(links[0].one), Pulls(links[1..])) else Pulls(links[1..])
  }

  /** A supply overrides the drivers, and the drivers a pull. */
  function Resolved(d: Netlist, links: seq<Link>, val: seq<Bit>, w: World): Bit
    requires InRange(d) && |val| == |d.nexus|
  {
    if Supplies(links) != Vz then Supplies(links)
    else if Strong(d, links, val, w) != Vz then Strong(d, links, val, w)
    else Pulls(links)
  }

  /** The nets' values agree with all that drives them; an assigned net may carry anything. */
  ghost predicate Solution(d: Netlist, val: seq<Bit>, w: World)
    requires InRange(d)
  {
    && |val| == |d.nexus|
    && forall n | 0 <= n < |d.nexus| :: d.nexus[n].forced || val[n] == Resolved(d, d.nexus[n].links, val, w)
  }

  // ----- when the guess is right -----

  /** The value of a net with no drivers but constants. */
  function Settled(links: seq<Link>): Bit {
    if Supplies(links) != Vz then Supplies(links)
    else if Constants(links) != Vz then Constants(links)
    else Pulls(links)
  }

  function Constants(links: seq<Link>): Bit {
    if links == [] then Vz
    else if links[0].ConstOut? then Wired(links[0].value, Constants(links[1..])) else Constants(links[1..])
  }

  /** No driver contradicts the value v, and one of them gives it. */
  predicate Agreed(links: seq<Link>, v: Bit) {
    if exists i | 0 <= i < |links| :: links[i].Supply? then
      forall i | 0 <= i < |links| :: links[i].Supply? ==> OfBool(links[i].one) == v
    else
      && (forall i | 0 <= i < |links| :: links[i].ConstOut? ==> links[i].value in {v, Vz})
      && (ConstOut(v) in links || (Pull(v == V1) in links && Pull(v != V1) !in links))
  }

  lemma {:induction false} SuppliesAgree(links: seq<Link>, v: Bit)
    requires Known(v)
    ensures Supplies(links) == Vz <==> forall i | 0 <= i < |links| :: !links[i].Supply?
    ensures Supplies(links) == v <==>
      (exists i | 0 <= i < |links| :: links[i].Supply?)
      && forall i | 0 <= i < |links| :: links[i].Supply? ==> OfBool(links[i].one) == v
  {
    if links != [] {
      SuppliesAgree(links[1..], v);
      assert forall i | 0 < i < |links| :: links[i] == links[1..][i - 1];
    }
  }

  lemma {:induction false} ConstantsAgree(links: seq<Link>, v: Bit)
    requires Known(v)
    ensures Constants(links) == Vz <==> forall i | 0 <= i < |links| :: links[i].ConstOut? ==> links[i].value == Vz
    ensures Constants(links) == v <==>
      ConstOut(v) in links && forall i | 0 <= i < |links| :: links[i].ConstOut? ==> links[i].value in {v, Vz}
  {
    if links != [] {
      ConstantsAgree(links[1..], v);
      assert forall i | 0 < i < |links| :: links[i] == links[1..][i - 1];
      assert ConstOut(v) in links <==> links[0] == ConstOut(v) || ConstOut(v) in links[1..];
    }
  }

  lemma {:induction false} PullsAgree(links: seq<Link>, v: Bit)
    requires Known(v)
    ensures Pulls(links) == Vz <==> forall one :: Pull(one) !in links
    ensures Pulls(links) == v <==> Pull(v == V1) in links && Pull(v != V1) !in links
  {
    if links != [] {
      PullsAgree(links[1..], v);
      assert forall one :: Pull(one) in links <==> links[0] == Pull(one) || Pull(one) in links[1..];
    }
  }

  /** A net with constant drivers carries v exactly when its drivers agree on v. */
  lemma SettledExactly(links: seq<Link>, v: Bit)
    requires Known(v)
    ensures Settled(links) == v <==> Agreed(links, v)
  {
    SuppliesAgree(links, v);
    ConstantsAgree(links, v);
    PullsAgree(links, v);
  }

  lemma {:induction false} OnlyConstants(d: Netlist, links: seq<Link>, val: seq<Bit>, w: World)
    requires InRange(d) && |val| == |d.nexus| && forall i | 0 <= i < |links| :: !Varies(links[i])
    ensures Strong(d, links, val, w) == Constants(links)
  {
    if links != [] {
      OnlyConstants(d, links[1..], val, w);
    }
  }

  /**
   * A net with constant drivers carries a known value v exactly when its drivers agree on it; so the
   * guess is right exactly when they agree on the guess. With drivers that disagree the guess is that of
   * the last one.
   */
  lemma GuessIsRightExactly(d: Netlist, links: seq<Link>, v: Bit, val: seq<Bit>, w: World)
    requires InRange(d) && |val| == |d.nexus| && DriversConstant(links) && Known(v)
    ensures Resolved(d, links, val, w) == v <==> Agreed(links, v)
  {
    SettledExactly(links, v);
    SuppliesAgree(links, v);
    if Supplies(links) == Vz {
      OnlyConstants(d, links, val, w);
    }
  }

  lemma BehindSupply(links: seq<Link>, id: nat)
    requires DriversConstant(links) && Out(id) in links
    ensures Supplies(links) != Vz
  {
    var i :| 0 <= i < |links| && links[i] == Out(id);
    assert Varies(links[i]);
    SuppliesAgree(links, V0);
  }

  /** If some driver gives v and no constant, pull or supply another value, v is guessed, and carried. */
  lemma AgreedIsGuessed(d: Netlist, links: seq<Link>, v: Bit, val: seq<Bit>, w: World)
    requires InRange(d) && |val| == |d.nexus| && DriversConstant(links) && Known(v)
    requires exists i | 0 <= i < |links| :: Speaks(links[i]) || links[i].Supply?
    requires forall i | 0 <= i < |links| :: Speaks(links[i]) ==> Says(links[i], v)
    requires forall i | 0 <= i < |links| :: links[i].Supply? ==> OfBool(links[i].one) == v
    ensures Guessed(links, v) && Resolved(d, links, val, w) == v
  {
    var k :| 0 <= k < |links| && (Speaks(links[k]) || links[k].Supply?);
    if NoSupply(links) {
      var i := LastOne(links, k);
      assert links[i] == ConstOut(v) || links[i] == Pull(v == V1);
    } else {
      var m :| 0 <= m < |links| && links[m].Supply?;
      var i := FirstOne(links, m);
    }
    GuessIsRightExactly(d, links, v, val, w);
  }

  lemma {:induction false} LastOne(links: seq<Link>, k: nat) returns (i: nat)
    requires k < |links| && Speaks(links[k])
    ensures i < |links| && LastSpeakerAt(links, i)
    decreases |links| - k
  {
    if LastSpeakerAt(links, k) {
      i := k;
    } else {
      var j :| k < j < |links| && Speaks(links[j]);
      i := LastOne(links, j);
    }
  }

  lemma {:induction false} FirstOne(links: seq<Link>, k: nat) returns (i: nat)
    requires k < |links| && links[k].Supply?
    ensures i < |links| && FirstSupplyAt(links, i)
  {
    if FirstSupplyAt(links, k) {
      i := k;
    } else {
      var j :| 0 <= j < k && links[j].Supply?;
      i := FirstOne(links, j);
    }
  }

  // ----- rewriting one mux -----

  /** A one-bit two-way mux whose select is constant 0 or 1 and cannot be forced. */
  predicate Rewritable(d: Netlist, id: nat)
    requires InRange(d)
  {
    && id in d.nodes && d.nodes[id].Mux? && d.nodes[id].size == 2 && d.nodes[id].selWidth == 1
    && var sel := d.nexus[d.nodes[id].sel];
       DriversConstant(sel.links) && !sel.forced && (Guessed(sel.links, V0) || Guessed(sel.links, V1))
  }

  /** The input that a constant select chooses. */
  function Chosen(d: Netlist, id: nat): nat
    requires InRange(d) && Rewritable(d, id)
  {
    var m := d.nodes[id];
    if Guessed(d.nexus[m.sel].links, V1) then m.data[1] else m.data[0]
  }

  function Without(links: seq<Link>, l: Link): seq<Link> {
    if links == [] then [] else if links[0] == l then links[1..] else [links[0]] + Without(links[1..], l)
  }

  /** The links of a net when a buffer takes the place of a mux as its driver. */
  function Relinked(links: seq<Link>, id: nat, tmp: nat): seq<Link> {
    [Out(tmp)] + Without(links, Out(id))
  }

  /** The circular list, from its front, when its i-th node is deleted and another is added. */
  function Replaced(order: seq<nat>, i: nat, tmp: nat): seq<nat>
    requires i < |order|
  {
    if i == 0 then [tmp] + order[1..] else [tmp] + order[1..i] + order[i + 1..] + [order[0]]
  }

  /** Deleting the i-th node; the one before the front becomes the front if the front goes. */
  function DelNode(order: seq<nat>, i: nat): seq<nat>
    requires i < |order|
  {
    if i > 0 then order[..i] + order[i + 1..]
    else if |order| == 1 then [] else [order[|order| - 1]] + order[1..|order| - 1]
  }

  /** A new node comes after the front, and becomes the front. */
  function AddNode(order: seq<nat>, tmp: nat): seq<nat> {
    if order == [] then [tmp] else [tmp] + order[1..] + [order[0]]
  }

  /** A replaced node is deleted, and then its buffer is added. */
  lemma ReplacedIsDelThenAdd(order: seq<nat>, i: nat, tmp: nat)
    requires i < |order|
    ensures Replaced(order, i, tmp) == AddNode(DelNode(order, i), tmp)
  {
    var rest := DelNode(order, i);
    if i > 0 {
      assert rest[1..] == order[1..i] + order[i + 1..];
    } else if |order| > 1 {
      assert rest[1..] + [rest[0]] == order[1..];
    }
  }

  /** The netlist with the i-th node, a mux, replaced by the buffer tmp. */
  function Rewritten(d: Netlist, i: nat, tmp: nat): Netlist
    requires InRange(d) && i < |d.order| && Rewritable(d, d.order[i])
  {
    var id := d.order[i];
    var m := d.nodes[id];
    var result := d.nexus[m.result];
    Netlist((d.nodes - {id})[tmp := Bufz(m.result, Chosen(d, id))],
            Replaced(d.order, i, tmp),
            d.nexus[m.result := result.(links := Relinked(result.links, id, tmp))])
  }

  /** How often a node drives a net. */
  function Drives(links: seq<Link>, id: nat): nat {
    if links == [] then 0 else Drives(links[1..], id) + if links[0] == Out(id) then 1 else 0
  }

  /** Each mux drives its result net once and no other; the list holds each node once. */
  predicate Wellformed(d: Netlist, next: nat) {
    && InRange(d)
    && (forall id | id in d.nodes :: id < next && id in d.order)
    && (forall i | 0 <= i < |d.order| :: d.order[i] in d.nodes)
    && (forall i, j | 0 <= i < j < |d.order| :: d.order[i] != d.order[j])
    && (forall n | 0 <= n < |d.nexus| :: LinksInRange(d.nexus[n].links, next))
    && forall id | id in d.nodes && d.nodes[id].Mux? ::
         forall n | 0 <= n < |d.nexus| :: Drives(d.nexus[n].links, id) == if n == d.nodes[id].result then 1 else 0
  }

  predicate LinksInRange(links: seq<Link>, next: nat) {
    forall i | 0 <= i < |links| :: links[i].Out? ==> links[i].node < next
  }

  lemma {:induction false} NeverDrives(links: seq<Link>, id: nat)
    ensures Drives(links, id) == 0 <==> Out(id) !in links
  {
    if links != [] {
      NeverDrives(links[1..], id);
      assert Out(id) in links <==> links[0] == Out(id) || Out(id) in links[1..];
    }
  }

  lemma {:induction false} WithoutDriver(links: seq<Link>, id: nat, other: nat)
    requires Drives(links, id) == 1
    ensures Drives(Without(links, Out(id)), id) == 0
    ensures other != id ==> Drives(Without(links, Out(id)), other) == Drives(links, other)
    ensures Supplies(Without(links, Out(id))) == Supplies(links) && Pulls(Without(links, Out(id))) == Pulls(links)
    ensures forall l :: l in Without(links, Out(id)) ==> l in links
  {
    if links[0] != Out(id) {
      WithoutDriver(links[1..], id, other);
      var rest := Without(links[1..], Out(id));
      assert ([links[0]] + rest)[1..] == rest;
    }
  }

  lemma {:induction false} StrongWithout(d: Netlist, links: seq<Link>, id: nat, val: seq<Bit>, w: World)
    requires InRange(d) && |val| == |d.nexus| && Drives(links, id) == 1
    ensures Strong(d, links, val, w) == Wired(OutValue(d, id, val, w), Strong(d, Without(links, Out(id)), val, w))
  {
    if links[0] != Out(id) {
      StrongWithout(d, links[1..], id, val, w);
      var rest := Without(links[1..], Out(id));
      assert ([links[0]] + rest)[1..] == rest;
    }
  }

  /** Drivers other than the two nodes do what they did. */
  lemma {:induction false} StrongUnchanged(d: Netlist, d': Netlist, links: seq<Link>, id: nat, tmp: nat,
                                           val: seq<Bit>, w: World)
    requires InRange(d) && InRange(d') && |val| == |d.nexus| == |d'.nexus|
    requires forall k | k != id && k != tmp ::
            (k in d.nodes <==> k in d'.nodes) && (k in d.nodes ==> d.nodes[k] == d'.nodes[k])
    requires Out(id) !in links && Out(tmp) !in links
    ensures Strong(d, links, val, w) == Strong(d', links, val, w)
  {
    if links != [] {
      StrongUnchanged(d, d', links[1..], id, tmp, val, w);
    }
  }

  lemma RewrittenInRange(d: Netlist, i: nat, tmp: nat)
    requires Wellformed(d, tmp) && i < |d.order| && Rewritable(d, d.order[i])
    ensures InRange(Rewritten(d, i, tmp)) && |Rewritten(d, i, tmp).nexus| == |d.nexus|
  {
  }

  /** The net the mux drove gets the same value from the buffer. */
  lemma ResultUnchanged(d: Netlist, i: nat, tmp: nat, val: seq<Bit>, w: World)
    requires Wellformed(d, tmp) && i < |d.order| && Rewritable(d, d.order[i]) && |val| == |d.nexus|
    requires var m := d.nodes[d.order[i]]; Known(val[m.sel]) && Guessed(d.nexus[m.sel].links, val[m.sel])
    ensures InRange(Rewritten(d, i, tmp))
    ensures var n := d.nodes[d.order[i]].result;
            Resolved(Rewritten(d, i, tmp), Rewritten(d, i, tmp).nexus[n].links, val, w) ==
                    Resolved(d, d.nexus[n].links, val, w)
  {
    RewrittenInRange(d, i, tmp);
    var (id, d') := (d.order[i], Rewritten(d, i, tmp));
    var n := d.nodes[id].result;
    var links := d.nexus[n].links;
    var rest := Without(links, Out(id));
    WithoutDriver(links, id, tmp);
    NeverDrives(rest, id);
    StrongWithout(d, links, id, val, w);
    StrongUnchanged(d, d', rest, id, tmp, val, w);
    assert d'.nexus[n].links[1..] == rest;
    var sel := d.nodes[id].sel;
    if Guessed(d.nexus[sel].links, V1) { GuessUnique(d.nexus[sel].links, V1, val[sel]); }
    assert OutValue(d', tmp, val, w) == OutValue(d, id, val, w);
  }

  /** Every other net is driven as before. */
  lemma OthersUnchanged(d: Netlist, i: nat, tmp: nat, val: seq<Bit>, w: World, n: nat)
    requires Wellformed(d, tmp) && i < |d.order| && Rewritable(d, d.order[i]) && |val| == |d.nexus|
    requires n < |d.nexus| && n != d.nodes[d.order[i]].result
    ensures InRange(Rewritten(d, i, tmp)) && Rewritten(d, i, tmp).nexus[n] == d.nexus[n]
    ensures Resolved(Rewritten(d, i, tmp), d.nexus[n].links, val, w) == Resolved(d, d.nexus[n].links, val, w)
  {
    RewrittenInRange(d, i, tmp);
    NeverDrives(d.nexus[n].links, d.order[i]);
    StrongUnchanged(d, Rewritten(d, i, tmp), d.nexus[n].links, d.order[i], tmp, val, w);
  }

  /** The constant drivers of a mux's select agree on the value that the first supply or the last of them gives. */
  predicate SelectAgrees(d: Netlist, id: nat)
    requires InRange(d) && Rewritable(d, id)
  {
    var links := d.nexus[d.nodes[id].sel].links;
    exists v :: Known(v) && Guessed(links, v) && Agreed(links, v)
  }

  /** So for every mux that can be rewritten. */
  ghost predicate Trusted(d: Netlist)
    requires InRange(d)
  {
    forall id | id in d.nodes && Rewritable(d, id) :: SelectAgrees(d, id)
  }

  /** In every solution, before and after, the select carries the guessed value. */
  lemma SelectIsGuessed(d: Netlist, i: nat, tmp: nat, val: seq<Bit>, w: World)
    requires Wellformed(d, tmp) && i < |d.order| && Rewritable(d, d.order[i]) && SelectAgrees(d, d.order[i])
    requires InRange(Rewritten(d, i, tmp))
    requires Solution(d, val, w) || Solution(Rewritten(d, i, tmp), val, w)
    ensures |val| == |d.nexus|
    ensures var m := d.nodes[d.order[i]]; Known(val[m.sel]) && Guessed(d.nexus[m.sel].links, val[m.sel])
  {
    RewrittenInRange(d, i, tmp);
    var (m, d') := (d.nodes[d.order[i]], Rewritten(d, i, tmp));
    var links := d.nexus[m.sel].links;
    var v :| Known(v) && Guessed(links, v) && Agreed(links, v);
    GuessIsRightExactly(d, links, v, val, w);
    if m.sel == m.result {
      NeverDrives(links, d.order[i]);
      BehindSupply(links, d.order[i]);
      WithoutDriver(links, d.order[i], tmp);
      assert d'.nexus[m.sel].links[1..] == Without(links, Out(d.order[i]));
    } else {
      OthersUnchanged(d, i, tmp, val, w, m.sel);
    }
  }

  /** Replacing the mux changes no solution: every net carries what it did, if the select's drivers agree. */
  lemma RewriteKeepsSolutions(d: Netlist, i: nat, tmp: nat, val: seq<Bit>, w: World)
    requires Wellformed(d, tmp) && i < |d.order| && Rewritable(d, d.order[i]) && SelectAgrees(d, d.order[i])
    ensures InRange(Rewritten(d, i, tmp))
    ensures Solution(d, val, w) <==> Solution(Rewritten(d, i, tmp), val, w)
  {
    RewrittenInRange(d, i, tmp);
    var d' := Rewritten(d, i, tmp);
    if Solution(d, val, w) || Solution(d', val, w) {
      SelectIsGuessed(d, i, tmp, val, w);
      ResultUnchanged(d, i, tmp, val, w);
      forall n | 0 <= n < |d.nexus| && n != d.nodes[d.order[i]].result
        ensures d'.nexus[n] == d.nexus[n]
                && Resolved(d', d.nexus[n].links, val, w) == Resolved(d, d.nexus[n].links, val, w)
      {
        OthersUnchanged(d, i, tmp, val, w, n);
      }
      var r := d.nodes[d.order[i]].result;
      assert forall n | 0 <= n < |d.nexus| ::
          d'.nexus[n].forced == d.nexus[n].forced
          && Resolved(d', d'.nexus[n].links, val, w) == Resolved(d, d.nexus[n].links, val, w);
    }
  }

  // ----- the invariants of a run -----

  predicate OncePerNode(order: seq<nat>, nodes: map<nat, Node>) {
    && (forall id | id in nodes :: id in order)
    && (forall i | 0 <= i < |order| :: order[i] in nodes)
    && forall i, j | 0 <= i < j < |order| :: order[i] != order[j]
  }

  lemma ReplacedOnce(order: seq<nat>, nodes: map<nat, Node>, i: nat, tmp: nat, n: Node)
    requires OncePerNode(order, nodes) && i < |order| && tmp !in nodes
    ensures OncePerNode(Replaced(order, i, tmp), (nodes - {order[i]})[tmp := n])
    ensures |Replaced(order, i, tmp)| == |order|
  {
    var (o', nodes') := (Replaced(order, i, tmp), (nodes - {order[i]})[tmp := n]);
    assert tmp !in order;
    forall id | id in nodes' ensures id in o' {
      if id == tmp {
        assert o'[0] == tmp;
      } else {
        var k :| 0 <= k < |order| && order[k] == id;
        assert o'[if k == 0 then |order| - 1 else if k < i || i == 0 then k else k - 1] == id;
      }
    }
  }

  lemma LinksStayInRange(links: seq<Link>, id: nat, tmp: nat)
    requires LinksInRange(links, tmp) && Drives(links, id) == 1
    ensures LinksInRange(Relinked(links, id, tmp), tmp + 1)
  {
    WithoutDriver(links, id, tmp);
    var rest := Without(links, Out(id));
    forall i | 0 <= i < |Relinked(links, id, tmp)| && Relinked(links, id, tmp)[i].Out?
      ensures Relinked(links, id, tmp)[i].node < tmp + 1
    {
      if i > 0 {
        assert rest[i - 1] in links;
      }
    }
  }

  /** The other muxes drive what they drove. */
  lemma DrivesUnchanged(links: seq<Link>, id: nat, tmp: nat, k: nat)
    requires Drives(links, id) == 1 && k != id && k != tmp
    ensures Drives(Relinked(links, id, tmp), k) == Drives(links, k)
  {
    WithoutDriver(links, id, k);
    assert Relinked(links, id, tmp)[1..] == Without(links, Out(id));
  }

  lemma RewriteKeepsWellformed(d: Netlist, i: nat, tmp: nat)
    requires Wellformed(d, tmp) && i < |d.order| && Rewritable(d, d.order[i])
    ensures Wellformed(Rewritten(d, i, tmp), tmp + 1)
  {
    RewrittenInRange(d, i, tmp);
    var (id, d') := (d.order[i], Rewritten(d, i, tmp));
    var result := d.nodes[id].result;
    ReplacedOnce(d.order, d.nodes, i, tmp, d'.nodes[tmp]);
    LinksStayInRange(d.nexus[result].links, id, tmp);
    forall k | k in d'.nodes && d'.nodes[k].Mux?
      ensures forall n | 0 <= n < |d'.nexus| :: Drives(d'.nexus[n].links, k) == if n == d'.nodes[k].result then 1 else 0
    {
      DrivesUnchanged(d.nexus[result].links, id, tmp, k);
    }
    forall n | 0 <= n < |d'.nexus| ensures LinksInRange(d'.nexus[n].links, tmp + 1) {
      assert LinksInRange(d.nexus[n].links, tmp);
    }
  }

  lemma RewriteKeepsTrusted(d: Netlist, i: nat, tmp: nat)
    requires Wellformed(d, tmp) && i < |d.order| && Rewritable(d, d.order[i]) && Trusted(d)
    ensures InRange(Rewritten(d, i, tmp)) && Trusted(Rewritten(d, i, tmp))
  {
    RewrittenInRange(d, i, tmp);
    var (result, d') := (d.nodes[d.order[i]].result, Rewritten(d, i, tmp));
    assert Varies(d'.nexus[result].links[0]) && !DriversConstant(d'.nexus[result].links);
    forall id | id in d'.nodes && Rewritable(d', id) ensures SelectAgrees(d', id) {
      assert d'.nodes[id] == d.nodes[id] && d'.nodes[id].sel != result;
      assert Rewritable(d, id) && SelectAgrees(d, id);
    }
  }

  lemma RewriteRemovesMux(d: Netlist, i: nat, tmp: nat)
    requires Wellformed(d, tmp) && i < |d.order| && Rewritable(d, d.order[i])
    ensures |Muxes(Rewritten(d, i, tmp))| == |Muxes(d)| - 1
  {
    assert Muxes(Rewritten(d, i, tmp)) == Muxes(d) - {d.order[i]} && d.order[i] in Muxes(d);
  }

  function Muxes(d: Netlist): set<nat> {
    set id | id in d.nodes && d.nodes[id].Mux?
  }

  /** Nothing is left to do at the first k nodes. */
  predicate DoneTo(d: Netlist, k: nat)
    requires InRange(d) && k <= |d.order|
  {
    forall i | 0 <= i < k :: !Rewritable(d, d.order[i])
  }

  lemma DoneNext(d: Netlist, k: nat)
    requires InRange(d) && k < |d.order| && DoneTo(d, k) && !Rewritable(d, d.order[k])
    ensures DoneTo(d, k + 1)
  {
  }

  /** Nothing is left to do. */
  predicate Done(d: Netlist)
    requires InRange(d)
  {
    DoneTo(d, |d.order|)
  }

  /** The two netlists have the same solutions, whatever the world does. */
  ghost predicate Equivalent(d: Netlist, d': Netlist)
    requires InRange(d) && InRange(d')
  {
    forall val, w :: Solution(d, val, w) <==> Solution(d', val, w)
  }

  /** If the drivers of the selects agree in d, they do in d', which has the same solutions. */
  ghost predicate Preserved(d: Netlist, d': Netlist)
    requires InRange(d) && InRange(d')
  {
    Trusted(d) ==> Trusted(d') && Equivalent(d, d')
  }

  lemma PreservedTransitive(d: Netlist, d': Netlist, d'': Netlist)
    requires InRange(d) && InRange(d') && InRange(d'') && Preserved(d, d') && Preserved(d', d'')
    ensures Preserved(d, d'')
  {
  }

  lemma RewritePreserves(d: Netlist, i: nat, tmp: nat)
    requires Wellformed(d, tmp) && i < |d.order| && Rewritable(d, d.order[i])
    requires InRange(Rewritten(d, i, tmp))
    ensures Preserved(d, Rewritten(d, i, tmp))
  {
    if Trusted(d) {
      RewriteKeepsTrusted(d, i, tmp);
      forall val, w ensures Solution(d, val, w) <==> Solution(Rewritten(d, i, tmp), val, w) {
        RewriteKeepsSolutions(d, i, tmp, val, w);
      }
    }
  }

  /** All that a rewritten mux leaves as it should be. */
  lemma VisitKeeps(d: Netlist, d': Netlist, i: nat, tmp: nat, next: nat)
    requires Wellformed(d, tmp) && i < |d.order| && Rewritable(d, d.order[i])
    requires d' == Rewritten(d, i, tmp) && next == tmp + 1
    ensures Wellformed(d', next) && |d'.order| == |d.order|
    ensures |Muxes(d')| == |Muxes(d)| - 1 && Preserved(d, d')
  {
    RewriteKeepsWellformed(d, i, tmp);
    RewriteRemovesMux(d, i, tmp);
    ReplacedOnce(d.order, d.nodes, i, tmp, Other);
    RewritePreserves(d, i, tmp);
  }

  /** The value found is 0 or 1 exactly if the net is constant, not assigned, and has that as its guess. */
  predicate SelectValue(sel: Nexus, selVal: Bit) {
    forall v | Known(v) :: selVal == v <==> DriversConstant(sel.links) && !sel.forced && Guessed(sel.links, v)
  }

  /** The value decides whether a two-way mux can be rewritten, and to which input. */
  lemma SelectDecides(d: Netlist, id: nat, selVal: Bit)
    requires InRange(d) && id in d.nodes && d.nodes[id].Mux? && d.nodes[id].size == 2 && d.nodes[id].selWidth == 1
    requires SelectValue(d.nexus[d.nodes[id].sel], selVal)
    ensures Rewritable(d, id) <==> Known(selVal)
    ensures Known(selVal) ==> Chosen(d, id) == d.nodes[id].data[if selVal == V1 then 1 else 0]
  {
    assert Known(V0) && Known(V1);
  }

  /** The value of a select net that is constant and not assigned, else x or z. */
  method ConstantSelect(sel: Nexus) returns (selVal: Bit)
    ensures SelectValue(sel, selVal)
  {
    var flag := ScanDriversConstant(sel.links);
    flag := flag && !sel.forced;
    selVal := Vx;
    if flag {
      selVal := ScanDrivenValue(sel.links);
      forall v | Guessed(sel.links, v) ensures v == selVal {
        GuessUnique(sel.links, v, selVal);
      }
    }
  }

  class Design {
    var nodes: map<nat, Node>
    var order: seq<nat>
    var nexus: seq<Nexus>
    var nextId: nat

    constructor (d: Netlist, nextId: nat)
      ensures State() == d && this.nextId == nextId
    {
      nodes, order, nexus, this.nextId := d.nodes, d.order, d.nexus, nextId;
    }

    function State(): Netlist
      reads this
    {
      Netlist(nodes, order, nexus)
    }

    /** Visiting the i-th node: a mux with a constant select is replaced by a buffer. */
    method LpmMux(i: nat) returns (changed: bool)
      requires Wellformed(State(), nextId) && i < |order|
      modifies this
      ensures changed <==> old(Rewritable(State(), order[i]))
      ensures changed ==> State() == old(Rewritten(State(), i, nextId)) && nextId == old(nextId) + 1
      ensures !changed ==> State() == old(State()) && nextId == old(nextId)
    {
      var id := order[i];
      var obj := nodes[id];
      if !obj.Mux? || obj.size != 2 || obj.selWidth != 1 {
        return false;
      }
      var selVal := ConstantSelect(nexus[obj.sel]);
      SelectDecides(State(), id, selVal);
      if selVal == Vz || selVal == Vx {
        return false;
      }
      var tmp := nextId;
      nextId := nextId + 1;
      var input := if selVal == V1 then obj.data[1] else obj.data[0];
      var result := nexus[obj.result];
      nexus := nexus[obj.result := result.(links := Relinked(result.links, id, tmp))];
      nodes := (nodes - {id})[tmp := Bufz(obj.result, input)];
      ReplacedIsDelThenAdd(order, i, tmp);
      order := AddNode(DelNode(order, i), tmp);
      changed := true;
    }

    /** Visiting the i-th node, with what it does to the netlist as a whole. */
    method Visit(i: nat) returns (changed: bool)
      requires Wellformed(State(), nextId) && i < |order|
      modifies this
      ensures Wellformed(State(), nextId) && |order| == old(|order|)
      ensures changed <==> old(Rewritable(State(), order[i]))
      ensures !changed ==> State() == old(State())
      ensures changed ==> |Muxes(State())| == |Muxes(old(State()))| - 1
      ensures Preserved(old(State()), State())
    {
      ghost var before := State();
      ghost var next := nextId;
      changed := LpmMux(i);
      if changed {
        VisitKeeps(before, State(), i, next, nextId);
      }
    }

    /**
     * One scan of the circular list, from its front until the front comes round again. A node that
     * is added becomes the front, after the old one.
     */
    method Functor() returns (count: nat)
      requires Wellformed(State(), nextId)
      modifies this
      ensures Wellformed(State(), nextId)
      ensures Preserved(old(State()), State())
      ensures count == 0 ==> State() == old(State()) && Done(State())
      ensures |Muxes(State())| + count == |Muxes(old(State()))|
    {
      count := 0;
      if |order| == 0 {
        return;
      }
      var cur := 0;
      ghost var start := State();
      var more := true;
      while more
        invariant 0 <= cur <= |order| && Wellformed(State(), nextId) && (more ==> cur < |order|)
        invariant !more ==> count > 0 || cur == |order|
        invariant Preserved(start, State())
        invariant count == 0 ==> State() == start && DoneTo(start, cur)
        invariant |Muxes(State())| + count == |Muxes(start)|
        decreases more, |Muxes(State())|, |order| - cur
      {
        ghost var before := State();
        var changed := Visit(cur);
        PreservedTransitive(start, before, State());
        if changed {
          count := count + 1;
          if cur == 0 {
            more := |order| > 1;
            cur := if more then 1 else 0;
          }
        } else {
          if count == 0 { DoneNext(start, cur); }
          cur := cur + 1;
          more := cur < |order|;
        }
      }
    }

    /**
     * Scanning until a scan finds nothing to do: it ends, since each rewrite removes a mux; no mux
     * that could be rewritten is left; and every net carries what it did.
     */
    method Cprop()
      requires Wellformed(State(), nextId)
      modifies this
      ensures Wellformed(State(), nextId) && Done(State())
      ensures Trusted(old(State())) ==> Equivalent(old(State()), State())
    {
      ghost var start := State();
      var count := Functor();
      while count > 0
        invariant Wellformed(State(), nextId) && (count == 0 ==> Done(State()))
        invariant Preserved(start, State())
        decreases |Muxes(State())| + count
      {
        ghost var before := State();
        count := Functor();
        PreservedTransitive(start, before, State());
      }
    }
  }
}
