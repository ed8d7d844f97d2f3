/** Replicated concatenation: folded on constants, and synthesized as the pins of one node. */
module FoldConcat {
  import opened Prelude
  import opened Verinum
  import opened VerinumArith
  import opened Netlist

  /** One copy of the operands, the first most significant. */
  function Body(parms: seq<Bits>): (v: Bits)
    ensures |v| == TotalWidth(parms)
  {
    if parms == [] then [] else Body(parms[1..]) + parms[0]
  }

  function TotalWidth(parms: seq<Bits>): nat {
    if parms == [] then 0 else |parms[0]| + TotalWidth(parms[1..])
  }

  /** n copies of v. */
  function Times(v: Bits, n: nat): Bits {
    if n == 0 then [] else v + Times(v, n - 1)
  }

  lemma {:induction false} TimesLength(v: Bits, n: nat)
    ensures |Times(v, n)| == n * |v|
  {
    if n > 0 {
      TimesLength(v, n - 1);
      assert n * |v| == |v| + (n - 1) * |v|;
    }
  }

  /** The position of bit c of copy r. */
  function Index(r: nat, c: nat, gap: nat): (k: nat)
    ensures c <= k
  {
    if r == 0 then c else gap + Index(r - 1, c, gap)
  }

  lemma {:induction false} IndexIsOffset(r: nat, c: nat, gap: nat)
    ensures Index(r, c, gap) == r * gap + c
  {
    if r > 0 {
      IndexIsOffset(r - 1, c, gap);
      assert r * gap == (r - 1) * gap + gap;
    }
  }

  lemma {:induction false} IndexInRange(r: nat, c: nat, gap: nat, n: nat)
    requires r < n && c < gap
    ensures Index(r, c, gap) < n * gap
  {
    IndexIsOffset(r, c, gap);
    MulGap(gap, r, n);
  }

  lemma {:induction false} IndexInjective(r: nat, c: nat, r': nat, c': nat, gap: nat)
    requires c < gap && c' < gap && Index(r, c, gap) == Index(r', c', gap)
    ensures r == r' && c == c'
  {
    if r > 0 && r' > 0 {
      IndexInjective(r - 1, c, r' - 1, c', gap);
    }
  }

  lemma {:induction false} TimesAt(v: Bits, n: nat, r: nat, c: nat)
    requires r < n && c < |v|
    ensures Index(r, c, |v|) < |Times(v, n)| && Times(v, n)[Index(r, c, |v|)] == v[c]
  {
    if r > 0 {
      TimesAt(v, n - 1, r - 1, c);
    }
  }

  /** Every position is some bit of some copy. */
  lemma {:induction false} IndexCovers(k: nat, gap: nat, n: nat) returns (r: nat, c: nat)
    requires k < n * gap
    ensures r < n && c < gap && k == Index(r, c, gap)
  {
    if k < gap {
      r, c := 0, k;
    } else {
      assert n * gap == gap + (n - 1) * gap;
      r, c := IndexCovers(k - gap, gap, n - 1);
      r := r + 1;
    }
  }

  // ----- folding -----

  /** An operand: a constant already, one that folds to a constant, or anything else. */
  datatype Parm = Constant(value: Verinum) | FoldsTo(value: Verinum) | NotConstant

  predicate Usable(p: Parm) {
    p.FoldsTo? ==> p.value.hasLen && p.value.bits != []
  }

  predicate AllConstant(parms: seq<Parm>) {
    forall i | 0 <= i < |parms| :: !parms[i].NotConstant?
  }

  predicate AllUsable(parms: seq<Parm>) {
    forall i | 0 <= i < |parms| :: Usable(parms[i])
  }

  function Values(parms: seq<Parm>): (vs: seq<Bits>)
    requires AllConstant(parms)
    ensures |vs| == |parms|
  {
    seq(|parms|, i requires 0 <= i < |parms| => parms[i].value.bits)
  }

  /**
   * The state of the vector: in every copy the low bits hold what is done; the next one holds b in
   * the first rep copies; everything else still holds blank.
   */
  ghost predicate Placed<T>(s: seq<T>, repeat: nat, gap: nat, done: seq<T>, rep: nat, b: T, blank: T) {
    forall r: nat, c: nat | r < repeat && c < gap ::
      && Index(r, c, gap) < |s|
      && s[Index(r, c, gap)] == if c < |done| then done[c] else if c == |done| && r < rep then b else blank
  }

  lemma PlaceOne<T>(s: seq<T>, repeat: nat, gap: nat, done: seq<T>, rep: nat, b: T, blank: T)
    requires |done| < gap && rep < repeat && Placed(s, repeat, gap, done, rep, b, blank)
    ensures var k := Index(rep, |done|, gap);
            k < |s| && s[k] == blank && Placed(s[k := b], repeat, gap, done, rep + 1, b, blank)
  {
    var k := Index(rep, |done|, gap);
    var s' := s[k := b];
    forall r: nat, c: nat | r < repeat && c < gap
      ensures Index(r, c, gap) < |s'|
      ensures s'[Index(r, c, gap)] == if c < |done| then done[c] else if c == |done| && r < rep + 1 then b else blank
    {
      if Index(r, c, gap) == k {
        IndexInjective(r, c, rep, |done|, gap);
      }
    }
  }

  /** A bit placed in every copy is done. */
  lemma AllPlaced<T>(s: seq<T>, repeat: nat, gap: nat, done: seq<T>, b: T, next: T, blank: T)
    requires |done| < gap && Placed(s, repeat, gap, done, repeat, b, blank)
    ensures Placed(s, repeat, gap, done + [b], 0, next, blank)
  {
  }

  /** How often each position has been written: once up to cur, and in the first rep copies at cur. */
  ghost predicate WrittenOnce(times: seq<nat>, repeat: nat, gap: nat, cur: nat, rep: nat) {
    Placed(times, repeat, gap, seq(cur, _ => 1), rep, 1, 0)
  }

  /** The innermost loop: one bit goes into every copy. */
  method SetInCopies(val: array<Bit>, b: Bit, repeat: nat, gap: nat, cur: nat, ghost done: Bits, ghost before: seq<nat>)
      returns (ghost times: seq<nat>)
    requires val.Length == repeat * gap == |before| && cur == |done| < gap
    requires Placed(val[..], repeat, gap, done, 0, b, Vx) && WrittenOnce(before, repeat, gap, cur, 0)
    modifies val
    ensures Placed(val[..], repeat, gap, done + [b], 0, Vx, Vx) && WrittenOnce(times, repeat, gap, cur + 1, 0)
    ensures |times| == |before|
  {
    times := before;
    for rep := 0 to repeat
      invariant |times| == |before|
      invariant Placed(val[..], repeat, gap, done, rep, b, Vx) && WrittenOnce(times, repeat, gap, cur, rep)
    {
      IndexIsOffset(rep, cur, gap);
      PlaceOne(val[..], repeat, gap, done, rep, b, Vx);
      PlaceOne(times, repeat, gap, seq(cur, _ => 1), rep, 1, 0);
      ghost var s := val[..];
      val[rep * gap + cur] := b;
      assert val[..] == s[Index(rep, cur, gap) := b];
      times := times[Index(rep, cur, gap) := times[Index(rep, cur, gap)] + 1];
    }
    AllPlaced(val[..], repeat, gap, done, b, Vx, Vx);
    AllPlaced(times, repeat, gap, seq(cur, _ => 1), 1, 1, 0);
    assert seq(cur, _ => 1) + [1] == seq(cur + 1, _ => 1);
  }

  /** A vector filled in every copy is the repeated body. */
  lemma PlacedIsTimes(s: Bits, repeat: nat, gap: nat, done: Bits)
    requires |s| == repeat * gap && gap == |done| && Placed(s, repeat, gap, done, 0, Vx, Vx)
    ensures s == Times(done, repeat)
  {
    TimesLength(done, repeat);
    forall k | 0 <= k < |s| ensures s[k] == Times(done, repeat)[k] {
      var r, c := IndexCovers(k, gap, repeat);
      TimesAt(done, repeat, r, c);
    }
  }

  lemma BodyFromLast(vs: seq<Bits>, i: nat)
    requires i < |vs|
    ensures Body(vs[i..]) == Body(vs[i + 1..]) + vs[i]
    ensures TotalWidth(vs[i..]) == |vs[i]| + TotalWidth(vs[i + 1..])
  {
    assert vs[i..][1..] == vs[i + 1..];
  }

  lemma {:induction false} WidthOfRest(vs: seq<Bits>, i: nat)
    requires i <= |vs|
    ensures TotalWidth(vs[i..]) <= TotalWidth(vs)
    decreases i
  {
    if i > 0 {
      WidthOfRest(vs, i - 1);
      BodyFromLast(vs, i - 1);
    } else {
      assert vs[0..] == vs;
    }
  }

  /** The bits of one operand, each into every copy. */
  method PlaceOperand(val: array<Bit>, tmp: Bits, repeat: nat, gap: nat, cur: nat, ghost done: Bits,
                      ghost before: seq<nat>)
      returns (cur': nat, ghost times: seq<nat>)
    requires val.Length == repeat * gap == |before| && cur == |done| && cur + |tmp| <= gap
    requires Placed(val[..], repeat, gap, done, 0, Vx, Vx) && WrittenOnce(before, repeat, gap, cur, 0)
    modifies val
    ensures cur' == cur + |tmp|
    ensures Placed(val[..], repeat, gap, done + tmp, 0, Vx, Vx) && WrittenOnce(times, repeat, gap, cur', 0)
    ensures |times| == |before|
  {
    cur' := cur;
    times := before;
    assert done + tmp[..0] == done;
    for bit := 0 to |tmp|
      invariant cur' == cur + bit && |times| == |before|
      invariant Placed(val[..], repeat, gap, done + tmp[..bit], 0, Vx, Vx) && WrittenOnce(times, repeat, gap, cur', 0)
    {
      times := SetInCopies(val, tmp[bit], repeat, gap, cur', done + tmp[..bit], times);
      assert done + tmp[..bit] + [tmp[bit]] == done + tmp[..bit + 1];
      cur' := cur' + 1;
    }
    assert tmp[..|tmp|] == tmp;
  }

  /** All the operands, from the least significant. Every position of the result is written once. */
  method PlaceAll(vs: seq<Bits>, repeat: nat, gap: nat) returns (bits: Bits, ghost times: seq<nat>)
    requires gap == TotalWidth(vs)
    ensures bits == Times(Body(vs), repeat)
    ensures |times| == |bits| && forall k | 0 <= k < |times| :: times[k] == 1
  {
    var val := new Bit[repeat * gap](_ => Vx);
    times := seq(repeat * gap, _ => 0);
    var cur := 0;
    var idx := |vs|;
    assert vs[|vs|..] == [];
    NothingPlaced(val[..], repeat, gap, Vx, Vx);
    NothingPlaced(times, repeat, gap, 1, 0);
    while idx > 0
      invariant 0 <= idx <= |vs| && cur == TotalWidth(vs[idx..]) && |times| == val.Length
      invariant Placed(val[..], repeat, gap, Body(vs[idx..]), 0, Vx, Vx) && WrittenOnce(times, repeat, gap, cur, 0)
    {
      BodyFromLast(vs, idx - 1);
      WidthOfRest(vs, idx - 1);
      cur, times := PlaceOperand(val, vs[idx - 1], repeat, gap, cur, Body(vs[idx..]), times);
      idx := idx - 1;
    }
    assert vs[0..] == vs;
    bits := val[..];
    PlacedIsTimes(bits, repeat, gap, Body(vs));
    forall k | 0 <= k < |times| ensures times[k] == 1 {
      var r, c := IndexCovers(k, gap, repeat);
    }
  }

  lemma NothingPlaced<T>(s: seq<T>, repeat: nat, gap: nat, b: T, blank: T)
    requires |s| == repeat * gap && forall i | 0 <= i < |s| :: s[i] == blank
    ensures Placed(s, repeat, gap, [], 0, b, blank)
  {
    forall r: nat, c: nat | r < repeat && c < gap ensures Index(r, c, gap) < |s| {
      IndexInRange(r, c, gap, repeat);
    }
  }

  predicate AllStrings(parms: seq<Parm>)
    requires AllConstant(parms)
  {
    forall i | 0 <= i < |parms| :: parms[i].value.isString
  }

  /** Strings are whole bytes. */
  predicate StringsAreBytes(parms: seq<Parm>)
    requires AllConstant(parms)
  {
    forall i | 0 <= i < |parms| :: parms[i].value.isString ==> |parms[i].value.bits| % 8 == 0
  }

  lemma {:induction false} BytesAddUp(vs: seq<Bits>, repeat: nat)
    requires forall i | 0 <= i < |vs| :: |vs[i]| % 8 == 0
    ensures TotalWidth(vs) % 8 == 0 && (repeat * TotalWidth(vs)) % 8 == 0
  {
    if vs != [] {
      BytesAddUp(vs[1..], 0);
    }
    CopiesOfBytes(TotalWidth(vs), repeat);
  }

  lemma {:induction false} CopiesOfBytes(n: nat, repeat: nat)
    requires n % 8 == 0
    ensures (repeat * n) % 8 == 0
  {
    if repeat > 0 {
      CopiesOfBytes(n, repeat - 1);
      assert repeat * n == (repeat - 1) * n + n;
      SumOfBytes((repeat - 1) * n, n);
    }
  }

  lemma SumOfBytes(m: nat, n: nat)
    requires m % 8 == 0 && n % 8 == 0
    ensures (m + n) % 8 == 0
  {
  }

  function Known01(v: Bits): (r: Bits)
    ensures |r| == |v| && Defined(r) && forall i | 0 <= i < |v| :: r[i] == if v[i] == V1 then V1 else V0
  {
    seq(|v|, i requires 0 <= i < |v| => if v[i] == V1 then V1 else V0)
  }

  lemma {:induction false} SameValue(v: Bits)
    ensures Value(Known01(v)) == Value(v)
  {
    if v != [] {
      SameValue(v[1..]);
      assert Known01(v)[1..] == Known01(v[1..]);
    }
  }

  lemma {:induction false} SameText(v: Bits)
    ensures AsString(Known01(v)) == AsString(v)
  {
    if |v| >= 8 {
      var n := |v| - 8;
      SameText(v[..n]);
      SameValue(v[n..]);
      assert Known01(v)[..n] == Known01(v[..n]) && Known01(v)[n..] == Known01(v[n..]);
    }
  }

  /** The bits of a string read back: unknown ones are 0, and no bytes are one of zeros. */
  function ReadBack(v: Bits): Bits {
    if v == [] then Repeat(V0, 8) else Known01(v)
  }

  /** Writing bits as a string and reading it back turns unknown bits into zeros. */
  lemma Stringized(v: Bits)
    requires |v| % 8 == 0
    ensures FromString(AsString(v)) == ReadBack(v)
  {
    SameText(v);
    StringRoundTrip(Known01(v));
  }

  /**
   * Folding a concatenation: None if an operand is not constant, or folds to something without a width.
   * The result is the copies of the operands, and a string again if every operand was one.
   */
  method EvalConcat(parms: seq<Parm>, repeat: nat, signed: bool) returns (res: Option<Verinum>)
    requires AllConstant(parms) ==> StringsAreBytes(parms)
    ensures res.Some? <==> AllConstant(parms) && AllUsable(parms)
    ensures res.Some? ==> var bits := Times(Body(Values(parms)), repeat);
                          res.value.bits == if AllStrings(parms) then ReadBack(bits) else bits
    ensures res.Some? ==> res.value.signed == signed && res.value.hasLen
    ensures res.Some? ==> (res.value.isString <==> AllStrings(parms))
  {
    var gap := 0;
    var localErrors := 0;
    for idx := 0 to |parms|
      invariant localErrors == 0 <==> AllUsable(parms[..idx])
      invariant AllConstant(parms) ==> gap + TotalWidth(Values(parms)[idx..]) == TotalWidth(Values(parms))
    {
      assert parms[..idx + 1] == parms[..idx] + [parms[idx]];
      if AllConstant(parms) {
        BodyFromLast(Values(parms), idx);
      }
      match parms[idx]
      case Constant(v) =>
        gap := gap + |v.bits|;
      case FoldsTo(v) =>
        if !v.hasLen {
          localErrors := localErrors + 1;
        } else if v.bits == [] {
          localErrors := localErrors + 1;
        }
        gap := gap + |v.bits|;
      case NotConstant =>
    }
    assert parms[..|parms|] == parms;
    if localErrors > 0 || !AllConstant(parms) {
      return None;
    }
    assert Values(parms)[|parms|..] == [];
    ghost var times;
    var bits;
    TimesLength(Body(Values(parms)), repeat);
    bits, times := PlaceAll(Values(parms), repeat, gap);
    BytesOfValues(parms, repeat);
    var val := Verinum(bits, false, true, false);
    if AllStrings(parms) {
      Stringized(bits);
      val := Verinum(FromString(AsString(bits)), false, true, true);
    }
    res := Some(val.(signed := signed));
  }

  lemma BytesOfValues(parms: seq<Parm>, repeat: nat)
    requires AllConstant(parms) && StringsAreBytes(parms)
    ensures AllStrings(parms) ==> (repeat * TotalWidth(Values(parms))) % 8 == 0
  {
    if AllStrings(parms) {
      BytesAddUp(Values(parms), repeat);
    }
  }

  // ----- synthesis -----

  predicate AreNets(parms: seq<nat>, nets: seq<Net>) {
    forall i | 0 <= i < |parms| :: parms[i] < |nets|
  }

  /** The operands as pins: the last operand first, those of no width left out. */
  function Pins(parms: seq<nat>, nets: seq<Net>): (pins: seq<nat>)
    requires AreNets(parms, nets)
    ensures AreNets(pins, nets)
  {
    if parms == [] then []
    else if nets[parms[0]].width == 0 then Pins(parms[1..], nets)
    else Pins(parms[1..], nets) + [parms[0]]
  }

  function NetWidths(parms: seq<nat>, nets: seq<Net>): nat
    requires AreNets(parms, nets)
  {
    if parms == [] then 0 else nets[parms[0]].width + NetWidths(parms[1..], nets)
  }

  lemma {:induction false} JoinedWidthAppend(a: seq<nat>, b: seq<nat>, nets: seq<Net>)
    requires AreNets(a, nets) && AreNets(b, nets)
    ensures JoinedWidth(a + b, nets) == JoinedWidth(a, nets) + JoinedWidth(b, nets)
  {
    if a == [] {
      assert a + b == b;
    } else {
      JoinedWidthAppend(a[1..], b, nets);
      assert (a + b)[1..] == a[1..] + b;
    }
  }

  lemma {:induction false} JoinAppend(a: seq<nat>, b: seq<nat>, val: seq<Bits>)
    requires (forall i | 0 <= i < |a| :: a[i] < |val|) && (forall i | 0 <= i < |b| :: b[i] < |val|)
    ensures Join(a + b, val) == Join(a, val) + Join(b, val)
  {
    if a == [] {
      assert a + b == b;
    } else {
      JoinAppend(a[1..], b, val);
      assert (a + b)[1..] == a[1..] + b;
    }
  }

  /** The vectors on the operands' nets. */
  function NetValues(parms: seq<nat>, val: seq<Bits>): (vs: seq<Bits>)
    requires forall i | 0 <= i < |parms| :: parms[i] < |val|
    ensures |vs| == |parms|
  {
    seq(|parms|, i requires 0 <= i < |parms| => val[parms[i]])
  }

  predicate SizedAs(nets: seq<Net>, val: seq<Bits>) {
    |val| == |nets| && forall i | 0 <= i < |nets| :: |val[i]| == nets[i].width
  }

  /** The pins of one copy carry one copy. */
  lemma {:induction false} PinsCarryBody(parms: seq<nat>, nets: seq<Net>, val: seq<Bits>)
    requires AreNets(parms, nets) && SizedAs(nets, val)
    ensures Join(Pins(parms, nets), val) == Body(NetValues(parms, val))
  {
    if parms != [] {
      PinsCarryBody(parms[1..], nets, val);
      assert NetValues(parms, val)[1..] == NetValues(parms[1..], val);
      if nets[parms[0]].width > 0 {
        JoinAppend(Pins(parms[1..], nets), [parms[0]], val);
        assert [parms[0]][1..] == [];
      }
    }
  }

  /** n copies of the pins. */
  function Copies(pins: seq<nat>, n: nat): seq<nat> {
    if n == 0 then [] else pins + Copies(pins, n - 1)
  }

  lemma {:induction false} CopiesAreNets(pins: seq<nat>, n: nat, bound: nat)
    requires forall i | 0 <= i < |pins| :: pins[i] < bound
    ensures forall i | 0 <= i < |Copies(pins, n)| :: Copies(pins, n)[i] < bound
  {
    if n > 0 {
      CopiesAreNets(pins, n - 1, bound);
    }
  }

  lemma {:induction false} CopiesCarryTimes(pins: seq<nat>, n: nat, val: seq<Bits>)
    requires forall i | 0 <= i < |pins| :: pins[i] < |val|
    ensures forall i | 0 <= i < |Copies(pins, n)| :: Copies(pins, n)[i] < |val|
    ensures Join(Copies(pins, n), val) == Times(Join(pins, val), n)
  {
    CopiesAreNets(pins, n, |val|);
    if n > 0 {
      CopiesCarryTimes(pins, n - 1, val);
      JoinAppend(pins, Copies(pins, n - 1), val);
    }
  }

  lemma {:induction false} CopyOneMore(pins: seq<nat>, n: nat)
    ensures Copies(pins, n) + pins == Copies(pins, n + 1)
  {
    if n > 0 {
      CopyOneMore(pins, n - 1);
      assert pins + Copies(pins, n - 1) + pins == pins + (Copies(pins, n - 1) + pins);
    } else {
      assert [] + pins == pins + [];
    }
  }

  /** The pins have the widths of the operands. */
  lemma {:induction false} PinsWidth(parms: seq<nat>, nets: seq<Net>)
    requires AreNets(parms, nets)
    ensures JoinedWidth(Pins(parms, nets), nets) == NetWidths(parms, nets)
  {
    if parms != [] {
      PinsWidth(parms[1..], nets);
      if nets[parms[0]].width > 0 {
        JoinedWidthAppend(Pins(parms[1..], nets), [parms[0]], nets);
        assert [parms[0]][1..] == [];
      }
    }
  }

  lemma {:induction false} CopiesWidth(pins: seq<nat>, n: nat, nets: seq<Net>)
    requires AreNets(pins, nets)
    ensures AreNets(Copies(pins, n), nets) && JoinedWidth(Copies(pins, n), nets) == n * JoinedWidth(pins, nets)
  {
    CopiesAreNets(pins, n, |nets|);
    if n > 0 {
      CopiesWidth(pins, n - 1, nets);
      JoinedWidthAppend(pins, Copies(pins, n - 1), nets);
      assert n * JoinedWidth(pins, nets) == JoinedWidth(pins, nets) + (n - 1) * JoinedWidth(pins, nets);
    }
  }

  /**
   * Connecting the operands to the pins of one concatenation node: the node carries what folding
   * computes. A total width other than the expression's is reported, and the node does not fit.
   */
  method SynthesizeConcat(des: Design, parms: seq<nat>, repeat: nat, exprWidth: nat) returns (osig: Option<nat>,
                          errors: nat)
    requires Built(des.nets) && AreNets(parms, des.nets)
    modifies des
    ensures old(des.nets) <= des.nets
    ensures osig.None? <==> exprWidth == 0
    ensures osig.Some? ==> osig.value < |des.nets|
    ensures osig.Some? ==>
              forall val | Consistent(des.nets, val) :: val[osig.value] == Times(Body(NetValues(parms, val)), repeat)
    ensures errors == if exprWidth == 0 || repeat * NetWidths(parms, old(des.nets)) == exprWidth then 0 else 1
    ensures errors == 0 ==> Built(des.nets)
    ensures osig.Some? && errors > 0 ==> forall val :: !Consistent(des.nets, val)
  {
    errors := 0;
    if exprWidth == 0 {
      return None, 0;
    }
    var pins, countInputWidth := ConnectPins(des, parms, repeat);
    PinsWidth(parms, des.nets);
    CopiesWidth(Pins(parms, des.nets), repeat, des.nets);
    ghost var before := des.nets;
    var id := des.AddNode(Concat(pins), exprWidth);
    if countInputWidth != exprWidth {
      errors := errors + 1;
    }
    osig := Some(id);
    ConcatNet(des.nets, parms, repeat, id, pins);
  }

  /** The pins in order, each copy from the last operand to the first; and their total width. */
  method ConnectPins(des: Design, parms: seq<nat>, repeat: nat) returns (pins: seq<nat>, countInputWidth: nat)
    requires AreNets(parms, des.nets)
    ensures pins == Copies(Pins(parms, des.nets), repeat) && AreNets(pins, des.nets)
    ensures countInputWidth == JoinedWidth(pins, des.nets)
  {
    pins := [];
    countInputWidth := 0;
    ghost var one := Pins(parms, des.nets);
    for rpt := 0 to repeat
      invariant pins == Copies(one, rpt) && AreNets(pins, des.nets) && countInputWidth == JoinedWidth(pins, des.nets)
    {
      ghost var start := pins;
      var idx := 0;
      assert parms[|parms|..] == [] && pins + [] == pins;
      while idx < |parms|
        invariant 0 <= idx <= |parms| && AreNets(pins, des.nets)
        invariant pins == start + Pins(parms[|parms| - idx..], des.nets)
        invariant countInputWidth == JoinedWidth(pins, des.nets)
      {
        var concatItem := |parms| - idx - 1;
        idx := idx + 1;
        NextPin(parms, concatItem, des.nets, start);
        if des.nets[parms[concatItem]].width == 0 {
          continue;
        }
        JoinedWidthAppend(pins, [parms[concatItem]], des.nets);
        assert [parms[concatItem]][1..] == [];
        pins := pins + [parms[concatItem]];
        countInputWidth := countInputWidth + des.nets[parms[concatItem]].width;
      }
      assert parms[0..] == parms;
      CopyOneMore(one, rpt);
    }
  }

  lemma NextPin(parms: seq<nat>, i: nat, nets: seq<Net>, start: seq<nat>)
    requires AreNets(parms, nets) && i < |parms|
    ensures start + Pins(parms[i..], nets)
         == start + Pins(parms[i + 1..], nets) + if nets[parms[i]].width == 0 then [] else [parms[i]]
  {
    assert parms[i..][1..] == parms[i + 1..];
  }

  /** What the concatenation of the copies carries; no vectors agree if its width is wrong. */
  lemma ConcatNet(nets: seq<Net>, parms: seq<nat>, repeat: nat, id: nat, pins: seq<nat>)
    requires 0 < |nets| && id == |nets| - 1 && AreNets(parms, nets[..id]) && AreNets(pins, nets[..id])
    requires pins == Copies(Pins(parms, nets[..id]), repeat) && nets[id].driver == Concat(pins)
    ensures forall val | Consistent(nets, val) ::
              && JoinedWidth(pins, nets[..id]) == nets[id].width
              && val[id] == Times(Body(NetValues(parms, val)), repeat)
  {
    forall val | Consistent(nets, val)
      ensures JoinedWidth(pins, nets[..id]) == nets[id].width && val[id] == Times(Body(NetValues(parms, val)), repeat)
    {
      ConcatValue(nets, val, id);
      ConsistentPrefix(nets, val, id);
      JoinLength(pins, nets[..id], val[..id]);
      CopiesCarryTimes(Pins(parms, nets[..id]), repeat, val[..id]);
      PinsCarryBody(parms, nets[..id], val[..id]);
      assert NetValues(parms, val) == NetValues(parms, val[..id]);
    }
  }

  // ----- strings -----

  type Byte = b: nat | b < 256

  const BACKSLASH: Byte := 92
  const QUOTE: Byte := 34

  predicate Printable(b: Byte) {
    32 <= b <= 126
  }

  /** How a byte is written: a quote, a backslash or a byte that does not print as three octal digits. */
  function Encode(b: Byte): seq<Byte> {
    if b == QUOTE || b == BACKSLASH || !Printable(b) then [BACKSLASH, 48 + b / 64, 48 + b / 8 % 8, 48 + b % 8]
    else [b]
  }

  /** The text of whole bytes, the most significant first. Unknown bits read as 0. */
  function AsString(v: Bits): seq<Byte> {
    if |v| < 8 then []
    else
      var n := |v| - 8;
      ValueBound(v[n..]);
      ByteRange(Value(v[n..]));
      Encode(Value(v[n..])) + AsString(v[..n])
  }

  lemma ByteRange(n: nat)
    ensures n < Pow2(8) <==> n < 256
  {
    assert Pow2(8) == 256;
  }

  predicate OctalDigit(b: Byte) {
    48 <= b <= 55
  }

  /** The value of up to k leading octal digits, on top of what came before; and what follows them. */
  function Octal(s: seq<Byte>, k: nat, before: Byte): (Byte, seq<Byte>) {
    if k == 0 || s == [] || !OctalDigit(s[0]) then (before, s)
    else Octal(s[1..], k - 1, (8 * before + s[0] - 48) % 256)
  }

  /** The bytes a text stands for; None if it ends in a lone backslash. */
  function Decode(s: seq<Byte>): Option<seq<Byte>>
    decreases |s|
  {
    if s == [] then Some([])
    else if s[0] != BACKSLASH then Prepend(s[0], Decode(s[1..]))
    else if |s| == 1 then None
    else if s[1] == 110 then Prepend(10, Decode(s[2..]))
    else if s[1] == 116 then Prepend(9, Decode(s[2..]))
    else if OctalDigit(s[1]) then
      var (b, rest) := Octal(s[1..], 3, 0);
      OctalShrinks(s[1..], 3, 0);
      Prepend(b, Decode(rest))
    else Prepend(s[1], Decode(s[2..]))
  }

  lemma {:induction false} OctalShrinks(s: seq<Byte>, k: nat, before: Byte)
    ensures |Octal(s, k, before).1| <= |s|
  {
    if k > 0 && s != [] && OctalDigit(s[0]) {
      OctalShrinks(s[1..], k - 1, (8 * before + s[0] - 48) % 256);
    }
  }

  function Prepend(b: Byte, o: Option<seq<Byte>>): Option<seq<Byte>> {
    match o case Some(s) => Some([b] + s) case None => None
  }

  /** The bits of bytes, the first most significant. */
  function Pack(chars: seq<Byte>): Bits {
    if chars == [] then [] else Pack(chars[1..]) + FromNat(chars[0], 8)
  }

  /** The number a string literal stands for. The empty string is one zero byte. */
  function FromString(s: seq<Byte>): Bits {
    match Decode(s)
    case None => []
    case Some(chars) => if chars == [] then Repeat(V0, 8) else Pack(chars)
  }

  /** What a byte is written as reads back as the byte, whatever follows. */
  lemma EncodeRoundTrip(b: Byte, rest: seq<Byte>)
    ensures Decode(Encode(b) + rest) == Prepend(b, Decode(rest))
  {
    var s := Encode(b) + rest;
    if Encode(b) == [b] {
      assert s[1..] == rest;
    } else {
      var (x, y, z) := (b / 64, b / 8 % 8, b % 8);
      OctalDigits(b);
      ReadThree(x, y, z, rest);
      assert s[1..] == [48 + x, 48 + y, 48 + z] + rest;
    }
  }

  lemma OctalDigits(b: Byte)
    ensures b / 64 < 4 && 64 * (b / 64) + 8 * (b / 8 % 8) + b % 8 == b
  {
  }

  lemma ReadThree(x: nat, y: nat, z: nat, rest: seq<Byte>)
    requires x < 4 && y < 8 && z < 8
    ensures Octal([48 + x, 48 + y, 48 + z] + rest, 3, 0) == (64 * x + 8 * y + z, rest)
  {
    var after := [48 + y, 48 + z] + rest;
    assert [48 + x, 48 + y, 48 + z] + rest == [48 + x] + after;
    ReadOne(48 + x, after, 3, 0, x);
    ReadTwo(x, y, z, rest);
  }

  lemma ReadTwo(x: nat, y: nat, z: nat, rest: seq<Byte>)
    requires x < 4 && y < 8 && z < 8
    ensures Octal([48 + y, 48 + z] + rest, 2, x) == (64 * x + 8 * y + z, rest)
  {
    var after := [48 + z] + rest;
    assert [48 + y, 48 + z] + rest == [48 + y] + after;
    ReadOne(48 + y, after, 2, x, 8 * x + y);
    ReadOne(48 + z, rest, 1, 8 * x + y, 64 * x + 8 * y + z);
  }

  lemma ReadOne(d: Byte, rest: seq<Byte>, k: nat, before: Byte, after: Byte)
    requires k > 0 && OctalDigit(d) && after == 8 * before + d - 48
    ensures Octal([d] + rest, k, before) == Octal(rest, k - 1, after)
  {
    assert ([d] + rest)[1..] == rest;
  }

  /** Writing whole bytes as a string and reading it back gives the same bits. */
  lemma {:induction false} StringRoundTrip(v: Bits)
    requires Defined(v) && |v| % 8 == 0
    ensures Decode(AsString(v)).Some? && Pack(Decode(AsString(v)).value) == v
    ensures FromString(AsString(v)) == if v == [] then Repeat(V0, 8) else v
  {
    if v != [] {
      var n := |v| - 8;
      DefinedParts(v, n);
      StringRoundTrip(v[..n]);
      NextByte(v, AsString(v[..n]), v[..n]);
    }
  }

  lemma NextByte(v: Bits, text: seq<Byte>, rest: Bits)
    requires Defined(v) && |v| >= 8 && rest == v[..|v| - 8] && text == AsString(rest)
    requires Decode(text).Some? && Pack(Decode(text).value) == rest
    ensures Decode(AsString(v)).Some? && Pack(Decode(AsString(v)).value) == v
    ensures FromString(AsString(v)) == v
  {
    var b := HighByte(v);
    EncodeRoundTrip(b, text);
    assert AsString(v) == Encode(b) + text;
    PackNext(b, Decode(text).value);
    assert v == rest + v[|v| - 8..];
  }

  lemma PackNext(b: Byte, rest: seq<Byte>)
    ensures Pack([b] + rest) == Pack(rest) + FromNat(b, 8)
  {
    assert ([b] + rest)[1..] == rest;
  }

  /** The byte that the highest 8 bits make. */
  lemma HighByte(v: Bits) returns (b: Byte)
    requires Defined(v) && |v| >= 8
    ensures b == Value(v[|v| - 8..]) && FromNat(b, 8) == v[|v| - 8..]
  {
    var high := v[|v| - 8..];
    DefinedParts(v, |v| - 8);
    ValueBound(high);
    ByteRange(Value(high));
    b := Value(high);
    FromNatValue(b, 8);
    ValueInjective(FromNat(b, 8), high);
  }
}
