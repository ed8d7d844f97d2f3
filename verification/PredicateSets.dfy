/**
 * The predicate analysis as it runs: predicates are objects whose sets of hypotheses are changed
 * in place, and statements pass them on by reference.
 */
module PredicateSets {
  import opened Prelude
  import opened PExpr
  import opened ExprText
  import opened Statement
  import opened AbsInterp

  /** Hands out hypothesis objects, each at the address the allocator chooses. */
  class Heap {
    const address: nat -> nat
    var count: nat

    constructor (address: nat -> nat)
      ensures this.address == address && count == 0
    {
      this.address := address;
      count := 0;
    }

    method New(e: Expr) returns (h: Hypothesis)
      modifies this
      ensures h == Hypothesis(address(old(count)), e) && count == old(count) + 1
    {
      h := Hypothesis(address(count), e);
      count := count + 1;
    }
  }

  predicate AddressOrdered(H: seq<Hypothesis>) {
    forall i, j | 0 <= i < j < |H| :: H[i].addr < H[j].addr
  }

  lemma {:induction false} InsertKeepsOrder(H: seq<Hypothesis>, h: Hypothesis)
    requires AddressOrdered(H)
    ensures AddressOrdered(Insert(H, h))
  {
    if H != [] && H[0].addr < h.addr {
      InsertKeepsOrder(H[1..], h);
      InsertAdds(H[1..], h);
      var T := Insert(H[1..], h);
      forall j | 0 <= j < |T| ensures H[0].addr < T[j].addr {
        assert T[j] in T;
      }
    }
  }

  lemma {:induction false} InsertAt(H: seq<Hypothesis>, h: Hypothesis, i: nat)
    requires i <= |H|
    requires forall j | 0 <= j < i :: H[j].addr < h.addr
    ensures Insert(H, h) == H[..i] + Insert(H[i..], h)
  {
    if i > 0 {
      InsertAt(H[1..], h, i - 1);
      assert H[1..][..i - 1] == H[1..i] && H[1..][i - 1..] == H[i..];
      assert H[..i] == [H[0]] + H[1..i];
    } else {
      assert H[i..] == H;
    }
  }

  lemma {:induction false} InvalidatedKeepsOrder(H: seq<Hypothesis>, x: Name)
    requires AddressOrdered(H)
    ensures AddressOrdered(Invalidated(H, x))
  {
    if H != [] {
      InvalidatedKeepsOrder(H[1..], x);
      InvalidatedExactly(H[1..], x);
      var T := Invalidated(H[1..], x);
      forall j | 0 <= j < |T| ensures H[0].addr < T[j].addr {
        assert T[j] in T;
      }
    }
  }

  class Predicate {
    var hypotheses: seq<Hypothesis>

    constructor (H: seq<Hypothesis>)
      ensures hypotheses == H
    {
      hypotheses := H;
    }

    /** Erase every hypothesis that mentions the name. */
    method Invalidate(name: Name)
      modifies this
      ensures hypotheses == Invalidated(old(hypotheses), name)
    {
      var i := 0;
      assert hypotheses[..0] + Invalidated(hypotheses[0..], name) == Invalidated(hypotheses, name);
      while i < |hypotheses|
        invariant i <= |hypotheses|
        invariant hypotheses[..i] + Invalidated(hypotheses[i..], name) == Invalidated(old(hypotheses), name)
        decreases |hypotheses| - i
      {
        if Contains(hypotheses[i].bexpr, name) {
          var rest := hypotheses[i + 1..];
          assert hypotheses[i..][1..] == rest;
          hypotheses := hypotheses[..i] + rest;
          assert hypotheses[i..] == rest;
        } else {
          assert hypotheses[i..][1..] == hypotheses[i + 1..];
          i := i + 1;
        }
      }
    }

    /** Insert a hypothesis at its address's place. */
    method Add(h: Hypothesis)
      modifies this
      ensures hypotheses == Insert(old(hypotheses), h)
    {
      var i := 0;
      while i < |hypotheses| && hypotheses[i].addr < h.addr
        invariant i <= |hypotheses|
        invariant forall j | 0 <= j < i :: hypotheses[j].addr < h.addr
      {
        i := i + 1;
      }
      InsertAt(hypotheses, h, i);
      if i == |hypotheses| || hypotheses[i].addr != h.addr {
        hypotheses := hypotheses[..i] + [h] + hypotheses[i..];
      }
    }
  }

  /** The effect of an assignment: kill, then generate. */
  method AbsintpAssign(C: Context, heap: Heap, lval: Name, rval: Expr, pred: Predicate)
    modifies heap, pred
    ensures Facts(heap.count, pred.hypotheses)
            == AbsInterp.Add(heap.address,
                             Facts(old(heap.count), Invalidated(old(pred.hypotheses), lval)),
                             AssignFact(C, lval, rval))
  {
    pred.Invalidate(lval);
    if rval.Number? || IsTracked(C, rval) {
      if lval in C.tracked {
        var h := heap.New(Binary(Eq, Ident(lval), rval));
        pred.Add(h);
      }
    }
  }

  /** The effect of entering a branch. */
  method AbsintpBranch(C: Context, heap: Heap, s: Stmt, istrue: bool, pred: Predicate)
    requires s.If?
    modifies heap, pred
    ensures Facts(heap.count, pred.hypotheses)
            == AbsInterp.Add(heap.address, Facts(old(heap.count), old(pred.hypotheses)), BranchFact(C, s, istrue))
  {
    WellformedExactlyWhenWeakened(s.cond, C.tracked);
    if istrue && s.ifTrue != Absent {
      if IsWellformed(s.cond, C.tracked) {
        var h := heap.New(ToWellformed(s.cond, C.tracked).value);
        pred.Add(h);
      }
    } else if s.ifFalse != Absent {
      if IsNegWellformed(s.cond, C.tracked) {
        var h := heap.New(Unary(Nor, NegToWellformed(s.cond, C.tracked).value));
        pred.Add(h);
      }
    }
  }

  lemma InsertLast(H: seq<Hypothesis>, h: Hypothesis)
    requires forall j | 0 <= j < |H| :: H[j].addr < h.addr
    ensures Insert(H, h) == H + [h]
  {
    InsertAt(H, h, |H|);
    assert H[..|H|] == H && Insert(H[|H|..], h) == [h];
  }

  /** The intersection from two positions on. */
  function RestFrom(a: seq<Hypothesis>, b: seq<Hypothesis>, i: nat, j: nat): seq<Hypothesis>
    requires i <= |a| && j <= |b|
  {
    Intersection(a[i..], b[j..], Text)
  }

  lemma RestStep(a: seq<Hypothesis>, b: seq<Hypothesis>, i: nat, j: nat)
    requires i < |a| && j < |b|
    ensures RestFrom(a, b, i, j)
         == if Less(Text(a[i]), Text(b[j])) then RestFrom(a, b, i + 1, j)
            else if Less(Text(b[j]), Text(a[i])) then RestFrom(a, b, i, j + 1)
            else [a[i]] + RestFrom(a, b, i + 1, j + 1)
  {
    assert a[i..][1..] == a[i + 1..] && b[j..][1..] == b[j + 1..];
  }

  /** Something both have goes from the rest to what is kept. */
  lemma KeepNext(H: seq<Hypothesis>, h: Hypothesis, rest: seq<Hypothesis>, all: seq<Hypothesis>)
    requires H + ([h] + rest) == all && forall j | 0 <= j < |H| :: H[j].addr < h.addr
    ensures Insert(H, h) == H + [h] && Insert(H, h) + rest == all
  {
    InsertLast(H, h);
  }

  /** The merge point: what the first set has and the second has too, by text. */
  method Merge(pred1: Predicate, pred2: Predicate, ret: Predicate)
    requires ret != pred1 && ret != pred2
    requires AddressOrdered(pred1.hypotheses) && ret.hypotheses == []
    modifies ret
    ensures ret.hypotheses == Merged(pred1.hypotheses, pred2.hypotheses)
    ensures AddressOrdered(ret.hypotheses)
  {
    var a, b := pred1.hypotheses, pred2.hypotheses;
    var i, j := 0, 0;
    assert a[0..] == a && b[0..] == b;
    while i < |a| && j < |b|
      invariant i <= |a| && j <= |b|
      invariant ret.hypotheses + RestFrom(a, b, i, j) == Merged(a, b)
      invariant AddressOrdered(ret.hypotheses)
      invariant forall m, n | 0 <= m < |ret.hypotheses| && i <= n < |a| :: ret.hypotheses[m].addr < a[n].addr
      decreases |a| - i + |b| - j
    {
      RestStep(a, b, i, j);
      if Less(Text(a[i]), Text(b[j])) {
        i := i + 1;
      } else if Less(Text(b[j]), Text(a[i])) {
        j := j + 1;
      } else {
        KeepNext(ret.hypotheses, a[i], RestFrom(a, b, i + 1, j + 1), Merged(a, b));
        ret.Add(a[i]);
        i, j := i + 1, j + 1;
      }
    }
  }

  /** Walk a statement with the facts known before it, leaving in pred those known after it. */
  method Typecheck(C: Context, heap: Heap, s: Stmt, pred: Predicate)
    requires AddressOrdered(pred.hypotheses)
    modifies heap, pred
    ensures AddressOrdered(pred.hypotheses)
    ensures Facts(heap.count, pred.hypotheses)
            == Analyze(C, heap.address, s, Facts(old(heap.count), old(pred.hypotheses)))
    decreases s, 2
  {
    match s
    case Absent =>
    case AssignNB(x, e) =>
    case Assign(x, e) =>
      InvalidatedKeepsOrder(pred.hypotheses, x);
      ghost var K := Invalidated(pred.hypotheses, x);
      if AssignFact(C, x, e).Some? {
        InsertKeepsOrder(K, Hypothesis(heap.address(heap.count), AssignFact(C, x, e).value));
      }
      AbsintpAssign(C, heap, x, e, pred);
    case Block(ss) =>
      for i := 0 to |ss|
        invariant AddressOrdered(pred.hypotheses)
        invariant AnalyzeAll(C, heap.address, ss[i..], Facts(heap.count, pred.hypotheses))
                  == old(AnalyzeAll(C, heap.address, ss, Facts(heap.count, pred.hypotheses)))
      {
        assert ss[i..][1..] == ss[i + 1..];
        Typecheck(C, heap, ss[i], pred);
      }
    case If(c, t, f) => TypecheckBranch(C, heap, s, pred);
    case Case(e, items) =>
      for i := 0 to |items|
        invariant AddressOrdered(pred.hypotheses)
        invariant AnalyzeItems(C, heap.address, e, items[i..], Facts(heap.count, pred.hypotheses))
                  == old(AnalyzeItems(C, heap.address, e, items, Facts(heap.count, pred.hypotheses)))
      {
        assert items[i..][1..] == items[i + 1..];
        AddLabels(C, heap, e, items[i].labels, pred);
        Typecheck(C, heap, items[i].body, pred);
      }
  }

  method AddLabels(C: Context, heap: Heap, e: Expr, labels: seq<Expr>, pred: Predicate)
    requires AddressOrdered(pred.hypotheses)
    modifies heap, pred
    ensures AddressOrdered(pred.hypotheses)
    ensures Facts(heap.count, pred.hypotheses)
            == LabelFacts(C, heap.address, e, labels, Facts(old(heap.count), old(pred.hypotheses)))
  {
    if IsTracked(C, e) {
      for i := 0 to |labels|
        invariant AddressOrdered(pred.hypotheses)
        invariant LabelFacts(C, heap.address, e, labels[i..], Facts(heap.count, pred.hypotheses))
                  == old(LabelFacts(C, heap.address, e, labels, Facts(heap.count, pred.hypotheses)))
      {
        ghost var F := Facts(heap.count, pred.hypotheses);
        LabelStep(C, heap.address, e, labels, i, F);
        var h := heap.New(Binary(Eq, e, labels[i]));
        InsertKeepsOrder(pred.hypotheses, h);
        pred.Add(h);
        assert Facts(heap.count, pred.hypotheses) == AbsInterp.Add(heap.address, F, Some(h.bexpr));
      }
    }
  }

  lemma LabelStep(C: Context, alloc: nat -> nat, e: Expr, labels: seq<Expr>, i: nat, F: Facts)
    requires IsTracked(C, e) && i < |labels|
    ensures LabelFacts(C, alloc, e, labels[i..], F)
         == LabelFacts(C, alloc, e, labels[i + 1..], AbsInterp.Add(alloc, F, Some(Binary(Eq, e, labels[i]))))
  {
    assert labels[i..][1..] == labels[i + 1..];
  }

  method TypecheckBranch(C: Context, heap: Heap, s: Stmt, pred: Predicate)
    requires s.If? && AddressOrdered(pred.hypotheses)
    modifies heap, pred
    ensures AddressOrdered(pred.hypotheses)
    ensures Facts(heap.count, pred.hypotheses)
            == Analyze(C, heap.address, s, Facts(old(heap.count), old(pred.hypotheses)))
    decreases s, 1
  {
    var beforeif := pred.hypotheses;
    TypecheckArm(C, heap, s, true, pred);
    var afterif := new Predicate(pred.hypotheses);
    pred.hypotheses := beforeif;
    TypecheckArm(C, heap, s, false, pred);
    var afterelse := new Predicate(pred.hypotheses);
    pred.hypotheses := [];
    Merge(afterif, afterelse, pred);
  }

  /** One arm of a branch, unless it is absent. */
  method TypecheckArm(C: Context, heap: Heap, s: Stmt, istrue: bool, pred: Predicate)
    requires s.If? && AddressOrdered(pred.hypotheses)
    modifies heap, pred
    ensures AddressOrdered(pred.hypotheses)
    ensures var F := Facts(old(heap.count), old(pred.hypotheses));
            Facts(heap.count, pred.hypotheses)
            == if istrue then AfterTrue(C, heap.address, s, F) else AfterFalse(C, heap.address, s, F)
    decreases s, 0
  {
    var arm := if istrue then s.ifTrue else s.ifFalse;
    if arm != Absent {
      BranchKeepsOrder(C, heap, s, istrue, pred.hypotheses);
      AbsintpBranch(C, heap, s, istrue, pred);
      Typecheck(C, heap, arm, pred);
    }
  }

  lemma BranchKeepsOrder(C: Context, heap: Heap, s: Stmt, istrue: bool, H: seq<Hypothesis>)
    requires s.If? && AddressOrdered(H)
    ensures forall n :: AddressOrdered(AbsInterp.Add(heap.address, Facts(n, H), BranchFact(C, s, istrue)).hyps)
  {
    forall n: nat
      ensures AddressOrdered(AbsInterp.Add(heap.address, Facts(n, H), BranchFact(C, s, istrue)).hyps)
    {
      if BranchFact(C, s, istrue).Some? {
        InsertKeepsOrder(H, Hypothesis(heap.address(n), BranchFact(C, s, istrue).value));
      }
    }
  }
}
