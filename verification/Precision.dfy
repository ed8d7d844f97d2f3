/**
 * What the analysis and the label checks do not lose: a fact stays until a name in it is assigned, and
 * an assignment that may flow is accepted.
 */
module Precision {
  import opened Prelude
  import opened PExpr
  import opened ExprText
  import opened Statement
  import opened AbsInterp
  import opened CaseFacts
  import opened SecTypes
  import opened Typecheck

  // ----- facts that stay -----

  /** Nothing in the statement generates a fact: no assignment, no condition and no label. */
  predicate Unread(C: Context, s: Stmt)
    decreases s, 0
  {
    match s
    case Assign(x, e) => AssignFact(C, x, e).None?
    case Block(ss) => UnreadAll(C, ss)
    case If(c, t, f) =>
      && (t != Absent ==> BranchFact(C, s, true).None?) && (f != Absent ==> BranchFact(C, s, false).None?)
      && Unread(C, t) && Unread(C, f)
    case Case(e, items) => NoLabelFacts(C, e, items) && UnreadItems(C, items)
    case _ => true
  }

  predicate UnreadAll(C: Context, ss: seq<Stmt>)
    decreases ss, 0
  {
    ss == [] || (Unread(C, ss[0]) && UnreadAll(C, ss[1..]))
  }

  predicate UnreadItems(C: Context, items: seq<CaseItem>)
    decreases items, 0
  {
    items == [] || (Unread(C, items[0].body) && UnreadItems(C, items[1..]))
  }

  /** The statement assigns a name that the fact mentions. */
  ghost predicate Touches(s: Stmt, h: Hypothesis) {
    exists x :: Assigns(s, x) && Contains(h.bexpr, x)
  }

  ghost predicate TouchesAny(ss: seq<Stmt>, h: Hypothesis) {
    exists x :: AssignsAny(ss, x) && Contains(h.bexpr, x)
  }

  ghost predicate TouchesInItems(items: seq<CaseItem>, h: Hypothesis) {
    exists x :: AssignsInItems(items, x) && Contains(h.bexpr, x)
  }

  lemma TouchesArms(s: Stmt, h: Hypothesis)
    requires s.If?
    ensures Touches(s, h) <==> Touches(s.ifTrue, h) || Touches(s.ifFalse, h)
  {
    if Touches(s.ifTrue, h) { var x :| Assigns(s.ifTrue, x) && Contains(h.bexpr, x); assert Assigns(s, x); }
    if Touches(s.ifFalse, h) { var x :| Assigns(s.ifFalse, x) && Contains(h.bexpr, x); assert Assigns(s, x); }
  }

  lemma TouchesSplit(ss: seq<Stmt>, items: seq<CaseItem>, h: Hypothesis)
    ensures ss != [] ==> (TouchesAny(ss, h) <==> Touches(ss[0], h) || TouchesAny(ss[1..], h))
    ensures items != [] ==>
              (TouchesInItems(items, h) <==> Touches(items[0].body, h) || TouchesInItems(items[1..], h))
    ensures !TouchesAny([], h) && !TouchesInItems([], h)
  {
    if ss != [] && Touches(ss[0], h) { var x :| Assigns(ss[0], x) && Contains(h.bexpr, x); assert AssignsAny(ss, x); }
    if ss != [] && TouchesAny(ss[1..], h) {
      var x :| AssignsAny(ss[1..], x) && Contains(h.bexpr, x);
      assert AssignsAny(ss, x);
    }
    if items != [] && Touches(items[0].body, h) {
      var x :| Assigns(items[0].body, x) && Contains(h.bexpr, x);
      assert AssignsInItems(items, x);
    }
    if items != [] && TouchesInItems(items[1..], h) {
      var x :| AssignsInItems(items[1..], x) && Contains(h.bexpr, x);
      assert AssignsInItems(items, x);
    }
  }

  lemma {:induction false} InvalidatedSorted(H: seq<Hypothesis>, x: Name)
    requires Sorted(H, Text)
    ensures Sorted(Invalidated(H, x), Text)
  {
    if H != [] {
      InvalidatedSorted(H[1..], x);
      InvalidatedExactly(H[1..], x);
      HeadIsLess(H, Invalidated(H[1..], x));
    }
  }

  lemma {:induction false} IntersectionSorted(H: seq<Hypothesis>, G: seq<Hypothesis>)
    requires Sorted(H, Text)
    ensures Sorted(Merged(H, G), Text)
    decreases |H| + |G|
  {
    IntersectionInBoth(H, G, Text);
    if H != [] && G != [] {
      IntersectionInBoth(H[1..], G[1..], Text);
      IntersectionSorted(H[1..], G);
      IntersectionSorted(H, G[1..]);
      IntersectionSorted(H[1..], G[1..]);
      HeadIsLess(H, Intersection(H[1..], G[1..], Text));
    }
  }

  lemma HeadIsLess(H: seq<Hypothesis>, K: seq<Hypothesis>)
    requires H != [] && Sorted(H, Text) && forall h <- K :: h in H[1..]
    ensures forall j | 0 <= j < |K| :: Less(Text(H[0]), Text(K[j]))
  {
    forall j | 0 <= j < |K| ensures Less(Text(H[0]), Text(K[j])) {
      assert K[j] in H[1..];
      var i :| 0 <= i < |H| - 1 && H[1..][i] == K[j];
      assert H[i + 1] == K[j];
    }
  }

  /** In a sorted set no two facts have one text. */
  lemma OneText(H: seq<Hypothesis>, g: Hypothesis, h: Hypothesis)
    requires Sorted(H, Text) && g in H && h in H && Text(g) == Text(h)
    ensures g == h
  {
    var i :| 0 <= i < |H| && H[i] == g;
    var j :| 0 <= j < |H| && H[j] == h;
    LessIrreflexive(Text(g));
  }

  /** The facts of K are those of H that the statement does not touch. */
  ghost predicate LeftBy(s: Stmt, H: seq<Hypothesis>, K: seq<Hypothesis>) {
    Sorted(K, Text) && forall h :: h in K <==> h in H && !Touches(s, h)
  }

  lemma MergeLeaves(s: Stmt, H: seq<Hypothesis>, T: seq<Hypothesis>, E: seq<Hypothesis>)
    requires s.If? && Sorted(H, Text) && LeftBy(s.ifTrue, H, T) && LeftBy(s.ifFalse, H, E)
    ensures LeftBy(s, H, Merged(T, E))
  {
    IntersectionOfSortedIsExact(T, E, Text);
    IntersectionSorted(T, E);
    forall h ensures h in Merged(T, E) <==> h in H && !Touches(s, h) {
      TouchesArms(s, h);
      if h in T && HasKey(E, Text(h), Text) {
        var i :| 0 <= i < |E| && Text(E[i]) == Text(h);
        assert E[i] in E;
        OneText(H, E[i], h);
      }
      if h in E {
        var i :| 0 <= i < |E| && E[i] == h;
      }
    }
  }

  /**
   * Where nothing generates facts, and facts are in the order of their texts, a statement takes away
   * exactly those that mention a name it assigns, on whichever path.
   */
  lemma {:induction false} TakesAwayExactly(C: Context, alloc: nat -> nat, s: Stmt, F: Facts)
    requires Unread(C, s) && Sorted(F.hyps, Text)
    ensures Analyze(C, alloc, s, F).count == F.count && LeftBy(s, F.hyps, Analyze(C, alloc, s, F).hyps)
    decreases s, 0
  {
    match s
    case Absent =>
    case Assign(x, e) =>
      InvalidatedExactly(F.hyps, x);
      InvalidatedSorted(F.hyps, x);
      forall h ensures Touches(s, h) <==> Contains(h.bexpr, x) {
        assert Assigns(s, x);
      }
    case AssignNB(x, e) =>
    case Block(ss) =>
      TakesAwayAll(C, alloc, ss, F);
      assert forall h :: Touches(s, h) <==> TouchesAny(ss, h);
    case If(c, t, f) =>
      TakesAwayExactly(C, alloc, t, F);
      TakesAwayExactly(C, alloc, f, F);
      var T, E := AfterTrue(C, alloc, s, F), AfterFalse(C, alloc, s, F);
      assert T.count == F.count && LeftBy(t, F.hyps, T.hyps);
      assert E.count == F.count && LeftBy(f, F.hyps, E.hyps);
      MergeLeaves(s, F.hyps, T.hyps, E.hyps);
    case Case(e, items) =>
      TakesAwayItems(C, alloc, e, items, F);
      assert forall h :: Touches(s, h) <==> TouchesInItems(items, h);
  }

  lemma {:induction false} TakesAwayAll(C: Context, alloc: nat -> nat, ss: seq<Stmt>, F: Facts)
    requires UnreadAll(C, ss) && Sorted(F.hyps, Text)
    ensures AnalyzeAll(C, alloc, ss, F).count == F.count && Sorted(AnalyzeAll(C, alloc, ss, F).hyps, Text)
    ensures forall h :: h in AnalyzeAll(C, alloc, ss, F).hyps <==> h in F.hyps && !TouchesAny(ss, h)
    decreases ss, 0
  {
    if ss != [] {
      TakesAwayExactly(C, alloc, ss[0], F);
      TakesAwayAll(C, alloc, ss[1..], Analyze(C, alloc, ss[0], F));
    }
    forall h ensures h in AnalyzeAll(C, alloc, ss, F).hyps <==> h in F.hyps && !TouchesAny(ss, h) {
      TouchesSplit(ss, [], h);
    }
  }

  lemma {:induction false} TakesAwayItems(C: Context, alloc: nat -> nat, e: Expr, items: seq<CaseItem>, F: Facts)
    requires NoLabelFacts(C, e, items) && UnreadItems(C, items) && Sorted(F.hyps, Text)
    ensures AnalyzeItems(C, alloc, e, items, F).count == F.count
    ensures Sorted(AnalyzeItems(C, alloc, e, items, F).hyps, Text)
    ensures forall h :: h in AnalyzeItems(C, alloc, e, items, F).hyps <==> h in F.hyps && !TouchesInItems(items, h)
    decreases items, 0
  {
    if items != [] {
      LabelFactsNone(C, alloc, e, items[0].labels, F);
      TakesAwayExactly(C, alloc, items[0].body, F);
      TakesAwayItems(C, alloc, e, items[1..], Analyze(C, alloc, items[0].body, F));
    }
    forall h ensures h in AnalyzeItems(C, alloc, e, items, F).hyps <==> h in F.hyps && !TouchesInItems(items, h) {
      TouchesSplit([], items, h);
    }
  }

  /** The labels of an item leave a fact each, next to those before, and no others. */
  lemma {:induction false} LabelsLeaveExactly(C: Context, alloc: nat -> nat, x: Name, labels: seq<Expr>, F: Facts)
    requires x in C.tracked && DistinctAddresses(alloc) && Allocated(alloc, F)
    ensures forall h :: h in LabelFacts(C, alloc, Ident(x), labels, F).hyps
                        <==> h in F.hyps || IsLabelFact(alloc, x, labels, F.count, h)
    decreases |labels|
  {
    if labels != [] {
      var fact := Binary(Eq, Ident(x), labels[0]);
      var (first, G) := (Hypothesis(alloc(F.count), fact), Add(alloc, F, Some(fact)));
      assert IsTracked(C, Ident(x));
      AddHas(alloc, F, fact);
      InsertAdds(F.hyps, first);
      InsertKeeps(F.hyps, first);
      LabelsLeaveExactly(C, alloc, x, labels[1..], G);
      forall h ensures IsLabelFact(alloc, x, labels, F.count, h)
                       <==> h == first || IsLabelFact(alloc, x, labels[1..], F.count + 1, h)
      {
        LabelFactSplit(alloc, x, labels, F.count, h);
      }
    }
  }

  /** The fact of one of the labels, at the address it is given. */
  ghost predicate IsLabelFact(alloc: nat -> nat, x: Name, labels: seq<Expr>, count: nat, h: Hypothesis) {
    exists j | 0 <= j < |labels| :: h == Hypothesis(alloc(count + j), Binary(Eq, Ident(x), labels[j]))
  }

  lemma LabelFactSplit(alloc: nat -> nat, x: Name, labels: seq<Expr>, count: nat, h: Hypothesis)
    requires labels != []
    ensures IsLabelFact(alloc, x, labels, count, h)
            <==> h == Hypothesis(alloc(count), Binary(Eq, Ident(x), labels[0]))
                 || IsLabelFact(alloc, x, labels[1..], count + 1, h)
  {
    if IsLabelFact(alloc, x, labels, count, h) {
      var j :| 0 <= j < |labels| && h == Hypothesis(alloc(count + j), Binary(Eq, Ident(x), labels[j]));
      assert j > 0 ==> labels[1..][j - 1] == labels[j] && count + 1 + (j - 1) == count + j;
    }
    if IsLabelFact(alloc, x, labels[1..], count + 1, h) {
      var j :| 0 <= j < |labels| - 1
               && h == Hypothesis(alloc(count + 1 + j), Binary(Eq, Ident(x), labels[1..][j]));
      assert labels[j + 1] == labels[1..][j] && count + (j + 1) == count + 1 + j;
    }
    if h == Hypothesis(alloc(count), Binary(Eq, Ident(x), labels[0])) {
      assert h == Hypothesis(alloc(count + 0), Binary(Eq, Ident(x), labels[0]));
    }
  }

  // ----- what the checks accept -----

  /** In the state, what is read and the pc may flow to x. */
  ghost predicate Permitted(P: Policy, x: Name, read: set<Name>, pc: SecType, s: State) {
    var to := LabelIn(P.lattice, NameType(P.types, x), s);
    P.lattice.leq(LabelIn(P.lattice, pc, s), to) && AllBelow(P.lattice, P.types, read, s, to)
  }

  predicate CanType(P: Policy, e: Expr) {
    CallFree(e) && ExprType(P.types, e).Some?
  }

  /** A valid constraint permits the flow in every state in which the facts hold. */
  lemma FlowIsPermitted(P: Policy, F: Facts, x: Name, e: Expr, pc: SecType)
    requires IsLattice(P.lattice) && CanType(P, e) && !e.Ternary?
    ensures CheckedRhs(P, x, e, F, pc)
            <==> forall s | Fits(s, P.context.width) && AllHold(P.context, F.hyps, s) :: Permitted(P, x, Vars(e), pc, s)
  {
    var L := P.lattice;
    var ty := ExprType(P.types, e).value;
    forall s: State
      ensures Permitted(P, x, Vars(e), pc, s)
              <==> L.leq(LabelIn(L, Join(ty, pc), s), LabelIn(L, NameType(P.types, x), s))
    {
      LabelIsLeastBound(L, P.types, e, s, LabelIn(L, NameType(P.types, x), s));
    }
  }

  /** What is permitted under the pc of a branch is so for what the condition reads, too. */
  lemma BranchIsPermitted(P: Policy, x: Name, c: Expr, read: set<Name>, pc: SecType, s: State)
    requires IsLattice(P.lattice) && CanType(P, c)
    ensures Permitted(P, x, read, BranchPc(ExprType(P.types, c).value, pc), s)
            <==> Permitted(P, x, Vars(c) + read, pc, s)
  {
    var to := LabelIn(P.lattice, NameType(P.types, x), s);
    PcIsJoin(P, ExprType(P.types, c).value, pc, s, to);
    LabelIsLeastBound(P.lattice, P.types, c, s, to);
  }

  /** An assignment in a branch on c, entered with one fact. */
  lemma FlowUnderFact(P: Policy, addr: nat, fact: Expr, count: nat, c: Expr, x: Name, e: Expr, pc: SecType)
    requires IsLattice(P.lattice) && CanType(P, c) && CanType(P, e) && !e.Ternary?
    ensures CheckedRhs(P, x, e, Facts(count, [Hypothesis(addr, fact)]), BranchPc(ExprType(P.types, c).value, pc))
            <==> forall s | Fits(s, P.context.width) && Holds(P.context.interp, fact, s) ::
              Permitted(P, x, Vars(c) + Vars(e), pc, s)
  {
    var F := Facts(count, [Hypothesis(addr, fact)]);
    var pc' := BranchPc(ExprType(P.types, c).value, pc);
    FlowIsPermitted(P, F, x, e, pc');
    forall s: State
      ensures AllHold(P.context, F.hyps, s) <==> Holds(P.context.interp, fact, s)
      ensures Permitted(P, x, Vars(e), pc', s) <==> Permitted(P, x, Vars(c) + Vars(e), pc, s)
    {
      BranchIsPermitted(P, x, c, Vars(e), pc, s);
      assert F.hyps[0].bexpr == fact;
    }
  }

  /** The one fact that a branch is entered with decides. */
  lemma BranchChecks(P: Policy, c: Expr, a: Stmt, pc: SecType, count: nat)
    requires InVocabulary(c, P.context.tracked) && (a.Assign? || a.AssignNB?) && ExprType(P.types, c).Some?
    ensures var pc' := BranchPc(ExprType(P.types, c).value, pc);
            var (F, G) := (Facts(count + 1, [Hypothesis(P.alloc(count), c)]),
                           Facts(count + 1, [Hypothesis(P.alloc(count), Unary(Nor, c))]));
            && (Checked(P, If(c, a, Absent), Facts(count, []), pc) <==> CheckedRhs(P, a.lval, a.rval, F, pc'))
            && (Checked(P, If(c, Absent, a), Facts(count, []), pc) <==> CheckedRhs(P, a.lval, a.rval, G, pc'))
  {
    WeakeningKeepsExactly(c, P.context.tracked);
    WellformedExactlyWhenWeakened(c, P.context.tracked);
    var (F, G) := (Facts(count + 1, [Hypothesis(P.alloc(count), c)]),
                   Facts(count + 1, [Hypothesis(P.alloc(count), Unary(Nor, c))]));
    var pc' := BranchPc(ExprType(P.types, c).value, pc);
    var (C, H) := (P.context, Facts(count, []));
    var (S, E) := (If(c, a, Absent), If(c, Absent, a));
    assert BranchFact(C, S, true) == Some(c) && BranchFact(C, E, false) == Some(Unary(Nor, c));
    assert Add(P.alloc, H, Some(c)) == F && Add(P.alloc, H, Some(Unary(Nor, c))) == G;
    assert AfterTrue(C, P.alloc, E, H) == H;
    assert Checked(P, S, H, pc) <==> Checked(P, a, F, pc');
    assert Checked(P, E, H, pc) <==> Checked(P, a, G, pc');
  }

  /**
   * Under a condition on tracked names an assignment is accepted exactly when everything it and the
   * condition read may flow to its target, in every state in which the condition holds; in the other
   * branch, in which it does not.
   */
  lemma GuardedAssignExactly(P: Policy, c: Expr, a: Stmt, pc: SecType, count: nat)
    requires IsLattice(P.lattice) && InVocabulary(c, P.context.tracked) && CanType(P, c)
    requires (a.Assign? || a.AssignNB?) && CanType(P, a.rval) && !a.rval.Ternary?
    ensures Checked(P, If(c, a, Absent), Facts(count, []), pc)
            <==> forall s | Fits(s, P.context.width) && Holds(P.context.interp, c, s) ::
              Permitted(P, a.lval, Vars(c) + Vars(a.rval), pc, s)
    ensures Checked(P, If(c, Absent, a), Facts(count, []), pc)
            <==> forall s | Fits(s, P.context.width) && !Holds(P.context.interp, c, s) ::
              Permitted(P, a.lval, Vars(c) + Vars(a.rval), pc, s)
  {
    BranchChecks(P, c, a, pc, count);
    FlowUnderFact(P, P.alloc(count), c, count + 1, c, a.lval, a.rval, pc);
    FlowUnderFact(P, P.alloc(count), Unary(Nor, c), count + 1, c, a.lval, a.rval, pc);
    assert forall s :: Holds(P.context.interp, Unary(Nor, c), s) <==> !Holds(P.context.interp, c, s);
  }

  /**
   * After a number or a tracked name has been copied to a tracked name, an assignment is accepted
   * exactly when what it reads may flow to its target in every state in which the two are equal.
   */
  lemma CopyThenAssignExactly(P: Policy, n: Name, r: Expr, a: Stmt, pc: SecType, count: nat)
    requires IsLattice(P.lattice) && n in P.context.tracked && (r.Number? || IsTracked(P.context, r))
    requires (a.Assign? || a.AssignNB?) && CanType(P, a.rval) && !a.rval.Ternary?
    ensures Checked(P, Block([Assign(n, r), a]), Facts(count, []), pc)
            <==> (forall s | Fits(s, P.context.width) :: Permitted(P, n, Vars(r), pc, s))
                 && forall s | Fits(s, P.context.width) && Get(s, n) == Eval(P.context.interp, r, s) ::
                   Permitted(P, a.lval, Vars(a.rval), pc, s)
  {
    var (H, fact) := (Facts(count, []), Binary(Eq, Ident(n), r));
    var F := Facts(count + 1, [Hypothesis(P.alloc(count), fact)]);
    CopyChecks(P, n, r, a, pc, count);
    FlowIsPermitted(P, H, n, r, pc);
    FlowIsPermitted(P, F, a.lval, a.rval, pc);
    assert forall s: State :: AllHold(P.context, [], s);
    forall s: State ensures AllHold(P.context, F.hyps, s) <==> Get(s, n) == Eval(P.context.interp, r, s) {
      assert F.hyps[0].bexpr == fact && Eval(P.context.interp, Ident(n), s) == Get(s, n);
    }
  }

  lemma CopyChecks(P: Policy, n: Name, r: Expr, a: Stmt, pc: SecType, count: nat)
    requires n in P.context.tracked && (r.Number? || IsTracked(P.context, r)) && (a.Assign? || a.AssignNB?)
    ensures var F := Facts(count + 1, [Hypothesis(P.alloc(count), Binary(Eq, Ident(n), r))]);
            Checked(P, Block([Assign(n, r), a]), Facts(count, []), pc)
            <==> CheckedRhs(P, n, r, Facts(count, []), pc) && CheckedRhs(P, a.lval, a.rval, F, pc)
  {
    var (H, ss) := (Facts(count, []), [Assign(n, r), a]);
    var F := Facts(count + 1, [Hypothesis(P.alloc(count), Binary(Eq, Ident(n), r))]);
    assert ss[1..] == [a] && [a][1..] == [];
    assert Analyze(P.context, P.alloc, ss[0], H) == F;
    assert CheckedAll(P, ss, H, pc) <==> Checked(P, ss[0], H, pc) && CheckedAll(P, ss[1..], F, pc);
    assert CheckedAll(P, [a], F, pc) <==> Checked(P, a, F, pc);
  }

  /**
   * Under a label of a case statement on a tracked name an assignment is accepted exactly when what it
   * reads, and the name, may flow to its target in every state in which the name has the label's value.
   */
  lemma LabelledAssignExactly(P: Policy, y: Name, k: nat, a: Stmt, pc: SecType, count: nat)
    requires IsLattice(P.lattice) && y in P.context.tracked
    requires (a.Assign? || a.AssignNB?) && CanType(P, a.rval) && !a.rval.Ternary?
    ensures Checked(P, Case(Ident(y), [CaseItem([Number(k)], a)]), Facts(count, []), pc)
            <==> forall s | Fits(s, P.context.width) && Get(s, y) == k ::
              Permitted(P, a.lval, {y} + Vars(a.rval), pc, s)
  {
    var fact := Binary(Eq, Ident(y), Number(k));
    LabelChecks(P, y, k, a, pc, count);
    FlowUnderFact(P, P.alloc(count), fact, count + 1, Ident(y), a.lval, a.rval, pc);
    forall s: State ensures Holds(P.context.interp, fact, s) <==> Get(s, y) == k {
      assert Eval(P.context.interp, Ident(y), s) == Get(s, y) && Eval(P.context.interp, Number(k), s) == k;
    }
  }

  lemma LabelChecks(P: Policy, y: Name, k: nat, a: Stmt, pc: SecType, count: nat)
    requires y in P.context.tracked && (a.Assign? || a.AssignNB?)
    ensures var F := Facts(count + 1, [Hypothesis(P.alloc(count), Binary(Eq, Ident(y), Number(k)))]);
            Checked(P, Case(Ident(y), [CaseItem([Number(k)], a)]), Facts(count, []), pc)
            <==> CheckedRhs(P, a.lval, a.rval, F, BranchPc(NameType(P.types, y), pc))
  {
    var (C, H, items, labels) := (P.context, Facts(count, []), [CaseItem([Number(k)], a)], [Number(k)]);
    var F := Facts(count + 1, [Hypothesis(P.alloc(count), Binary(Eq, Ident(y), Number(k)))]);
    var pc' := BranchPc(NameType(P.types, y), pc);
    assert items[1..] == [] && labels[1..] == [] && IsTracked(C, Ident(y));
    assert LabelFacts(C, P.alloc, Ident(y), labels, H) == LabelFacts(C, P.alloc, Ident(y), labels[1..], F) == F;
    assert CheckedItems(P, Ident(y), items, H, pc') <==> Checked(P, a, F, pc');
  }

  // ----- processes within a level -----

  ghost predicate ReadsBelow(P: Policy, l: Label, e: Expr) {
    && ExprType(P.types, e).Some?
    && forall s | Fits(s, P.context.width) :: AllBelow(P.lattice, P.types, Vars(e), s, l)
  }

  /** The right side of an assignment, whose ternaries are translated. */
  ghost predicate RhsBelow(P: Policy, l: Label, e: Expr)
    decreases e
  {
    if e.Ternary? then ReadsBelow(P, l, e.cond) && RhsBelow(P, l, e.tru) && RhsBelow(P, l, e.fal)
    else ReadsBelow(P, l, e)
  }

  ghost predicate TypeBelow(P: Policy, ty: SecType, l: Label) {
    forall s | Fits(s, P.context.width) :: P.lattice.leq(LabelIn(P.lattice, ty, s), l)
  }

  ghost predicate AssignsAbove(P: Policy, l: Label, x: Name) {
    forall s | Fits(s, P.context.width) :: P.lattice.leq(l, LabelIn(P.lattice, NameType(P.types, x), s))
  }

  /** Everything the statement reads is at or below l, and everything it assigns at or above. */
  ghost predicate Within(P: Policy, l: Label, s: Stmt)
    decreases s, 0
  {
    match s
    case Absent => true
    case Assign(x, e) => RhsBelow(P, l, e) && AssignsAbove(P, l, x)
    case AssignNB(x, e) => RhsBelow(P, l, e) && AssignsAbove(P, l, x)
    case Block(ss) => WithinAll(P, l, ss)
    case If(c, t, f) => ReadsBelow(P, l, c) && Within(P, l, t) && Within(P, l, f)
    case Case(e, items) => ReadsBelow(P, l, e) && WithinItems(P, l, items)
  }

  ghost predicate WithinAll(P: Policy, l: Label, ss: seq<Stmt>)
    decreases ss, 0
  {
    ss == [] || (Within(P, l, ss[0]) && WithinAll(P, l, ss[1..]))
  }

  ghost predicate WithinItems(P: Policy, l: Label, items: seq<CaseItem>)
    decreases items, 0
  {
    items == [] || (Within(P, l, items[0].body) && WithinItems(P, l, items[1..]))
  }

  lemma PcStaysBelow(P: Policy, l: Label, e: Expr, pc: SecType)
    requires IsLattice(P.lattice) && ReadsBelow(P, l, e) && TypeBelow(P, pc, l)
    ensures TypeBelow(P, BranchPc(ExprType(P.types, e).value, pc), l)
  {
    forall s | Fits(s, P.context.width)
      ensures P.lattice.leq(LabelIn(P.lattice, BranchPc(ExprType(P.types, e).value, pc), s), l)
    {
      LabelIsBelow(P.lattice, P.types, e, s, l);
      PcIsJoin(P, ExprType(P.types, e).value, pc, s, l);
    }
  }

  lemma {:induction false} RhsAccepted(P: Policy, l: Label, x: Name, e: Expr, F: Facts, pc: SecType)
    requires IsLattice(P.lattice) && RhsBelow(P, l, e) && AssignsAbove(P, l, x) && TypeBelow(P, pc, l)
    ensures CheckedRhs(P, x, e, F, pc)
    decreases e
  {
    if e.Ternary? {
      var s := Translate(x, e);
      var G := F.(count := AfterTrue(P.context, P.alloc, s, F).count);
      var pc' := BranchPc(ExprType(P.types, e.cond).value, pc);
      PcStaysBelow(P, l, e.cond, pc);
      RhsAccepted(P, l, x, e.tru, Add(P.alloc, F, BranchFact(P.context, s, true)), pc');
      RhsAccepted(P, l, x, e.fal, Add(P.alloc, G, BranchFact(P.context, s, false)), pc');
    } else {
      var (L, ty) := (P.lattice, ExprType(P.types, e).value);
      forall s | Fits(s, P.context.width)
        ensures L.leq(LabelIn(L, Join(ty, pc), s), LabelIn(L, NameType(P.types, x), s))
      {
        LabelIsBelow(L, P.types, e, s, l);
        assert L.leq(L.join(LabelIn(L, ty, s), LabelIn(L, pc, s)), l);
      }
    }
  }

  /** A process that reads nothing above a level and assigns nothing below it is accepted. */
  lemma {:induction false} WithinIsAccepted(P: Policy, l: Label, s: Stmt, F: Facts, pc: SecType)
    requires IsLattice(P.lattice) && Within(P, l, s) && TypeBelow(P, pc, l)
    ensures Checked(P, s, F, pc)
    decreases s, 0
  {
    match s
    case Absent =>
    case Assign(x, e) => RhsAccepted(P, l, x, e, F, pc);
    case AssignNB(x, e) => RhsAccepted(P, l, x, e, F, pc);
    case Block(ss) => WithinAllAccepted(P, l, ss, F, pc);
    case If(c, t, f) =>
      var G := F.(count := AfterTrue(P.context, P.alloc, s, F).count);
      var pc' := BranchPc(ExprType(P.types, c).value, pc);
      PcStaysBelow(P, l, c, pc);
      WithinIsAccepted(P, l, t, Add(P.alloc, F, BranchFact(P.context, s, true)), pc');
      WithinIsAccepted(P, l, f, Add(P.alloc, G, BranchFact(P.context, s, false)), pc');
    case Case(e, items) =>
      PcStaysBelow(P, l, e, pc);
      WithinItemsAccepted(P, l, e, items, F, BranchPc(ExprType(P.types, e).value, pc));
  }

  lemma {:induction false} WithinAllAccepted(P: Policy, l: Label, ss: seq<Stmt>, F: Facts, pc: SecType)
    requires IsLattice(P.lattice) && WithinAll(P, l, ss) && TypeBelow(P, pc, l)
    ensures CheckedAll(P, ss, F, pc)
    decreases ss, 0
  {
    if ss != [] {
      WithinIsAccepted(P, l, ss[0], F, pc);
      WithinAllAccepted(P, l, ss[1..], Analyze(P.context, P.alloc, ss[0], F), pc);
    }
  }

  lemma {:induction false} WithinItemsAccepted(P: Policy, l: Label, e: Expr, items: seq<CaseItem>, F: Facts,
                                               pc: SecType)
    requires IsLattice(P.lattice) && WithinItems(P, l, items) && TypeBelow(P, pc, l)
    ensures CheckedItems(P, e, items, F, pc)
    decreases items, 0
  {
    if items != [] {
      var G := LabelFacts(P.context, P.alloc, e, items[0].labels, F);
      WithinIsAccepted(P, l, items[0].body, G, pc);
      WithinItemsAccepted(P, l, e, items[1..], Analyze(P.context, P.alloc, items[0].body, G), pc);
    }
  }
}
