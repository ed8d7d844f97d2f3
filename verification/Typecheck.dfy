/**
 * Type-checking a process: the flow constraints of its assignments, each to be valid under the
 * facts known there.
 */
module Typecheck {
  import opened PExpr
  import opened Statement
  import opened AbsInterp
  import opened SecTypes

  /** Labels, the declared types, the process's context and its allocator. */
  datatype Policy = Policy(lattice: Lattice, types: TypeMap, context: Context, alloc: nat -> nat)

  /**
   * The constraint handed to the solver is valid: in every state whose values fit and in which the
   * facts hold, the right label flows to the left one.
   */
  ghost predicate ValidFlow(P: Policy, F: Facts, lhs: SecType, rhs: SecType) {
    forall s :: Fits(s, P.context.width) && AllHold(P.context, F.hyps, s) ==>
                  P.lattice.leq(LabelIn(P.lattice, rhs, s), LabelIn(P.lattice, lhs, s))
  }

  /** The process counter label inside a branch on e. */
  function BranchPc(e: SecType, pc: SecType): SecType {
    Simplify(Join(e, pc))
  }

  /**
   * The constraints of an assignment; a ternary right side is checked branch by branch, as its
   * translation to a conditional.
   */
  ghost predicate CheckedRhs(P: Policy, x: Name, e: Expr, F: Facts, pc: SecType)
    decreases e
  {
    if e.Ternary? then
      var s := Translate(x, e);
      var G := F.(count := AfterTrue(P.context, P.alloc, s, F).count);
      && ExprType(P.types, e.cond).Some?
      && var pc' := BranchPc(ExprType(P.types, e.cond).value, pc);
      && CheckedRhs(P, x, e.tru, Add(P.alloc, F, BranchFact(P.context, s, true)), pc')
      && CheckedRhs(P, x, e.fal, Add(P.alloc, G, BranchFact(P.context, s, false)), pc')
    else
      && ExprType(P.types, e).Some?
      && ValidFlow(P, F, NameType(P.types, x), Join(ExprType(P.types, e).value, pc))
  }

  /** All constraints of a statement are valid. */
  ghost predicate Checked(P: Policy, s: Stmt, F: Facts, pc: SecType)
    decreases s, 0
  {
    match s
    case Absent => true
    case Assign(x, e) => CheckedRhs(P, x, e, F, pc)
    case AssignNB(x, e) => CheckedRhs(P, x, e, F, pc)
    case Block(ss) => CheckedAll(P, ss, F, pc)
    case If(c, t, f) =>
      var G := F.(count := AfterTrue(P.context, P.alloc, s, F).count);
      && ExprType(P.types, c).Some?
      && var pc' := BranchPc(ExprType(P.types, c).value, pc);
      && (t != Absent ==> Checked(P, t, Add(P.alloc, F, BranchFact(P.context, s, true)), pc'))
      && (f != Absent ==> Checked(P, f, Add(P.alloc, G, BranchFact(P.context, s, false)), pc'))
    case Case(e, items) =>
      && ExprType(P.types, e).Some?
      && CheckedItems(P, e, items, F, BranchPc(ExprType(P.types, e).value, pc))
  }

  ghost predicate CheckedAll(P: Policy, ss: seq<Stmt>, F: Facts, pc: SecType)
    decreases ss, 0
  {
    ss == [] || (Checked(P, ss[0], F, pc) && CheckedAll(P, ss[1..], Analyze(P.context, P.alloc, ss[0], F), pc))
  }

  ghost predicate CheckedItems(P: Policy, e: Expr, items: seq<CaseItem>, F: Facts, pc: SecType)
    decreases items, 0
  {
    items == [] ||
    var G := LabelFacts(P.context, P.alloc, e, items[0].labels, F);
    && Checked(P, items[0].body, G, pc)
    && CheckedItems(P, e, items[1..], Analyze(P.context, P.alloc, items[0].body, G), pc)
  }

  /** Checking a ternary assignment and checking its translation are one thing. */
  lemma {:induction false} TernaryCheckedAsTranslated(P: Policy, x: Name, e: Expr, F: Facts, pc: SecType)
    ensures Checked(P, TranslateArm(x, e), F, pc) <==> CheckedRhs(P, x, e, F, pc)
    decreases e
  {
    if e.Ternary? {
      var s := Translate(x, e);
      var G := F.(count := AfterTrue(P.context, P.alloc, s, F).count);
      if ExprType(P.types, e.cond).Some? {
        var pc' := BranchPc(ExprType(P.types, e.cond).value, pc);
        TernaryCheckedAsTranslated(P, x, e.tru, Add(P.alloc, F, BranchFact(P.context, s, true)), pc');
        TernaryCheckedAsTranslated(P, x, e.fal, Add(P.alloc, G, BranchFact(P.context, s, false)), pc');
      }
    }
  }

  // ----- the facts of a process -----

  /** The facts of a ternary's arms can be trusted too. */
  predicate TrustedRhs(C: Context, s: Stmt)
    decreases s, 0
  {
    match s
    case Absent => true
    case Assign(x, e) => Trusted(C, TranslateArm(x, e))
    case AssignNB(x, e) => Trusted(C, TranslateArm(x, e))
    case Block(ss) => TrustedRhsAll(C, ss)
    case If(c, t, f) => TrustedRhs(C, t) && TrustedRhs(C, f)
    case Case(e, items) => TrustedRhsItems(C, items)
  }

  predicate TrustedRhsAll(C: Context, ss: seq<Stmt>)
    decreases ss, 0
  {
    ss == [] || (TrustedRhs(C, ss[0]) && TrustedRhsAll(C, ss[1..]))
  }

  predicate TrustedRhsItems(C: Context, items: seq<CaseItem>)
    decreases items, 0
  {
    items == [] || (TrustedRhs(C, items[0].body) && TrustedRhsItems(C, items[1..]))
  }

  /** Every name a declared type depends on is tracked. */
  predicate DepsTracked(P: Policy) {
    forall x <- P.types :: DepExprs(P.types[x]) <= P.context.tracked
  }

  // ----- an assignment's flows in one state -----

  /** Inside a branch the pc is raised to the label of the condition, and no further. */
  lemma PcIsJoin(P: Policy, ty: SecType, pc: SecType, s: State, a: Label)
    requires IsLattice(P.lattice)
    ensures P.lattice.leq(LabelIn(P.lattice, BranchPc(ty, pc), s), a)
            <==> P.lattice.leq(LabelIn(P.lattice, ty, s), a) && P.lattice.leq(LabelIn(P.lattice, pc, s), a)
  {
    SimplifyKeepsLabels(P.lattice, Join(ty, pc), s);
  }

  lemma PcIsUpper(P: Policy, ty: SecType, pc: SecType, s: State)
    requires IsLattice(P.lattice)
    ensures P.lattice.leq(LabelIn(P.lattice, ty, s), LabelIn(P.lattice, BranchPc(ty, pc), s))
    ensures P.lattice.leq(LabelIn(P.lattice, pc, s), LabelIn(P.lattice, BranchPc(ty, pc), s))
  {
    SimplifyKeepsLabels(P.lattice, Join(ty, pc), s);
    JoinIsUpper(P.lattice, LabelIn(P.lattice, ty, s), LabelIn(P.lattice, pc, s));
  }

  lemma ArmIsPresent(x: Name, e: Expr)
    ensures TranslateArm(x, e) != Absent
  {
    if e.Ternary? {
      assert Translate(x, e).If?;
    }
  }

  /** The facts for the arm a ternary takes in s, true in s. */
  lemma ArmFacts(P: Policy, x: Name, e: Expr, F: Facts, s: State) returns (T: Facts, b: bool)
    requires e.Ternary? && Trusted(P.context, Translate(x, e)) && True(P.context, F, s)
    ensures b == Holds(P.context.interp, e.cond, s)
    ensures T == Add(P.alloc,
                     if b then F else F.(count := AfterTrue(P.context, P.alloc, Translate(x, e), F).count),
                     BranchFact(P.context, Translate(x, e), b))
    ensures True(P.context, T, s)
  {
    b := Holds(P.context.interp, e.cond, s);
    var t := Translate(x, e);
    ArmIsPresent(x, e.tru);
    var G := if b then F else F.(count := AfterTrue(P.context, P.alloc, t, F).count);
    BranchFactIsTrue(P.context, t, b, s);
    AddKeepsTruth(P.context, P.alloc, G, BranchFact(P.context, t, b), iset{}, s);
    T := Add(P.alloc, G, BranchFact(P.context, t, b));
  }

  /** Where its facts are true, a checked assignment's target is at least as high as the pc. */
  lemma {:induction false} PcFlowsToTarget(P: Policy, x: Name, e: Expr, F: Facts, pc: SecType, s: State)
    requires IsLattice(P.lattice) && Trusted(P.context, TranslateArm(x, e))
    requires CheckedRhs(P, x, e, F, pc) && True(P.context, F, s) && Fits(s, P.context.width)
    ensures P.lattice.leq(LabelIn(P.lattice, pc, s), LabelIn(P.lattice, NameType(P.types, x), s))
    decreases e
  {
    if e.Ternary? {
      var T, b := ArmFacts(P, x, e, F, s);
      var ty := ExprType(P.types, e.cond).value;
      PcFlowsToTarget(P, x, if b then e.tru else e.fal, T, BranchPc(ty, pc), s);
      PcIsUpper(P, ty, pc, s);
    } else {
      JoinIsUpper(P.lattice, LabelIn(P.lattice, ExprType(P.types, e).value, s), LabelIn(P.lattice, pc, s));
    }
  }
}
