/**
 * What the flow constraints give for whole runs: noninterference of processes and of any number of
 * cycles, and where an assignment that passes the checks lowers a label.
 */
module Noninterference {
  import opened Prelude
  import opened PExpr
  import opened Statement
  import opened AbsInterp
  import opened SecTypes
  import opened Typecheck

  // ----- what an observer sees -----

  /** An observer sees what is at or below a level, and some names whatever their label. */
  datatype Observer = Observer(level: Label, known: set<Name>)

  ghost predicate IsLow(P: Policy, ob: Observer, ty: SecType, s: State) {
    P.lattice.leq(LabelIn(P.lattice, ty, s), ob.level)
  }

  ghost predicate Low(P: Policy, ob: Observer, s: State, x: Name) {
    IsLow(P, ob, NameType(P.types, x), s)
  }

  ghost predicate Sees(P: Policy, ob: Observer, s: State, x: Name) {
    x in ob.known || Low(P, ob, s, x)
  }

  /** The states are alike in all that is seen in one of them. */
  ghost predicate SameView(P: Policy, ob: Observer, s: State, t: State) {
    forall x :: Sees(P, ob, s, x) || Sees(P, ob, t, x) ==> Get(s, x) == Get(t, x)
  }

  predicate SamePending(p: State, q: State, x: Name) {
    (x in p <==> x in q) && Get(p, x) == Get(q, x)
  }

  /** The observer cannot tell the outcomes apart, by the values now or by what becomes of them next. */
  ghost predicate LowEquivalent(P: Policy, ob: Observer, o: Outcome, q: Outcome) {
    && SameView(P, ob, o.now, q.now)
    && forall x :: Sees(P, ob, o.now, x) || Sees(P, ob, q.now, x) ==> SamePending(o.pending, q.pending, x)
  }

  /** What a label depends on is known, or is no higher than the label. */
  ghost predicate Upward(P: Policy, ob: Observer, ty: SecType) {
    forall s: State, d | Fits(s, P.context.width) && d in DepExprs(ty) && d !in ob.known ::
      P.lattice.leq(LabelIn(P.lattice, NameType(P.types, d), s), LabelIn(P.lattice, ty, s))
  }

  /** So for all declared types. */
  ghost predicate WellformedTypes(P: Policy, ob: Observer) {
    IsLattice(P.lattice) && DepsTracked(P) && forall x :: Upward(P, ob, NameType(P.types, x))
  }

  /** A low label is the same in states that are alike. */
  lemma LowLabelSame(P: Policy, ob: Observer, ty: SecType, s: State, t: State)
    requires IsLattice(P.lattice) && Upward(P, ob, ty) && SameView(P, ob, s, t) && Fits(s, P.context.width)
    requires IsLow(P, ob, ty, s)
    ensures LabelIn(P.lattice, ty, s) == LabelIn(P.lattice, ty, t)
  {
    forall d | d in DepExprs(ty) ensures Get(s, d) == Get(t, d) {
      assert Sees(P, ob, s, d);
    }
    LabelFrame(P.lattice, ty, s, t);
  }

  lemma LowInBoth(P: Policy, ob: Observer, ty: SecType, s: State, t: State)
    requires IsLattice(P.lattice) && Upward(P, ob, ty) && SameView(P, ob, s, t)
    requires Fits(s, P.context.width) && Fits(t, P.context.width)
    ensures IsLow(P, ob, ty, s) <==> IsLow(P, ob, ty, t)
  {
    if IsLow(P, ob, ty, s) { LowLabelSame(P, ob, ty, s, t); }
    if IsLow(P, ob, ty, t) { LowLabelSame(P, ob, ty, t, s); }
  }

  lemma SeesSame(P: Policy, ob: Observer, s: State, t: State, x: Name)
    requires WellformedTypes(P, ob) && SameView(P, ob, s, t)
    requires Fits(s, P.context.width) && Fits(t, P.context.width)
    ensures Sees(P, ob, s, x) <==> Sees(P, ob, t, x)
  {
    LowInBoth(P, ob, NameType(P.types, x), s, t);
  }

  lemma EquivalentSymmetric(P: Policy, ob: Observer, o: Outcome, q: Outcome)
    requires LowEquivalent(P, ob, o, q)
    ensures LowEquivalent(P, ob, q, o)
  {
  }

  lemma EquivalentTransitive(P: Policy, ob: Observer, o: Outcome, p: Outcome, q: Outcome)
    requires WellformedTypes(P, ob) && LowEquivalent(P, ob, o, p) && LowEquivalent(P, ob, p, q)
    requires Fits(o.now, P.context.width) && Fits(p.now, P.context.width) && Fits(q.now, P.context.width)
    ensures LowEquivalent(P, ob, o, q)
  {
    forall x | Sees(P, ob, o.now, x) || Sees(P, ob, q.now, x)
      ensures Get(o.now, x) == Get(q.now, x) && SamePending(o.pending, q.pending, x)
    {
      SeesSame(P, ob, o.now, p.now, x);
      SeesSame(P, ob, p.now, q.now, x);
    }
  }

  // ----- the labels of expressions -----

  lemma UpwardJoin(P: Policy, ob: Observer, a: SecType, b: SecType)
    requires IsLattice(P.lattice) && Upward(P, ob, a) && Upward(P, ob, b)
    ensures Upward(P, ob, Join(a, b))
  {
    var L := P.lattice;
    forall s: State, d | Fits(s, P.context.width) && d in DepExprs(Join(a, b)) && d !in ob.known
      ensures L.leq(LabelIn(L, NameType(P.types, d), s), LabelIn(L, Join(a, b), s))
    {
      JoinIsUpper(L, LabelIn(L, a, s), LabelIn(L, b, s));
    }
  }

  lemma UpwardBranchPc(P: Policy, ob: Observer, ty: SecType, pc: SecType)
    requires IsLattice(P.lattice) && Upward(P, ob, ty) && Upward(P, ob, pc)
    ensures Upward(P, ob, BranchPc(ty, pc))
  {
    UpwardJoin(P, ob, ty, pc);
    forall s: State | Fits(s, P.context.width)
      ensures LabelIn(P.lattice, BranchPc(ty, pc), s) == LabelIn(P.lattice, Join(ty, pc), s)
    {
      SimplifyKeepsLabels(P.lattice, Join(ty, pc), s);
    }
  }

  lemma {:induction false} ExprUpward(P: Policy, ob: Observer, e: Expr)
    requires WellformedTypes(P, ob) && ExprType(P.types, e).Some?
    ensures Upward(P, ob, ExprType(P.types, e).value)
    decreases e, 0
  {
    match e
    case Ident(x) =>
    case Number(n) =>
    case Unary(op, a) => ExprUpward(P, ob, a);
    case Binary(op, l, r) =>
      ExprUpward(P, ob, l);
      ExprUpward(P, ob, r);
      UpwardJoin(P, ob, ExprType(P.types, l).value, ExprType(P.types, r).value);
    case Concat(rep, ps) =>
      var first := if rep.Some? then ExprType(P.types, rep.value) else Some(BOT);
      if first.Some? && rep.Some? { ExprUpward(P, ob, rep.value); }
      OperandsUpward(P, ob, ps, first);
    case Call(f, xs) =>
  }

  lemma {:induction false} OperandsUpward(P: Policy, ob: Observer, ps: seq<Expr>, last: Option<SecType>)
    requires WellformedTypes(P, ob) && JoinAll(P.types, ps, last).Some?
    requires last.Some? ==> Upward(P, ob, last.value)
    ensures Upward(P, ob, JoinAll(P.types, ps, last).value)
    decreases ps, 0
  {
    if ps != [] {
      var next := JoinTypes(last, ExprType(P.types, ps[0]));
      if next.Some? {
        ExprUpward(P, ob, ps[0]);
        UpwardJoin(P, ob, last.value, ExprType(P.types, ps[0]).value);
      }
      OperandsUpward(P, ob, ps[1..], next);
    }
  }

  // ----- the processes the theorem is about -----

  /** Storing v in x shows no name that the observer did not see. */
  ghost predicate ShowsNothing(P: Policy, ob: Observer, s: State, x: Name, v: nat) {
    forall y :: Sees(P, ob, s[x := v], y) ==> Sees(P, ob, s, y)
  }

  /** So wherever x is seen, if x is updated with v at the end of the cycle. */
  ghost predicate UpdateShowsNothing(P: Policy, ob: Observer, x: Name, v: nat) {
    forall t: State | Fits(t, P.context.width) && Sees(P, ob, t, x) :: ShowsNothing(P, ob, t, x, v)
  }

  /** So wherever. */
  ghost predicate NeverShows(P: Policy, ob: Observer, x: Name, v: nat) {
    forall t: State | Fits(t, P.context.width) :: ShowsNothing(P, ob, t, x, v)
  }

  /** In the state, an assignment to a low name shows nothing; a name the observer knows is low. */
  ghost predicate KeepsLabels(P: Policy, ob: Observer, a: Stmt, s: State)
    requires a.Assign? || a.AssignNB?
  {
    var v := Stored(P.context, a.lval, a.rval, s);
    && (a.lval in ob.known ==> Low(P, ob, s, a.lval))
    && if a.Assign? then Low(P, ob, s, a.lval) ==> ShowsNothing(P, ob, s, a.lval, v)
       else UpdateShowsNothing(P, ob, a.lval, v)
  }

  /** That is so wherever the facts hold; and the target's label does not depend on the target. */
  ghost predicate EligibleAssign(P: Policy, ob: Observer, a: Stmt, F: Facts)
    requires a.Assign? || a.AssignNB?
  {
    && CallFree(a.rval)
    && (a.lval in P.context.tracked + ob.known ==>
          && a.lval !in DepExprs(NameType(P.types, a.lval))
          && forall s: State | Fits(s, P.context.width) && AllHold(P.context, F.hyps, s) :: KeepsLabels(P, ob, a, s))
  }

  /** Assignments show nothing by lowering labels; no calls; case labels are numbers. */
  ghost predicate Eligible(P: Policy, ob: Observer, s: Stmt, F: Facts)
    decreases s, 0
  {
    match s
    case Absent => true
    case Assign(x, e) => EligibleAssign(P, ob, s, F)
    case AssignNB(x, e) => EligibleAssign(P, ob, s, F)
    case Block(ss) => EligibleAll(P, ob, ss, F)
    case If(c, t, f) =>
      var G := F.(count := AfterTrue(P.context, P.alloc, s, F).count);
      && CallFree(c)
      && (t != Absent ==> Eligible(P, ob, t, Add(P.alloc, F, BranchFact(P.context, s, true))))
      && (f != Absent ==> Eligible(P, ob, f, Add(P.alloc, G, BranchFact(P.context, s, false))))
    case Case(e, items) => CallFree(e) && NumericLabels(items) && EligibleItems(P, ob, e, items, F)
  }

  ghost predicate EligibleAll(P: Policy, ob: Observer, ss: seq<Stmt>, F: Facts)
    decreases ss, 0
  {
    ss == [] || (Eligible(P, ob, ss[0], F) && EligibleAll(P, ob, ss[1..], Analyze(P.context, P.alloc, ss[0], F)))
  }

  ghost predicate EligibleItems(P: Policy, ob: Observer, e: Expr, items: seq<CaseItem>, F: Facts)
    decreases items, 0
  {
    items == [] ||
    var G := LabelFacts(P.context, P.alloc, e, items[0].labels, F);
    && Eligible(P, ob, items[0].body, G)
    && EligibleItems(P, ob, e, items[1..], Analyze(P.context, P.alloc, items[0].body, G))
  }

  /** What the checks and the text of a process must say, whatever state it starts in. */
  ghost predicate CheckedProcess(P: Policy, ob: Observer, s: Stmt, F: Facts, pc: SecType) {
    && WellformedTypes(P, ob)
    && Trusted(P.context, s) && TrustedRhs(P.context, s) && NothingLeaks(P.context, s)
    && Eligible(P, ob, s, F) && Checked(P, s, F, pc)
  }

  ghost predicate GoodState(P: Policy, F: Facts, o: Outcome) {
    True(P.context, F, o.now) && Fits(o.now, P.context.width)
  }

  /** What every step of the proofs below needs of a statement and a run from o. */
  ghost predicate Ready(P: Policy, ob: Observer, s: Stmt, F: Facts, pc: SecType, o: Outcome) {
    CheckedProcess(P, ob, s, F, pc) && GoodState(P, F, o)
  }

  ghost predicate ReadyAll(P: Policy, ob: Observer, ss: seq<Stmt>, F: Facts, pc: SecType, o: Outcome) {
    && WellformedTypes(P, ob)
    && TrustedAll(P.context, ss) && TrustedRhsAll(P.context, ss) && NothingLeaksAll(P.context, ss)
    && EligibleAll(P, ob, ss, F) && CheckedAll(P, ss, F, pc)
    && GoodState(P, F, o)
  }

  ghost predicate ReadyItems(P: Policy, ob: Observer, e: Expr, items: seq<CaseItem>, F: Facts, pc: SecType, o: Outcome)
  {
    && WellformedTypes(P, ob)
    && TrustedItems(P.context, items) && TrustedRhsItems(P.context, items) && NothingLeaksItems(P.context, items)
    && NoLabelFacts(P.context, e, items) && (!GeneratesInItems(P.context, e, items) || OnlyDefault(items))
    && EligibleItems(P, ob, e, items, F) && CheckedItems(P, e, items, F, pc)
    && GoodState(P, F, o)
  }

  /** The facts under which the branch taken from o is checked. */
  lemma ReadyBranch(P: Policy, ob: Observer, s: Stmt, F: Facts, pc: SecType, o: Outcome) returns (T: Facts)
    requires s.If? && Ready(P, ob, s, F, pc, o)
    ensures ExprType(P.types, s.cond).Some? && CallFree(s.cond)
    ensures T == BranchFacts(P, s, F, Holds(P.context.interp, s.cond, o.now))
    ensures var taken := Taken(P.context, s, o);
            taken != Absent ==> Ready(P, ob, taken, T, BranchPc(ExprType(P.types, s.cond).value, pc), o)
  {
    var b := Holds(P.context.interp, s.cond, o.now);
    var G := if b then F else F.(count := AfterTrue(P.context, P.alloc, s, F).count);
    T := BranchFacts(P, s, F, b);
    if Taken(P.context, s, o) != Absent {
      BranchFactIsTrue(P.context, s, b, o.now);
      AddKeepsTruth(P.context, P.alloc, G, BranchFact(P.context, s, b), iset{}, o.now);
    }
  }

  function BranchFacts(P: Policy, s: Stmt, F: Facts, b: bool): Facts
    requires s.If?
  {
    Add(P.alloc, if b then F else F.(count := AfterTrue(P.context, P.alloc, s, F).count), BranchFact(P.context, s, b))
  }

  /** The branch a run takes. */
  function Taken(C: Context, s: Stmt, o: Outcome): Stmt
    requires s.If?
  {
    if Holds(C.interp, s.cond, o.now) then s.ifTrue else s.ifFalse
  }

  /** The facts under which case item k is checked, true in a run that chooses it. */
  lemma {:induction false} ReadyItem(P: Policy, ob: Observer, e: Expr, items: seq<CaseItem>, k: nat, F: Facts,
                                     pc: SecType, o: Outcome) returns (T: Facts)
    requires k < |items| && ReadyItems(P, ob, e, items, F, pc, o)
    ensures Ready(P, ob, items[k].body, T, pc, o)
    ensures T == FactsAtItem(P, items, k, F)
    decreases k
  {
    LabelFactsNone(P.context, P.alloc, e, items[0].labels, F);
    T := F;
    if k > 0 {
      InertFacts(P.context, P.alloc, items[0].body, F, iset{}, o.now);
      T := ReadyItem(P, ob, e, items[1..], k - 1, Analyze(P.context, P.alloc, items[0].body, F), pc, o);
    }
  }

  function FactsAtItem(P: Policy, items: seq<CaseItem>, k: nat, F: Facts): Facts
    requires k < |items|
  {
    if k == 0 then F else FactsAtItem(P, items[1..], k - 1, Analyze(P.context, P.alloc, items[0].body, F))
  }

  /** The item a run chooses is checked under facts that are true there. */
  lemma ReadyCase(P: Policy, ob: Observer, s: Stmt, F: Facts, pc: SecType, o: Outcome) returns (T: Facts)
    requires s.Case? && Ready(P, ob, s, F, pc, o)
    ensures ExprType(P.types, s.sel).Some? && CallFree(s.sel) && NumericLabels(s.items)
    ensures var k := ChosenBy(P.context, s, o);
            k < |s.items| ==>
              && T == FactsAtItem(P, s.items, k, F)
              && Ready(P, ob, s.items[k].body, T, BranchPc(ExprType(P.types, s.sel).value, pc), o)
  {
    var k := ChosenBy(P.context, s, o);
    T := F;
    if k < |s.items| {
      T := ReadyItem(P, ob, s.sel, s.items, k, F, BranchPc(ExprType(P.types, s.sel).value, pc), o);
    }
  }

  /** The case item a run chooses. */
  function ChosenBy(C: Context, s: Stmt, o: Outcome): (k: nat)
    requires s.Case?
    ensures k <= |s.items|
  {
    Chosen(C, Eval(C.interp, s.sel, o.now), s.items, o.now)
  }

  lemma RunFits(P: Policy, ob: Observer, s: Stmt, F: Facts, pc: SecType, o: Outcome)
    requires Ready(P, ob, s, F, pc, o)
    ensures GoodState(P, Analyze(P.context, P.alloc, s, F), Exec(P.context, s, o))
  {
    AnalysisIsSound(P.context, P.alloc, s, F, o);
  }

  // ----- assignments -----

  /** A stored value fits. */
  lemma StoredFits(C: Context, s: State, x: Name, v: nat)
    requires Fits(s, C.width) && v < Pow2(C.width(x))
    ensures Fits(s[x := v], C.width)
  {
  }

  /** A label that depends on an unknown high name is high. */
  lemma DependsOnHigh(P: Policy, ob: Observer, t: State, x: Name, y: Name)
    requires WellformedTypes(P, ob) && Fits(t, P.context.width)
    requires x in DepExprs(NameType(P.types, y)) && !Sees(P, ob, t, x)
    ensures !Low(P, ob, t, y)
  {
    assert Upward(P, ob, NameType(P.types, y));
  }

  /** What nothing depends on, or is not seen, shows nothing when it changes. */
  lemma HighTargetShowsNothing(P: Policy, ob: Observer, s: State, x: Name, v: nat)
    requires WellformedTypes(P, ob) && Fits(s[x := v], P.context.width)
    requires x in P.context.tracked ==> x !in DepExprs(NameType(P.types, x)) && !Sees(P, ob, s, x)
    ensures ShowsNothing(P, ob, s, x, v)
  {
    forall y | Sees(P, ob, s[x := v], y) ensures Sees(P, ob, s, y) {
      if y !in ob.known {
        if x in DepExprs(NameType(P.types, y)) {
          LabelFrame(P.lattice, NameType(P.types, x), s, s[x := v]);
          DependsOnHigh(P, ob, s[x := v], x, y);
        } else {
          LabelFrame(P.lattice, NameType(P.types, y), s, s[x := v]);
        }
      }
    }
  }

  lemma EligibleKeepsLabels(P: Policy, ob: Observer, a: Stmt, F: Facts, s: State)
    requires a.Assign? || a.AssignNB?
    requires EligibleAssign(P, ob, a, F) && Fits(s, P.context.width) && AllHold(P.context, F.hyps, s)
    ensures a.lval in P.context.tracked + ob.known ==>
              a.lval !in DepExprs(NameType(P.types, a.lval)) && KeepsLabels(P, ob, a, s)
  {
  }

  /** An eligible assignment shows nothing, now or when it is committed. */
  lemma AssignShowsNothing(P: Policy, ob: Observer, a: Stmt, F: Facts, s: State)
    requires a.Assign? || a.AssignNB?
    requires WellformedTypes(P, ob) && EligibleAssign(P, ob, a, F)
    requires Fits(s, P.context.width) && AllHold(P.context, F.hyps, s)
    ensures var v := Stored(P.context, a.lval, a.rval, s);
            if a.Assign? then ShowsNothing(P, ob, s, a.lval, v) else NeverShows(P, ob, a.lval, v)
    ensures a.lval in ob.known ==> Low(P, ob, s, a.lval)
  {
    var x, v := a.lval, Stored(P.context, a.lval, a.rval, s);
    EligibleKeepsLabels(P, ob, a, F, s);
    if a.AssignNB? {
      UpdateNeverShows(P, ob, x, v);
    } else if !(x in P.context.tracked && Low(P, ob, s, x)) {
      StoredFits(P.context, s, x, v);
      HighTargetShowsNothing(P, ob, s, x, v);
    }
  }

  lemma UpdateNeverShows(P: Policy, ob: Observer, x: Name, v: nat)
    requires WellformedTypes(P, ob) && v < Pow2(P.context.width(x))
    requires x in P.context.tracked ==> x !in DepExprs(NameType(P.types, x)) && UpdateShowsNothing(P, ob, x, v)
    ensures NeverShows(P, ob, x, v)
  {
    forall t: State | Fits(t, P.context.width) ensures ShowsNothing(P, ob, t, x, v) {
      if !(x in P.context.tracked && Sees(P, ob, t, x)) {
        StoredFits(P.context, t, x, v);
        HighTargetShowsNothing(P, ob, t, x, v);
      }
    }
  }

  /** A checked assignment to a low target computes the same value in states that are alike. */
  lemma {:induction false} LowTargetSameValue(P: Policy, ob: Observer, x: Name, e: Expr, F: Facts, pc: SecType,
                                              o: Outcome, q: Outcome)
    requires IsLattice(P.lattice) && CallFree(e) && Trusted(P.context, TranslateArm(x, e))
    requires CheckedRhs(P, x, e, F, pc) && GoodState(P, F, o)
    requires SameView(P, ob, o.now, q.now) && Low(P, ob, o.now, x)
    ensures Eval(P.context.interp, e, o.now) == Eval(P.context.interp, e, q.now)
    decreases e
  {
    if e.Ternary? {
      var T, b := ArmFacts(P, x, e, F, o.now);
      var ty := ExprType(P.types, e.cond).value;
      var arm := if b then e.tru else e.fal;
      PcIsUpper(P, ty, pc, o.now);
      PcFlowsToTarget(P, x, arm, T, BranchPc(ty, pc), o.now);
      LowCondSame(P, ob, e.cond, o.now, q.now);
      LowTargetSameValue(P, ob, x, arm, T, BranchPc(ty, pc), o, q);
    } else {
      var ty := ExprType(P.types, e).value;
      JoinIsUpper(P.lattice, LabelIn(P.lattice, ty, o.now), LabelIn(P.lattice, pc, o.now));
      LowCondSame(P, ob, e, o.now, q.now);
    }
  }

  lemma LowCondSame(P: Policy, ob: Observer, e: Expr, s: State, t: State)
    requires IsLattice(P.lattice) && CallFree(e) && ExprType(P.types, e).Some?
    requires IsLow(P, ob, ExprType(P.types, e).value, s) && SameView(P, ob, s, t)
    ensures Eval(P.context.interp, e, s) == Eval(P.context.interp, e, t)
  {
    forall y | P.lattice.leq(LabelIn(P.lattice, NameType(P.types, y), s), ob.level) ensures Get(s, y) == Get(t, y) {
      assert Sees(P, ob, s, y);
    }
    ExprNoninterference(P.context.interp, P.lattice, P.types, ob.level, e, s, t);
  }

  /** Storing values that agree where the observer looks keeps states alike, if it shows nothing. */
  lemma StoreKeepsEquivalence(P: Policy, ob: Observer, o: Outcome, q: Outcome, x: Name, v: nat, u: nat)
    requires LowEquivalent(P, ob, o, q)
    requires ShowsNothing(P, ob, o.now, x, v) && ShowsNothing(P, ob, q.now, x, u)
    requires Sees(P, ob, o.now, x) || Sees(P, ob, q.now, x) ==> v == u
    ensures LowEquivalent(P, ob, o.(now := o.now[x := v]), q.(now := q.now[x := u]))
  {
    var s, t := o.now[x := v], q.now[x := u];
    forall y | Sees(P, ob, s, y) || Sees(P, ob, t, y)
      ensures Get(s, y) == Get(t, y) && SamePending(o.pending, q.pending, y)
    {
      assert Sees(P, ob, o.now, y) || Sees(P, ob, q.now, y);
    }
  }

  lemma UpdateKeepsEquivalence(P: Policy, ob: Observer, o: Outcome, q: Outcome, x: Name, v: nat, u: nat)
    requires LowEquivalent(P, ob, o, q)
    requires Sees(P, ob, o.now, x) || Sees(P, ob, q.now, x) ==> v == u
    ensures LowEquivalent(P, ob, o.(pending := o.pending[x := v]), q.(pending := q.pending[x := u]))
  {
  }

  /** The two values assigned are the same where the observer looks. */
  lemma SeenTargetSameValue(P: Policy, ob: Observer, s: Stmt, F: Facts, pc: SecType, o: Outcome, q: Outcome)
    requires s.Assign? || s.AssignNB?
    requires Ready(P, ob, s, F, pc, o) && Ready(P, ob, s, F, pc, q) && LowEquivalent(P, ob, o, q)
    ensures Sees(P, ob, o.now, s.lval) || Sees(P, ob, q.now, s.lval) ==>
              Stored(P.context, s.lval, s.rval, o.now) == Stored(P.context, s.lval, s.rval, q.now)
  {
    SeesSame(P, ob, o.now, q.now, s.lval);
    AssignShowsNothing(P, ob, s, F, o.now);
    if Low(P, ob, o.now, s.lval) {
      LowTargetSameValue(P, ob, s.lval, s.rval, F, pc, o, q);
    }
  }

  lemma AssignSameForObserver(P: Policy, ob: Observer, s: Stmt, F: Facts, pc: SecType, o: Outcome, q: Outcome)
    requires s.Assign? || s.AssignNB?
    requires Ready(P, ob, s, F, pc, o) && Ready(P, ob, s, F, pc, q) && LowEquivalent(P, ob, o, q)
    ensures LowEquivalent(P, ob, Exec(P.context, s, o), Exec(P.context, s, q))
  {
    var x, e := s.lval, s.rval;
    var v, u := Stored(P.context, x, e, o.now), Stored(P.context, x, e, q.now);
    SeenTargetSameValue(P, ob, s, F, pc, o, q);
    if s.Assign? {
      AssignShowsNothing(P, ob, s, F, o.now);
      AssignShowsNothing(P, ob, s, F, q.now);
      StoreKeepsEquivalence(P, ob, o, q, x, v, u);
    } else {
      UpdateKeepsEquivalence(P, ob, o, q, x, v, u);
    }
  }

  // ----- runs under a high pc -----

  /** Under a pc that is not low, neither is the target: the assignment changes nothing the observer sees. */
  lemma AssignIsConfined(P: Policy, ob: Observer, s: Stmt, F: Facts, pc: SecType, o: Outcome)
    requires s.Assign? || s.AssignNB?
    requires Ready(P, ob, s, F, pc, o) && !IsLow(P, ob, pc, o.now)
    ensures LowEquivalent(P, ob, o, Exec(P.context, s, o))
  {
    AssignShowsNothing(P, ob, s, F, o.now);
    HighTarget(P, ob, s, F, pc, o);
    if s.Assign? {
      assert ShowsNothing(P, ob, o.now, s.lval, Stored(P.context, s.lval, s.rval, o.now));
    }
  }

  lemma HighTarget(P: Policy, ob: Observer, s: Stmt, F: Facts, pc: SecType, o: Outcome)
    requires s.Assign? || s.AssignNB?
    requires Ready(P, ob, s, F, pc, o) && !IsLow(P, ob, pc, o.now)
    requires s.lval in ob.known ==> Low(P, ob, o.now, s.lval)
    ensures !Sees(P, ob, o.now, s.lval)
  {
    PcFlowsToTarget(P, s.lval, s.rval, F, pc, o.now);
  }

  lemma HighBranchPc(P: Policy, ob: Observer, ty: SecType, pc: SecType, s: State)
    requires IsLattice(P.lattice) && (!IsLow(P, ob, ty, s) || !IsLow(P, ob, pc, s))
    ensures !IsLow(P, ob, BranchPc(ty, pc), s)
  {
    PcIsUpper(P, ty, pc, s);
  }

  /** Under a pc that is not low, a checked statement changes nothing an observer at the level sees. */
  lemma {:induction false} Confinement(P: Policy, ob: Observer, s: Stmt, F: Facts, pc: SecType, o: Outcome)
    requires Ready(P, ob, s, F, pc, o) && Upward(P, ob, pc) && !IsLow(P, ob, pc, o.now)
    ensures LowEquivalent(P, ob, o, Exec(P.context, s, o))
    decreases s, 1
  {
    match s
    case Absent =>
    case Assign(x, e) => AssignIsConfined(P, ob, s, F, pc, o);
    case AssignNB(x, e) => AssignIsConfined(P, ob, s, F, pc, o);
    case Block(ss) => ConfinementAll(P, ob, ss, F, pc, o);
    case If(c, t, f) =>
      var T := ReadyBranch(P, ob, s, F, pc, o);
      HighTaken(P, ob, Taken(P.context, s, o), T, c, pc, o);
    case Case(e, items) =>
      var T := ReadyCase(P, ob, s, F, pc, o);
      var k := ChosenBy(P.context, s, o);
      if k < |items| {
        HighTaken(P, ob, items[k].body, T, e, pc, o);
      }
  }

  /** The same for what is run under a condition or a selector e, if that or the pc outside is not low. */
  lemma {:induction false} HighTaken(P: Policy, ob: Observer, taken: Stmt, T: Facts, e: Expr, pc: SecType, o: Outcome)
    requires WellformedTypes(P, ob) && Upward(P, ob, pc) && ExprType(P.types, e).Some?
    requires var ty := ExprType(P.types, e).value;
             && (taken != Absent ==> Ready(P, ob, taken, T, BranchPc(ty, pc), o))
             && (!IsLow(P, ob, ty, o.now) || !IsLow(P, ob, pc, o.now))
    ensures LowEquivalent(P, ob, o, Exec(P.context, taken, o))
    decreases taken, 2
  {
    if taken != Absent {
      var ty := ExprType(P.types, e).value;
      HighBranchPc(P, ob, ty, pc, o.now);
      ExprUpward(P, ob, e);
      UpwardBranchPc(P, ob, ty, pc);
      Confinement(P, ob, taken, T, BranchPc(ty, pc), o);
    }
  }

  lemma {:induction false} ConfinementAll(P: Policy, ob: Observer, ss: seq<Stmt>, F: Facts, pc: SecType, o: Outcome)
    requires ReadyAll(P, ob, ss, F, pc, o) && Upward(P, ob, pc) && !IsLow(P, ob, pc, o.now)
    ensures LowEquivalent(P, ob, o, ExecAll(P.context, ss, o))
    ensures Fits(ExecAll(P.context, ss, o).now, P.context.width)
    decreases ss, 0
  {
    if ss != [] {
      var p := Exec(P.context, ss[0], o);
      Confinement(P, ob, ss[0], F, pc, o);
      RunFits(P, ob, ss[0], F, pc, o);
      LowInBoth(P, ob, pc, o.now, p.now);
      ConfinementAll(P, ob, ss[1..], Analyze(P.context, P.alloc, ss[0], F), pc, p);
      EquivalentTransitive(P, ob, o, p, ExecAll(P.context, ss[1..], p));
    }
  }

  // ----- noninterference -----

  /** Two runs that take different ways under a high pc each leave the observer's view as it was. */
  lemma HighBranches(P: Policy, ob: Observer, s: Stmt, F: Facts, pc: SecType, o: Outcome, q: Outcome)
    requires Ready(P, ob, s, F, pc, o) && Ready(P, ob, s, F, pc, q) && LowEquivalent(P, ob, o, q)
    requires LowEquivalent(P, ob, o, Exec(P.context, s, o)) && LowEquivalent(P, ob, q, Exec(P.context, s, q))
    ensures LowEquivalent(P, ob, Exec(P.context, s, o), Exec(P.context, s, q))
  {
    RunFits(P, ob, s, F, pc, o);
    RunFits(P, ob, s, F, pc, q);
    EquivalentSymmetric(P, ob, o, Exec(P.context, s, o));
    EquivalentTransitive(P, ob, Exec(P.context, s, o), o, q);
    EquivalentTransitive(P, ob, Exec(P.context, s, o), q, Exec(P.context, s, q));
  }

  /**
   * Noninterference: a process all of whose constraints are valid takes outcomes an observer cannot
   * tell apart to outcomes the observer cannot tell apart, in the values now and in the updates
   * that become visible in the next cycle.
   */
  lemma {:induction false} ProcessNoninterference(P: Policy, ob: Observer, s: Stmt, F: Facts, pc: SecType,
                                                  o: Outcome, q: Outcome)
    requires Ready(P, ob, s, F, pc, o) && Ready(P, ob, s, F, pc, q) && Upward(P, ob, pc)
    requires LowEquivalent(P, ob, o, q)
    ensures LowEquivalent(P, ob, Exec(P.context, s, o), Exec(P.context, s, q))
    decreases s, 1
  {
    match s
    case Absent =>
    case Assign(x, e) => AssignSameForObserver(P, ob, s, F, pc, o, q);
    case AssignNB(x, e) => AssignSameForObserver(P, ob, s, F, pc, o, q);
    case Block(ss) => NoninterferenceAll(P, ob, ss, F, pc, o, q);
    case If(c, t, f) => BranchNoninterference(P, ob, s, F, pc, o, q);
    case Case(e, items) => CaseNoninterference(P, ob, s, F, pc, o, q);
  }

  lemma {:induction false} NoninterferenceAll(P: Policy, ob: Observer, ss: seq<Stmt>, F: Facts, pc: SecType,
                                              o: Outcome, q: Outcome)
    requires ReadyAll(P, ob, ss, F, pc, o) && ReadyAll(P, ob, ss, F, pc, q) && Upward(P, ob, pc)
    requires LowEquivalent(P, ob, o, q)
    ensures LowEquivalent(P, ob, ExecAll(P.context, ss, o), ExecAll(P.context, ss, q))
    decreases ss, 0
  {
    if ss != [] {
      ProcessNoninterference(P, ob, ss[0], F, pc, o, q);
      RunFits(P, ob, ss[0], F, pc, o);
      RunFits(P, ob, ss[0], F, pc, q);
      NoninterferenceAll(P, ob, ss[1..], Analyze(P.context, P.alloc, ss[0], F), pc,
                         Exec(P.context, ss[0], o), Exec(P.context, ss[0], q));
    }
  }

  /** Under a low condition or selector e both runs take the same way. */
  lemma {:induction false} LowTaken(P: Policy, ob: Observer, taken: Stmt, T: Facts, e: Expr, pc: SecType,
                                    o: Outcome, q: Outcome)
    requires WellformedTypes(P, ob) && Upward(P, ob, pc) && ExprType(P.types, e).Some? && LowEquivalent(P, ob, o, q)
    requires var pc' := BranchPc(ExprType(P.types, e).value, pc);
             taken != Absent ==> Ready(P, ob, taken, T, pc', o) && Ready(P, ob, taken, T, pc', q)
    ensures LowEquivalent(P, ob, Exec(P.context, taken, o), Exec(P.context, taken, q))
    decreases taken, 2
  {
    if taken != Absent {
      ExprUpward(P, ob, e);
      UpwardBranchPc(P, ob, ExprType(P.types, e).value, pc);
      ProcessNoninterference(P, ob, taken, T, BranchPc(ExprType(P.types, e).value, pc), o, q);
    }
  }

  lemma {:induction false} BranchNoninterference(P: Policy, ob: Observer, s: Stmt, F: Facts, pc: SecType,
                                                 o: Outcome, q: Outcome)
    requires s.If? && Ready(P, ob, s, F, pc, o) && Ready(P, ob, s, F, pc, q) && Upward(P, ob, pc)
    requires LowEquivalent(P, ob, o, q)
    ensures LowEquivalent(P, ob, Exec(P.context, s, o), Exec(P.context, s, q))
    decreases s, 0
  {
    var c, C := s.cond, P.context;
    var To := ReadyBranch(P, ob, s, F, pc, o);
    var Tq := ReadyBranch(P, ob, s, F, pc, q);
    ExprUpward(P, ob, c);
    LowInBoth(P, ob, ExprType(P.types, c).value, o.now, q.now);
    if IsLow(P, ob, ExprType(P.types, c).value, o.now) {
      LowCondSame(P, ob, c, o.now, q.now);
      LowTaken(P, ob, Taken(C, s, o), To, c, pc, o, q);
    } else {
      HighTaken(P, ob, Taken(C, s, o), To, c, pc, o);
      HighTaken(P, ob, Taken(C, s, q), Tq, c, pc, q);
      HighBranches(P, ob, s, F, pc, o, q);
    }
  }

  lemma {:induction false} CaseNoninterference(P: Policy, ob: Observer, s: Stmt, F: Facts, pc: SecType, o: Outcome,
                                               q: Outcome)
    requires s.Case? && Ready(P, ob, s, F, pc, o) && Ready(P, ob, s, F, pc, q) && Upward(P, ob, pc)
    requires LowEquivalent(P, ob, o, q)
    ensures LowEquivalent(P, ob, Exec(P.context, s, o), Exec(P.context, s, q))
    decreases s, 0
  {
    var e, items, C := s.sel, s.items, P.context;
    var j, k := ChosenBy(C, s, o), ChosenBy(C, s, q);
    var To := ReadyCase(P, ob, s, F, pc, o);
    var Tq := ReadyCase(P, ob, s, F, pc, q);
    ExprUpward(P, ob, e);
    LowInBoth(P, ob, ExprType(P.types, e).value, o.now, q.now);
    if IsLow(P, ob, ExprType(P.types, e).value, o.now) {
      LowCondSame(P, ob, e, o.now, q.now);
      NumericChoice(C, Eval(C.interp, e, o.now), items, o.now, q.now);
      if k < |items| { LowTaken(P, ob, items[k].body, To, e, pc, o, q); }
    } else {
      if j < |items| { HighTaken(P, ob, items[j].body, To, e, pc, o); }
      if k < |items| { HighTaken(P, ob, items[k].body, Tq, e, pc, q); }
      HighBranches(P, ob, s, F, pc, o, q);
    }
  }

  // ----- cycles -----

  /** The state the next cycle starts in. */
  function Committed(o: Outcome): State {
    o.now + o.pending
  }

  /** Pending updates fit and will show nothing. */
  ghost predicate GoodUpdates(P: Policy, ob: Observer, pending: State) {
    && Fits(pending, P.context.width)
    && forall x | x in pending :: NeverShows(P, ob, x, pending[x])
  }

  lemma UpdateIsGood(P: Policy, ob: Observer, s: Stmt, F: Facts, pc: SecType, o: Outcome)
    requires s.AssignNB? && Ready(P, ob, s, F, pc, o) && GoodUpdates(P, ob, o.pending)
    ensures GoodUpdates(P, ob, Exec(P.context, s, o).pending)
  {
    AssignShowsNothing(P, ob, s, F, o.now);
  }

  lemma {:induction false} UpdatesStayGood(P: Policy, ob: Observer, s: Stmt, F: Facts, pc: SecType, o: Outcome)
    requires Ready(P, ob, s, F, pc, o) && GoodUpdates(P, ob, o.pending)
    ensures GoodUpdates(P, ob, Exec(P.context, s, o).pending)
    decreases s, 0
  {
    match s
    case Absent =>
    case Assign(x, e) =>
    case AssignNB(x, e) => UpdateIsGood(P, ob, s, F, pc, o);
    case Block(ss) => UpdatesStayGoodAll(P, ob, ss, F, pc, o);
    case If(c, t, f) =>
      var T := ReadyBranch(P, ob, s, F, pc, o);
      var taken := Taken(P.context, s, o);
      if taken != Absent {
        UpdatesStayGood(P, ob, taken, T, BranchPc(ExprType(P.types, c).value, pc), o);
      }
    case Case(e, items) =>
      var T := ReadyCase(P, ob, s, F, pc, o);
      var k := ChosenBy(P.context, s, o);
      if k < |items| {
        UpdatesStayGood(P, ob, items[k].body, T, BranchPc(ExprType(P.types, e).value, pc), o);
      }
  }

  lemma {:induction false} UpdatesStayGoodAll(P: Policy, ob: Observer, ss: seq<Stmt>, F: Facts, pc: SecType, o: Outcome)
    requires ReadyAll(P, ob, ss, F, pc, o) && GoodUpdates(P, ob, o.pending)
    ensures GoodUpdates(P, ob, ExecAll(P.context, ss, o).pending)
    decreases ss, 0
  {
    if ss != [] {
      UpdatesStayGood(P, ob, ss[0], F, pc, o);
      RunFits(P, ob, ss[0], F, pc, o);
      UpdatesStayGoodAll(P, ob, ss[1..], Analyze(P.context, P.alloc, ss[0], F), pc, Exec(P.context, ss[0], o));
    }
  }

  lemma FittingUpdates(s: State, pending: State, width: Name -> nat)
    requires Fits(s, width) && Fits(pending, width)
    ensures Fits(s + pending, width)
  {
  }

  /** One update taken off. */
  lemma RestOfUpdates(P: Policy, ob: Observer, s: State, pending: State, x: Name)
    requires GoodUpdates(P, ob, pending) && x in pending
    ensures GoodUpdates(P, ob, pending - {x}) && s + pending == (s + (pending - {x}))[x := pending[x]]
  {
    var rest := pending - {x};
    assert forall y | y in rest :: y in pending && rest[y] == pending[y];
  }

  lemma OneUpdate(P: Policy, ob: Observer, t: State, x: Name, v: nat, y: Name)
    requires NeverShows(P, ob, x, v) && Fits(t, P.context.width) && Sees(P, ob, t[x := v], y)
    ensures Sees(P, ob, t, y)
  {
    assert ShowsNothing(P, ob, t, x, v);
  }

  /** Committing good updates shows no name. */
  lemma {:induction false} CommitShowsNothing(P: Policy, ob: Observer, s: State, pending: State, y: Name)
    requires Fits(s, P.context.width) && GoodUpdates(P, ob, pending) && Sees(P, ob, s + pending, y)
    ensures Sees(P, ob, s, y)
    decreases |pending|
  {
    if pending == map[] {
      assert s + pending == s;
    } else {
      var x :| x in pending;
      var t := s + (pending - {x});
      RestOfUpdates(P, ob, s, pending, x);
      FittingUpdates(s, pending - {x}, P.context.width);
      OneUpdate(P, ob, t, x, pending[x], y);
      CommitShowsNothing(P, ob, s, pending - {x}, y);
    }
  }

  lemma CommitKeepsView(P: Policy, ob: Observer, o: Outcome, q: Outcome)
    requires LowEquivalent(P, ob, o, q)
    requires Fits(o.now, P.context.width) && GoodUpdates(P, ob, o.pending)
    requires Fits(q.now, P.context.width) && GoodUpdates(P, ob, q.pending)
    ensures SameView(P, ob, Committed(o), Committed(q))
  {
    forall x | Sees(P, ob, Committed(o), x) || Sees(P, ob, Committed(q), x)
      ensures Get(Committed(o), x) == Get(Committed(q), x)
    {
      if Sees(P, ob, Committed(o), x) {
        CommitShowsNothing(P, ob, o.now, o.pending, x);
      } else {
        CommitShowsNothing(P, ob, q.now, q.pending, x);
      }
    }
  }

  /** An always process starts from no facts, under the bottom pc, with no updates pending. */
  function Cycle(P: Policy, s: Stmt, st: State): State {
    Committed(Exec(P.context, s, Outcome(st, map[])))
  }

  function Cycles(P: Policy, s: Stmt, st: State, n: nat): State {
    Iterate(st => Cycle(P, s, st), st, n)
  }

  function Iterate<T>(f: T -> T, a: T, n: nat): T {
    if n == 0 then a else Iterate(f, f(a), n - 1)
  }

  /** What one step keeps of two runs, any number of steps keep. */
  lemma {:induction false} IterateKeeps<T(!new)>(f: T -> T, r: (T, T) -> bool, a: T, b: T, n: nat)
    requires r(a, b) && forall c, d | r(c, d) :: r(f(c), f(d))
    ensures r(Iterate(f, a, n), Iterate(f, b, n))
  {
    if n > 0 {
      IterateKeeps(f, r, f(a), f(b), n - 1);
    }
  }

  ghost predicate CheckedAlways(P: Policy, ob: Observer, s: Stmt) {
    CheckedProcess(P, ob, s, Facts(0, []), BOT)
  }

  /** A run of a whole cycle keeps values within their widths, and its updates are good. */
  lemma CycleFits(P: Policy, ob: Observer, s: Stmt, st: State)
    requires CheckedAlways(P, ob, s) && Fits(st, P.context.width)
    ensures var o := Exec(P.context, s, Outcome(st, map[]));
            Fits(o.now, P.context.width) && GoodUpdates(P, ob, o.pending)
    ensures Fits(Cycle(P, s, st), P.context.width)
  {
    var o := Outcome(st, map[]);
    UpdatesStayGood(P, ob, s, Facts(0, []), BOT, o);
    RunFits(P, ob, s, Facts(0, []), BOT, o);
    FittingUpdates(Exec(P.context, s, o).now, Exec(P.context, s, o).pending, P.context.width);
  }

  /** A whole cycle takes states an observer cannot tell apart to such states, and keeps values within their widths. */
  lemma CycleNoninterference(P: Policy, ob: Observer, s: Stmt, st: State, tt: State)
    requires CheckedAlways(P, ob, s)
    requires Fits(st, P.context.width) && Fits(tt, P.context.width) && SameView(P, ob, st, tt)
    ensures SameView(P, ob, Cycle(P, s, st), Cycle(P, s, tt))
    ensures Fits(Cycle(P, s, st), P.context.width) && Fits(Cycle(P, s, tt), P.context.width)
  {
    var o, q := Outcome(st, map[]), Outcome(tt, map[]);
    ProcessNoninterference(P, ob, s, Facts(0, []), BOT, o, q);
    CycleFits(P, ob, s, st);
    CycleFits(P, ob, s, tt);
    CommitKeepsView(P, ob, Exec(P.context, s, o), Exec(P.context, s, q));
  }

  /** So for any number of cycles. */
  lemma CyclesNoninterference(P: Policy, ob: Observer, s: Stmt, st: State, tt: State, n: nat)
    requires CheckedAlways(P, ob, s)
    requires Fits(st, P.context.width) && Fits(tt, P.context.width) && SameView(P, ob, st, tt)
    ensures SameView(P, ob, Cycles(P, s, st, n), Cycles(P, s, tt, n))
  {
    var f := st => Cycle(P, s, st);
    var alike := (st, tt) => Fits(st, P.context.width) && Fits(tt, P.context.width) && SameView(P, ob, st, tt);
    forall st, tt | alike(st, tt) ensures alike(f(st), f(tt)) {
      CycleNoninterference(P, ob, s, st, tt);
    }
    IterateKeeps(f, alike, st, tt, n);
  }

  // ----- labels that do not depend on anything -----

  /** No calls anywhere, and numbers as case labels. */
  predicate PlainProcess(s: Stmt)
    decreases s, 0
  {
    match s
    case Absent => true
    case Assign(x, e) => CallFree(e)
    case AssignNB(x, e) => CallFree(e)
    case Block(ss) => PlainProcesses(ss)
    case If(c, t, f) => CallFree(c) && PlainProcess(t) && PlainProcess(f)
    case Case(e, items) => CallFree(e) && NumericLabels(items) && PlainItems(items)
  }

  predicate PlainProcesses(ss: seq<Stmt>)
    decreases ss, 0
  {
    ss == [] || (PlainProcess(ss[0]) && PlainProcesses(ss[1..]))
  }

  predicate PlainItems(items: seq<CaseItem>)
    decreases items, 0
  {
    items == [] || (PlainProcess(items[0].body) && PlainItems(items[1..]))
  }

  lemma {:induction false} StaticIsEligible(P: Policy, ob: Observer, s: Stmt, F: Facts)
    requires P.context.tracked == {} && ob.known == {} && PlainProcess(s)
    ensures Eligible(P, ob, s, F)
    decreases s, 0
  {
    match s
    case Absent =>
    case Assign(x, e) =>
    case AssignNB(x, e) =>
    case Block(ss) => StaticAllEligible(P, ob, ss, F);
    case If(c, t, f) =>
      var G := F.(count := AfterTrue(P.context, P.alloc, s, F).count);
      StaticIsEligible(P, ob, t, Add(P.alloc, F, BranchFact(P.context, s, true)));
      StaticIsEligible(P, ob, f, Add(P.alloc, G, BranchFact(P.context, s, false)));
    case Case(e, items) => StaticItemsEligible(P, ob, e, items, F);
  }

  lemma {:induction false} StaticAllEligible(P: Policy, ob: Observer, ss: seq<Stmt>, F: Facts)
    requires P.context.tracked == {} && ob.known == {} && PlainProcesses(ss)
    ensures EligibleAll(P, ob, ss, F)
    decreases ss, 0
  {
    if ss != [] {
      StaticIsEligible(P, ob, ss[0], F);
      StaticAllEligible(P, ob, ss[1..], Analyze(P.context, P.alloc, ss[0], F));
    }
  }

  lemma {:induction false} StaticItemsEligible(P: Policy, ob: Observer, e: Expr, items: seq<CaseItem>, F: Facts)
    requires P.context.tracked == {} && ob.known == {} && PlainItems(items)
    ensures EligibleItems(P, ob, e, items, F)
    decreases items, 0
  {
    if items != [] {
      var G := LabelFacts(P.context, P.alloc, e, items[0].labels, F);
      StaticIsEligible(P, ob, items[0].body, G);
      StaticItemsEligible(P, ob, e, items[1..], Analyze(P.context, P.alloc, items[0].body, G));
    }
  }

  /**
   * If no label depends on a value, passing the checks is enough: any number of cycles keep what an
   * observer of any level cannot tell apart.
   */
  lemma StaticNoninterference(P: Policy, level: Label, s: Stmt, st: State, tt: State, n: nat)
    requires IsLattice(P.lattice) && P.context.tracked == {} && DepsTracked(P) && PlainProcess(s)
    requires Trusted(P.context, s) && TrustedRhs(P.context, s) && NothingLeaks(P.context, s)
    requires Checked(P, s, Facts(0, []), BOT)
    requires Fits(st, P.context.width) && Fits(tt, P.context.width) && SameView(P, Observer(level, {}), st, tt)
    ensures SameView(P, Observer(level, {}), Cycles(P, s, st, n), Cycles(P, s, tt, n))
  {
    var ob := Observer(level, {});
    forall x ensures DepExprs(NameType(P.types, x)) == {} {
    }
    assert WellformedTypes(P, ob);
    StaticIsEligible(P, ob, s, Facts(0, []));
    CyclesNoninterference(P, ob, s, st, tt, n);
  }

  // ----- assignments that lower labels -----

  /** Storing v in n takes states an observer cannot tell apart to such states. */
  ghost predicate KeepsView(P: Policy, ob: Observer, n: Name, v: nat) {
    forall s, t | Fits(s, P.context.width) && Fits(t, P.context.width) && SameView(P, ob, s, t) ::
      SameView(P, ob, s[n := v], t[n := v])
  }

  /** Storing v in n brings y, which is not low in s, down to the level. */
  ghost predicate Lowers(P: Policy, ob: Observer, n: Name, v: nat, s: State, y: Name) {
    Low(P, ob, s[n := v], y) && !Low(P, ob, s, y)
  }

  /** Names whose change tells the observer something: unknown ones that can hold two values. */
  predicate Secret(P: Policy, ob: Observer, n: Name, y: Name) {
    y !in ob.known && y != n && P.context.width(y) > 0
  }

  /** No label depends on its own name, but for known names. */
  predicate NoSelfDependence(P: Policy, ob: Observer) {
    forall y <- P.types :: y in ob.known || y !in DepExprs(P.types[y])
  }

  /** A name brought down to the level shows itself: two states alike before differ after. */
  lemma LoweredIsSeen(P: Policy, ob: Observer, n: Name, v: nat, s: State, y: Name) returns (t: State)
    requires NoSelfDependence(P, ob) && Fits(s, P.context.width)
    requires Secret(P, ob, n, y) && Lowers(P, ob, n, v, s, y)
    ensures Fits(t, P.context.width) && SameView(P, ob, s, t) && !SameView(P, ob, s[n := v], t[n := v])
  {
    t := s[y := if Get(s, y) == 0 then 1 else 0];
    LabelFrame(P.lattice, NameType(P.types, y), s, t);
    assert Sees(P, ob, s[n := v], y) && Get(s[n := v], y) != Get(t[n := v], y);
  }

  lemma StoreKeepsView(P: Policy, ob: Observer, n: Name, v: nat, s: State, t: State)
    requires Fits(s, P.context.width) && Fits(t, P.context.width) && SameView(P, ob, s, t)
    requires forall y | Secret(P, ob, n, y) :: !Lowers(P, ob, n, v, s, y) && !Lowers(P, ob, n, v, t, y)
    ensures SameView(P, ob, s[n := v], t[n := v])
  {
    var (s', t') := (s[n := v], t[n := v]);
    forall y | Sees(P, ob, s', y) || Sees(P, ob, t', y) ensures Get(s', y) == Get(t', y) {
      if Secret(P, ob, n, y) {
        assert !Lowers(P, ob, n, v, s, y) && !Lowers(P, ob, n, v, t, y);
        assert Sees(P, ob, s, y) || Sees(P, ob, t, y);
      } else if y in ob.known {
        assert Sees(P, ob, s, y);
      }
    }
  }

  /** Storing a number keeps the observer's view exactly when it brings no secret name down to the level. */
  lemma StoreKeepsViewExactly(P: Policy, ob: Observer, n: Name, v: nat)
    requires NoSelfDependence(P, ob)
    ensures KeepsView(P, ob, n, v)
            <==> forall s, y | Fits(s, P.context.width) && Secret(P, ob, n, y) :: !Lowers(P, ob, n, v, s, y)
  {
    if s: State, y: Name :| Fits(s, P.context.width) && Secret(P, ob, n, y) && Lowers(P, ob, n, v, s, y) {
      var t := LoweredIsSeen(P, ob, n, v, s, y);
    } else {
      forall s, t | Fits(s, P.context.width) && Fits(t, P.context.width) && SameView(P, ob, s, t)
        ensures SameView(P, ob, s[n := v], t[n := v])
      {
        StoreKeepsView(P, ob, n, v, s, t);
      }
    }
  }

  /** A number that fits is what an assignment of either kind stores, within a cycle. */
  lemma StoredNumber(P: Policy, n: Name, v: nat, s: State)
    requires v < Pow2(P.context.width(n))
    ensures Exec(P.context, Assign(n, Number(v)), Outcome(s, map[])).now == s[n := v]
    ensures Cycle(P, Assign(n, Number(v)), s) == Cycle(P, AssignNB(n, Number(v)), s) == s[n := v]
  {
    var C := P.context;
    ModSmall(v, Pow2(C.width(n)));
    assert Eval(C.interp, Number(v), s) == v;
    assert s + map[n := v] == s[n := v] && s[n := v] + map[] == s[n := v];
  }

  /** A cycle of s takes states an observer cannot tell apart to such states. */
  ghost predicate CycleKeepsView(P: Policy, ob: Observer, s: Stmt) {
    forall st, tt | Fits(st, P.context.width) && Fits(tt, P.context.width) && SameView(P, ob, st, tt) ::
      SameView(P, ob, Cycle(P, s, st), Cycle(P, s, tt))
  }

  /**
   * A cycle that assigns a number keeps the observer's view, blocking or not, exactly when it brings no
   * secret name down to the level.
   */
  lemma AssignKeepsViewExactly(P: Policy, ob: Observer, n: Name, v: nat, a: Stmt)
    requires a in {Assign(n, Number(v)), AssignNB(n, Number(v))}
    requires NoSelfDependence(P, ob) && v < Pow2(P.context.width(n))
    ensures CycleKeepsView(P, ob, a)
            <==> forall s, y | Fits(s, P.context.width) && Secret(P, ob, n, y) :: !Lowers(P, ob, n, v, s, y)
  {
    StoreKeepsViewExactly(P, ob, n, v);
    forall s: State ensures Cycle(P, a, s) == s[n := v] {
      StoredNumber(P, n, v, s);
    }
    assert CycleKeepsView(P, ob, a) <==> KeepsView(P, ob, n, v);
  }

  /** For a label that is a family of n: no value of n may give a label above the level if v does not. */
  lemma IndexLoweredExactly(P: Policy, ob: Observer, n: Name, v: nat, f: nat, y: Name)
    requires NameType(P.types, y) == Index(f, n)
    ensures (forall s | Fits(s, P.context.width) :: !Lowers(P, ob, n, v, s, y))
            <==> (P.lattice.leq(P.lattice.families(f, v), ob.level) ==>
                    forall a: nat | a < Pow2(P.context.width(n)) :: P.lattice.leq(P.lattice.families(f, a), ob.level))
  {
    if a: nat :| a < Pow2(P.context.width(n)) && !P.lattice.leq(P.lattice.families(f, a), ob.level) {
      var s: State := map[n := a];
      assert Fits(s, P.context.width) && !Low(P, ob, s, y);
      assert Lowers(P, ob, n, v, s, y) <==> P.lattice.leq(P.lattice.families(f, v), ob.level);
    } else {
      forall s | Fits(s, P.context.width) ensures Low(P, ob, s, y) {
        assert Get(s, n) < Pow2(P.context.width(n));
      }
    }
  }

  /**
   * The label checks do not look for that: n is low, x is high while n is 0 and low when n is 1.
   * The assignment n = 1 passes all checks, and shows x to an observer at the bottom.
   */
  lemma CheckedAssignmentCanLower(P: Policy, n: Name, x: Name, f: nat)
    requires IsLattice(P.lattice) && !P.lattice.leq(HIGH, LOW) && n != x
    requires P.lattice.families(f, 0) == HIGH && P.lattice.families(f, 1) == LOW
    requires P.types == map[n := BOT, x := Index(f, n)] && P.context.tracked == {n}
    requires P.context.width(n) > 0 && P.context.width(x) > 0
    ensures var (s, ob) := (Assign(n, Number(1)), Observer(LOW, {}));
            && WellformedTypes(P, ob)
            && Trusted(P.context, s) && TrustedRhs(P.context, s) && NothingLeaks(P.context, s)
            && Checked(P, s, Facts(0, []), BOT) && !CycleKeepsView(P, ob, s)
  {
    var ob := Observer(LOW, {});
    OneIndexWellformed(P, n, x, f);
    AssignLowers(P, n, x, f);
    LowAssignChecked(P, n);
  }

  lemma OneIndexWellformed(P: Policy, n: Name, x: Name, f: nat)
    requires IsLattice(P.lattice) && n != x && P.types == map[n := BOT, x := Index(f, n)] && P.context.tracked == {n}
    ensures WellformedTypes(P, Observer(LOW, {}))
  {
  }

  lemma AssignLowers(P: Policy, n: Name, x: Name, f: nat)
    requires IsLattice(P.lattice) && !P.lattice.leq(HIGH, LOW) && n != x
    requires P.lattice.families(f, 0) == HIGH && P.lattice.families(f, 1) == LOW
    requires P.types == map[n := BOT, x := Index(f, n)] && P.context.width(n) > 0 && P.context.width(x) > 0
    ensures !CycleKeepsView(P, Observer(LOW, {}), Assign(n, Number(1)))
  {
    var s: State := map[n := 0, x := 0];
    var ob := Observer(LOW, {});
    assert 1 < Pow2(P.context.width(n));
    AssignKeepsViewExactly(P, ob, n, 1, Assign(n, Number(1)));
    assert Fits(s, P.context.width) && Get(s[n := 1], n) == 1;
    assert Secret(P, ob, n, x) && Lowers(P, ob, n, 1, s, x);
  }

  /** A number may always flow to a low name. */
  lemma LowAssignChecked(P: Policy, n: Name)
    requires IsLattice(P.lattice) && NameType(P.types, n) == BOT && 1 < Pow2(P.context.width(n))
    ensures var s := Assign(n, Number(1));
            Trusted(P.context, s) && TrustedRhs(P.context, s) && Checked(P, s, Facts(0, []), BOT)
  {
    assert P.lattice.join(LOW, LOW) == LOW by { JoinIsLeast(P.lattice, LOW, LOW); }
    assert ExprType(P.types, Number(1)) == Some(BOT);
    assert Assign(n, Number(1)) == TranslateArm(n, Number(1));
  }
}
