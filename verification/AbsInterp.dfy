/**
 * The predicate analysis: which facts about the hardware state hold at each point of a process.
 * Assignments kill and generate facts, branches add their weakened condition, and a merge point
 * intersects the facts of both sides.
 */
module AbsInterp {
  import opened Prelude
  import opened PExpr
  import opened ExprText
  import opened Statement

  /** A fact, and the address of the object that holds it: sets of facts are ordered by address. */
  datatype Hypothesis = Hypothesis(addr: nat, bexpr: Expr)

  function Text(h: Hypothesis): seq<nat> {
    Dump(h.bexpr)
  }

  /** Insertion into a set ordered by address. */
  function Insert(H: seq<Hypothesis>, h: Hypothesis): seq<Hypothesis> {
    if H == [] || h.addr < H[0].addr then [h] + H
    else if h.addr == H[0].addr then H
    else [H[0]] + Insert(H[1..], h)
  }

  /** The facts that say nothing about x. */
  function Invalidated(H: seq<Hypothesis>, x: Name): seq<Hypothesis> {
    if H == [] then []
    else if Contains(H[0].bexpr, x) then Invalidated(H[1..], x)
    else [H[0]] + Invalidated(H[1..], x)
  }

  predicate IsTracked(C: Context, e: Expr) {
    e.Ident? && e.name in C.tracked
  }

  /** The fact a blocking assignment generates: only for a tracked target and a number or tracked source. */
  function AssignFact(C: Context, x: Name, e: Expr): Option<Expr> {
    if (e.Number? || IsTracked(C, e)) && x in C.tracked then Some(Binary(Eq, Ident(x), e)) else None
  }

  /** The fact a branch adds on entry. */
  function BranchFact(C: Context, s: Stmt, istrue: bool): Option<Expr>
    requires s.If?
  {
    if istrue && s.ifTrue != Absent then ToWellformed(s.cond, C.tracked)
    else if s.ifFalse != Absent && IsNegWellformed(s.cond, C.tracked) then
      WellformedExactlyWhenWeakened(s.cond, C.tracked);
      Some(Unary(Nor, NegToWellformed(s.cond, C.tracked).value))
    else None
  }

  function Merged(H: seq<Hypothesis>, G: seq<Hypothesis>): seq<Hypothesis> {
    Intersection(H, G, Text)
  }

  /** The facts and the number of objects allocated so far; alloc gives the address of each. */
  datatype Facts = Facts(count: nat, hyps: seq<Hypothesis>)

  function Add(alloc: nat -> nat, F: Facts, fact: Option<Expr>): Facts {
    match fact
    case None => F
    case Some(e) => Facts(F.count + 1, Insert(F.hyps, Hypothesis(alloc(F.count), e)))
  }

  /** The facts after a statement, from the facts before it. */
  function Analyze(C: Context, alloc: nat -> nat, s: Stmt, F: Facts): Facts
    decreases s, 0
  {
    match s
    case Absent => F
    case Assign(x, e) => Add(alloc, F.(hyps := Invalidated(F.hyps, x)), AssignFact(C, x, e))
    case AssignNB(x, e) => F
    case Block(ss) => AnalyzeAll(C, alloc, ss, F)
    case If(c, t, f) =>
      var T := AfterTrue(C, alloc, s, F);
      var E := AfterFalse(C, alloc, s, F.(count := T.count));
      Facts(E.count, Merged(T.hyps, E.hyps))
    case Case(e, items) => AnalyzeItems(C, alloc, e, items, F)
  }

  function AfterTrue(C: Context, alloc: nat -> nat, s: Stmt, F: Facts): Facts
    requires s.If?
    decreases s.ifTrue, 1
  {
    if s.ifTrue == Absent then F
    else Analyze(C, alloc, s.ifTrue, Add(alloc, F, BranchFact(C, s, true)))
  }

  function AfterFalse(C: Context, alloc: nat -> nat, s: Stmt, F: Facts): Facts
    requires s.If?
    decreases s.ifFalse, 1
  {
    if s.ifFalse == Absent then F
    else Analyze(C, alloc, s.ifFalse, Add(alloc, F, BranchFact(C, s, false)))
  }

  function AnalyzeAll(C: Context, alloc: nat -> nat, ss: seq<Stmt>, F: Facts): Facts
    decreases ss, 0
  {
    if ss == [] then F else AnalyzeAll(C, alloc, ss[1..], Analyze(C, alloc, ss[0], F))
  }

  /** One fact per label, when the selector is tracked. */
  function LabelFacts(C: Context, alloc: nat -> nat, e: Expr, labels: seq<Expr>, F: Facts): Facts {
    if labels == [] || !IsTracked(C, e) then F
    else LabelFacts(C, alloc, e, labels[1..], Add(alloc, F, Some(Binary(Eq, e, labels[0]))))
  }

  /**
   * Each item starts from the facts the one before it ended with: the assignment meant to restore
   * the facts from before the item leaves them as they are.
   */
  function AnalyzeItems(C: Context, alloc: nat -> nat, e: Expr, items: seq<CaseItem>, F: Facts): Facts
    decreases items, 0
  {
    if items == [] then F
    else AnalyzeItems(C, alloc, e, items[1..],
                      Analyze(C, alloc, items[0].body, LabelFacts(C, alloc, e, items[0].labels, F)))
  }

  /** From no facts, an assignment leaves the one it generates, alone. */
  lemma AssignLeaves(C: Context, alloc: nat -> nat, x: Name, e: Expr, count: nat)
    ensures var G := Analyze(C, alloc, Assign(x, e), Facts(count, []));
            G.hyps == if x in C.tracked && (e.Number? || (e.Ident? && e.name in C.tracked))
                      then [Hypothesis(alloc(count), Binary(Eq, Ident(x), e))] else []
  {
  }

  /** A branch is entered with what is left of its condition, or of its negation, next to the facts before. */
  lemma EnteredUnder(C: Context, alloc: nat -> nat, s: Stmt, count: nat)
    requires s.If?
    ensures s.ifTrue == Block([]) && InVocabulary(s.cond, C.tracked) ==>
              AfterTrue(C, alloc, s, Facts(count, [])).hyps == [Hypothesis(alloc(count), s.cond)]
    ensures s.ifFalse == Block([]) && InVocabulary(s.cond, C.tracked) ==>
              AfterFalse(C, alloc, s, Facts(count, [])).hyps == [Hypothesis(alloc(count), Unary(Nor, s.cond))]
  {
    WeakeningKeepsExactly(s.cond, C.tracked);
    WellformedExactlyWhenWeakened(s.cond, C.tracked);
  }

  // ----- when the analysis can be trusted -----

  /** A generated fact survives truncation to the target's width. */
  predicate FactFits(C: Context, x: Name, e: Expr) {
    AssignFact(C, x, e).Some? ==>
      match e
      case Number(n) => n < Pow2(C.width(x))
      case Ident(y) => C.width(y) <= C.width(x)
      case _ => true
  }

  /** Some blocking assignment, or some case label, in the statement generates a fact. */
  predicate Generates(C: Context, s: Stmt)
    decreases s, 0
  {
    match s
    case Assign(x, e) => AssignFact(C, x, e).Some?
    case Block(ss) => GeneratesAny(C, ss)
    case If(c, t, f) => Generates(C, t) || Generates(C, f)
    case Case(e, items) => GeneratesInItems(C, e, items)
    case _ => false
  }

  predicate GeneratesAny(C: Context, ss: seq<Stmt>)
    decreases ss, 0
  {
    ss != [] && (Generates(C, ss[0]) || GeneratesAny(C, ss[1..]))
  }

  predicate GeneratesInItems(C: Context, e: Expr, items: seq<CaseItem>)
    decreases items, 0
  {
    items != [] && ((IsTracked(C, e) && items[0].labels != []) || Generates(C, items[0].body)
                    || GeneratesInItems(C, e, items[1..]))
  }

  /** No item's labels generate facts. */
  predicate NoLabelFacts(C: Context, e: Expr, items: seq<CaseItem>) {
    forall i | 0 <= i < |items| :: IsTracked(C, e) ==> items[i].labels == []
  }

  predicate OnlyDefault(items: seq<CaseItem>) {
    |items| == 1 && items[0].labels == []
  }

  /** The item assigns n a number, which fits. */
  predicate AssignsNumber(C: Context, item: CaseItem, n: Name) {
    && item.body.Assign? && item.body.lval == n && item.body.rval.Number?
    && n in C.tracked && FactFits(C, n, item.body.rval)
  }

  /** Every item assigns n a number; the labels are numbers. */
  predicate AssignsNumbers(C: Context, items: seq<CaseItem>, n: Name) {
    NumericLabels(items) && forall i | 0 <= i < |items| :: AssignsNumber(C, items[i], n)
  }

  /** Selector value a chooses an item, and it does what the last item does. */
  predicate ChoosesLast(C: Context, items: seq<CaseItem>, a: nat) {
    var k := Chosen(C, a, items, map[]);
    k < |items| && items[k].body == items[|items| - 1].body
  }

  /** The items assign numbers to one name, and every value of the selector leads to the last number. */
  predicate Settles(C: Context, e: Expr, items: seq<CaseItem>) {
    && items != [] && items[0].body.Assign? && AssignsNumbers(C, items, items[0].body.lval)
    && e.Ident? && e.name != items[0].body.lval
    && forall a: nat | a < Pow2(C.width(e.name)) :: ChoosesLast(C, items, a)
  }

  predicate PlainItem(item: CaseItem) {
    forall j | 0 <= j < |item.labels| :: Plain(item.labels[j])
  }

  /** Labels that generate facts are plain. */
  predicate PlainLabels(C: Context, e: Expr, items: seq<CaseItem>) {
    forall i | 0 <= i < |items| :: IsTracked(C, e) ==> PlainItem(items[i])
  }

  /** Some item's body is an assignment to n, which kills the facts on it. */
  predicate Reassigns(items: seq<CaseItem>, n: Name) {
    items != [] && ((items[0].body.Assign? && items[0].body.lval == n) || Reassigns(items[1..], n))
  }

  /** Every fact an item generates, by its labels or as an assignment, is killed by a body after that. */
  predicate Forgets(C: Context, e: Expr, items: seq<CaseItem>) {
    items == [] ||
    (&& (IsTracked(C, e) && items[0].labels != [] ==> Reassigns(items, e.name))
     && (Generates(C, items[0].body) ==> items[0].body.Assign? && Reassigns(items[1..], items[0].body.lval))
     && Forgets(C, e, items[1..]))
  }

  /**
   * What a process must satisfy, checked on its text: generated facts fit; conditions do not lose
   * parts of compared operands; what stands under 'N' is plain. The facts of a case statement leak
   * from item to item: they are killed by a later item, or there is nothing to leak into, or all ways
   * through it end with the same number assigned.
   */
  predicate Trusted(C: Context, s: Stmt)
    decreases s, 0
  {
    match s
    case Assign(x, e) => FactFits(C, x, e)
    case Block(ss) => TrustedAll(C, ss)
    case If(c, t, f) =>
      && (t != Absent ==> ComparesExactly(c, C.tracked))
      && (f != Absent ==> NegComparesExactly(c, C.tracked))
      && NorsPlain(c) && Trusted(C, t) && Trusted(C, f)
    case Case(e, items) =>
      && PlainLabels(C, e, items) && TrustedItems(C, items)
      && (!GeneratesInItems(C, e, items) || OnlyDefault(items)
          || (NoLabelFacts(C, e, items) && Settles(C, e, items)) || Forgets(C, e, items))
    case _ => true
  }

  predicate TrustedAll(C: Context, ss: seq<Stmt>)
    decreases ss, 0
  {
    ss == [] || (Trusted(C, ss[0]) && TrustedAll(C, ss[1..]))
  }

  predicate TrustedItems(C: Context, items: seq<CaseItem>)
    decreases items, 0
  {
    items == [] || (Trusted(C, items[0].body) && TrustedItems(C, items[1..]))
  }

  /** No case item is reached with facts that labels or another item's body generated. */
  predicate NothingLeaks(C: Context, s: Stmt)
    decreases s, 0
  {
    match s
    case Block(ss) => NothingLeaksAll(C, ss)
    case If(c, t, f) => NothingLeaks(C, t) && NothingLeaks(C, f)
    case Case(e, items) =>
      && NoLabelFacts(C, e, items) && (!GeneratesInItems(C, e, items) || OnlyDefault(items))
      && NothingLeaksItems(C, items)
    case _ => true
  }

  predicate NothingLeaksAll(C: Context, ss: seq<Stmt>)
    decreases ss, 0
  {
    ss == [] || (NothingLeaks(C, ss[0]) && NothingLeaksAll(C, ss[1..]))
  }

  predicate NothingLeaksItems(C: Context, items: seq<CaseItem>)
    decreases items, 0
  {
    items == [] || (NothingLeaks(C, items[0].body) && NothingLeaksItems(C, items[1..]))
  }

  // ----- soundness -----

  predicate AllPlain(H: seq<Hypothesis>) {
    forall h <- H :: Plain(h.bexpr)
  }

  predicate AllHold(C: Context, H: seq<Hypothesis>, s: State) {
    forall h <- H :: Holds(C.interp, h.bexpr, s)
  }

  /** Facts the analysis may carry: plain, and true in the state, but for those with an excused text. */
  ghost predicate TrueBut(C: Context, F: Facts, excused: iset<seq<nat>>, s: State) {
    AllPlain(F.hyps) && forall h <- F.hyps :: Text(h) in excused || Holds(C.interp, h.bexpr, s)
  }

  ghost predicate True(C: Context, F: Facts, s: State) {
    TrueBut(C, F, iset{}, s)
  }

  lemma {:induction false} InsertAdds(H: seq<Hypothesis>, h: Hypothesis)
    ensures forall g <- Insert(H, h) :: g == h || g in H
  {
    if H != [] { InsertAdds(H[1..], h); }
  }

  lemma AddKeepsTruth(C: Context, alloc: nat -> nat, F: Facts, fact: Option<Expr>, excused: iset<seq<nat>>, s: State)
    requires TrueBut(C, F, excused, s)
    requires fact.Some? ==> Plain(fact.value) && (Dump(fact.value) in excused || Holds(C.interp, fact.value, s))
    ensures TrueBut(C, Add(alloc, F, fact), excused, s)
  {
    if fact.Some? {
      InsertAdds(F.hyps, Hypothesis(alloc(F.count), fact.value));
    }
  }

  lemma {:induction false} InvalidatedExactly(H: seq<Hypothesis>, x: Name)
    ensures forall h :: h in Invalidated(H, x) <==> h in H && !Contains(h.bexpr, x)
  {
    if H != [] { InvalidatedExactly(H[1..], x); }
  }

  /** What is left after a kill does not notice the assignment. */
  lemma KillIsSound(C: Context, F: Facts, x: Name, v: nat, excused: iset<seq<nat>>, s: State)
    requires TrueBut(C, F, excused, s)
    ensures TrueBut(C, F.(hyps := Invalidated(F.hyps, x)), excused, s[x := v])
  {
    InvalidatedExactly(F.hyps, x);
    forall h | h in Invalidated(F.hyps, x)
      ensures Text(h) in excused || Holds(C.interp, h.bexpr, s[x := v])
    {
      ContainsIsReading(h.bexpr, x);
      EvalFrame(C.interp, h.bexpr, s, s[x := v]);
    }
  }

  lemma AssignFactMeans(C: Context, x: Name, e: Expr, s: State)
    requires AssignFact(C, x, e).Some?
    ensures var t := s[x := Stored(C, x, e, s)];
            Holds(C.interp, AssignFact(C, x, e).value, t) <==> Get(t, x) == Eval(C.interp, e, t)
  {
    var t := s[x := Stored(C, x, e, s)];
    assert Eval(C.interp, Ident(x), t) == Get(t, x);
  }

  lemma SourceFits(C: Context, x: Name, e: Expr, s: State)
    requires AssignFact(C, x, e).Some? && FactFits(C, x, e) && Fits(s, C.width)
    ensures Eval(C.interp, e, s) < Pow2(C.width(x))
  {
    if e.Ident? {
      Pow2Monotone(C.width(e.name), C.width(x));
      assert Eval(C.interp, e, s) == Get(s, e.name) < Pow2(C.width(e.name));
    }
  }

  lemma FittingFactIsTrue(C: Context, x: Name, e: Expr, s: State)
    requires AssignFact(C, x, e).Some? && FactFits(C, x, e) && Fits(s, C.width)
    ensures Holds(C.interp, AssignFact(C, x, e).value, s[x := Stored(C, x, e, s)])
  {
    SourceFits(C, x, e, s);
    var v := Stored(C, x, e, s);
    ModSmall(Eval(C.interp, e, s), Pow2(C.width(x)));
    assert v == Eval(C.interp, e, s);
    AssignFactMeans(C, x, e, s);
    assert Eval(C.interp, e, s[x := v]) == v;
  }

  lemma ModSmall(v: nat, p: nat)
    requires v < p
    ensures v % p == v
  {
  }

  lemma UnfitFactIsFalse(C: Context, x: Name, e: Expr) returns (s: State)
    requires AssignFact(C, x, e).Some? && !FactFits(C, x, e)
    ensures Fits(s, C.width)
    ensures !Holds(C.interp, AssignFact(C, x, e).value, s[x := Stored(C, x, e, s)])
  {
    var p := Pow2(C.width(x));
    if e.Number? {
      s := map[];
    } else {
      s := map[e.name := p];
      Pow2Monotone(C.width(x) + 1, C.width(e.name));
      assert Eval(C.interp, e, s) == p;
    }
    AssignFactMeans(C, x, e, s);
    assert Stored(C, x, e, s) < p <= Eval(C.interp, e, s);
  }

  /**
   * The fact an assignment generates is true afterwards in every state whose values fit, exactly
   * when its source fits the target's width.
   */
  lemma AssignFactTrueExactlyWhenItFits(C: Context, x: Name, e: Expr)
    requires AssignFact(C, x, e).Some?
    ensures (forall s :: Fits(s, C.width) ==>
                Holds(C.interp, AssignFact(C, x, e).value, s[x := Stored(C, x, e, s)]))
            <==> FactFits(C, x, e)
  {
    if FactFits(C, x, e) {
      forall s: State | Fits(s, C.width)
        ensures Holds(C.interp, AssignFact(C, x, e).value, s[x := Stored(C, x, e, s)])
      {
        FittingFactIsTrue(C, x, e, s);
      }
    } else {
      var s := UnfitFactIsFalse(C, x, e);
    }
  }

  lemma BranchFactIsTrue(C: Context, s: Stmt, istrue: bool, st: State)
    requires s.If? && Trusted(C, s)
    requires istrue ==> s.ifTrue != Absent
    requires Holds(C.interp, s.cond, st) == istrue
    ensures var b := BranchFact(C, s, istrue); b.Some? ==> Plain(b.value) && Holds(C.interp, b.value, st)
  {
    var b := BranchFact(C, s, istrue);
    if b.Some? {
      WeakenedIsPlain(s.cond, C.tracked);
      WellformedExactlyWhenWeakened(s.cond, C.tracked);
      if istrue {
        WeakeningIsImplied(C.interp, s.cond, C.tracked, st);
      } else {
        NegWeakeningIsImplied(C.interp, s.cond, C.tracked, st);
      }
    }
  }

  /** Facts true on one of the two incoming paths survive the merge. */
  lemma MergeIsSound(C: Context, T: Facts, E: Facts, n: nat, excused: iset<seq<nat>>, s: State)
    requires AllPlain(T.hyps) && AllPlain(E.hyps)
    requires TrueBut(C, T, excused, s) || TrueBut(C, E, excused, s)
    ensures TrueBut(C, Facts(n, Merged(T.hyps, E.hyps)), excused, s)
  {
    IntersectionInBoth(T.hyps, E.hyps, Text);
    forall h | h in Merged(T.hyps, E.hyps)
      ensures Text(h) in excused || Holds(C.interp, h.bexpr, s)
    {
      var i :| 0 <= i < |E.hyps| && Text(E.hyps[i]) == Text(h);
      SameTextSameMeaning(C.interp, h.bexpr, E.hyps[i].bexpr, s);
      assert E.hyps[i] in E.hyps && h in T.hyps;
    }
  }

  lemma {:induction false} LabelFactsNone(C: Context, alloc: nat -> nat, e: Expr, labels: seq<Expr>, F: Facts)
    requires !(IsTracked(C, e) && labels != [])
    ensures LabelFacts(C, alloc, e, labels, F) == F
  {
  }

  // Plainness is kept whether or not the facts are true.

  lemma AddKeepsPlain(alloc: nat -> nat, F: Facts, fact: Option<Expr>)
    requires AllPlain(F.hyps) && (fact.Some? ==> Plain(fact.value))
    ensures AllPlain(Add(alloc, F, fact).hyps)
  {
    if fact.Some? {
      InsertAdds(F.hyps, Hypothesis(alloc(F.count), fact.value));
    }
  }

  lemma BranchFactIsPlain(C: Context, s: Stmt, istrue: bool)
    requires s.If? && Trusted(C, s)
    ensures BranchFact(C, s, istrue).Some? ==> Plain(BranchFact(C, s, istrue).value)
  {
    WeakenedIsPlain(s.cond, C.tracked);
    WellformedExactlyWhenWeakened(s.cond, C.tracked);
  }

  lemma {:induction false} FactsStayPlain(C: Context, alloc: nat -> nat, s: Stmt, F: Facts)
    requires Trusted(C, s) && AllPlain(F.hyps)
    ensures AllPlain(Analyze(C, alloc, s, F).hyps)
    ensures s.If? ==> AllPlain(AfterTrue(C, alloc, s, F).hyps) && AllPlain(AfterFalse(C, alloc, s, F).hyps)
    decreases s, 0
  {
    match s
    case Absent =>
    case AssignNB(x, e) =>
    case Assign(x, e) =>
      InvalidatedExactly(F.hyps, x);
      AddKeepsPlain(alloc, F.(hyps := Invalidated(F.hyps, x)), AssignFact(C, x, e));
    case Block(ss) => FactsStayPlainAll(C, alloc, ss, F);
    case If(c, t, f) =>
      var T := AfterTrue(C, alloc, s, F);
      var G := F.(count := T.count);
      BranchFactIsPlain(C, s, true);
      BranchFactIsPlain(C, s, false);
      AddKeepsPlain(alloc, F, BranchFact(C, s, true));
      AddKeepsPlain(alloc, F, BranchFact(C, s, false));
      AddKeepsPlain(alloc, G, BranchFact(C, s, false));
      FactsStayPlain(C, alloc, t, Add(alloc, F, BranchFact(C, s, true)));
      FactsStayPlain(C, alloc, f, Add(alloc, F, BranchFact(C, s, false)));
      FactsStayPlain(C, alloc, f, Add(alloc, G, BranchFact(C, s, false)));
      IntersectionInBoth(T.hyps, AfterFalse(C, alloc, s, G).hyps, Text);
    case Case(e, items) => FactsStayPlainItems(C, alloc, e, items, F);
  }

  lemma {:induction false} FactsStayPlainAll(C: Context, alloc: nat -> nat, ss: seq<Stmt>, F: Facts)
    requires TrustedAll(C, ss) && AllPlain(F.hyps)
    ensures AllPlain(AnalyzeAll(C, alloc, ss, F).hyps)
    decreases ss, 0
  {
    if ss != [] {
      FactsStayPlain(C, alloc, ss[0], F);
      FactsStayPlainAll(C, alloc, ss[1..], Analyze(C, alloc, ss[0], F));
    }
  }

  lemma {:induction false} FactsStayPlainItems(C: Context, alloc: nat -> nat, e: Expr, items: seq<CaseItem>, F: Facts)
    requires TrustedItems(C, items) && PlainLabels(C, e, items) && AllPlain(F.hyps)
    ensures AllPlain(AnalyzeItems(C, alloc, e, items, F).hyps)
    decreases items, 0
  {
    if items != [] {
      var G := LabelFacts(C, alloc, e, items[0].labels, F);
      LabelFactsPlain(C, alloc, e, items[0].labels, F);
      FactsStayPlain(C, alloc, items[0].body, G);
      FactsStayPlainItems(C, alloc, e, items[1..], Analyze(C, alloc, items[0].body, G));
    }
  }

  lemma {:induction false} LabelFactsPlain(C: Context, alloc: nat -> nat, e: Expr, labels: seq<Expr>, F: Facts)
    requires AllPlain(F.hyps) && (IsTracked(C, e) ==> forall j | 0 <= j < |labels| :: Plain(labels[j]))
    ensures AllPlain(LabelFacts(C, alloc, e, labels, F).hyps)
  {
    if labels != [] && IsTracked(C, e) {
      var fact := Binary(Eq, e, labels[0]);
      AddKeepsPlain(alloc, F, Some(fact));
      LabelFactsPlain(C, alloc, e, labels[1..], Add(alloc, F, Some(fact)));
    }
  }

  /** A statement that generates no facts leaves, of what it was given, only facts true before it too. */
  lemma {:induction false} InertFacts(C: Context, alloc: nat -> nat, s: Stmt, F: Facts, excused: iset<seq<nat>>,
                                      st: State)
    requires Trusted(C, s) && !Generates(C, s) && TrueBut(C, F, excused, st)
    ensures TrueBut(C, Analyze(C, alloc, s, F), excused, st)
    decreases s, 1
  {
    match s
    case Absent =>
    case AssignNB(x, e) =>
    case Assign(x, e) => InvalidatedExactly(F.hyps, x);
    case Block(ss) => InertFactsAll(C, alloc, ss, F, excused, st);
    case If(c, t, f) => InertBranches(C, alloc, s, F, excused, st);
    case Case(e, items) => InertItems(C, alloc, e, items, F, excused, st);
  }

  lemma {:induction false} InertBranches(C: Context, alloc: nat -> nat, s: Stmt, F: Facts, excused: iset<seq<nat>>,
                                         st: State)
    requires s.If? && Trusted(C, s) && !Generates(C, s) && TrueBut(C, F, excused, st)
    ensures TrueBut(C, Analyze(C, alloc, s, F), excused, st)
    decreases s, 0
  {
    var T := AfterTrue(C, alloc, s, F);
    var E := AfterFalse(C, alloc, s, F.(count := T.count));
    FactsStayPlain(C, alloc, s, F);
    FactsStayPlain(C, alloc, s, F.(count := T.count));
    if Holds(C.interp, s.cond, st) {
      if s.ifTrue != Absent {
        BranchFactIsTrue(C, s, true, st);
        AddKeepsTruth(C, alloc, F, BranchFact(C, s, true), excused, st);
        InertFacts(C, alloc, s.ifTrue, Add(alloc, F, BranchFact(C, s, true)), excused, st);
      }
    } else {
      if s.ifFalse != Absent {
        BranchFactIsTrue(C, s, false, st);
        var G := F.(count := T.count);
        AddKeepsTruth(C, alloc, G, BranchFact(C, s, false), excused, st);
        InertFacts(C, alloc, s.ifFalse, Add(alloc, G, BranchFact(C, s, false)), excused, st);
      }
    }
    MergeIsSound(C, T, E, E.count, excused, st);
  }

  lemma {:induction false} InertFactsAll(C: Context, alloc: nat -> nat, ss: seq<Stmt>, F: Facts,
                                         excused: iset<seq<nat>>, st: State)
    requires TrustedAll(C, ss) && !GeneratesAny(C, ss) && TrueBut(C, F, excused, st)
    ensures TrueBut(C, AnalyzeAll(C, alloc, ss, F), excused, st)
    decreases ss, 0
  {
    if ss != [] {
      InertFacts(C, alloc, ss[0], F, excused, st);
      InertFactsAll(C, alloc, ss[1..], Analyze(C, alloc, ss[0], F), excused, st);
    }
  }

  lemma {:induction false} InertItems(C: Context, alloc: nat -> nat, e: Expr, items: seq<CaseItem>, F: Facts,
                                      excused: iset<seq<nat>>, st: State)
    requires TrustedItems(C, items) && !GeneratesInItems(C, e, items) && TrueBut(C, F, excused, st)
    ensures TrueBut(C, AnalyzeItems(C, alloc, e, items, F), excused, st)
    decreases items, 0
  {
    if items != [] {
      LabelFactsNone(C, alloc, e, items[0].labels, F);
      InertFacts(C, alloc, items[0].body, F, excused, st);
      InertItems(C, alloc, e, items[1..], Analyze(C, alloc, items[0].body, F), excused, st);
    }
  }

  /** Along the run from o, the facts known at every assignment it reaches are true there. */
  predicate TrueWhereUsed(C: Context, alloc: nat -> nat, s: Stmt, F: Facts, o: Outcome)
    decreases s, 0
  {
    match s
    case Absent => true
    case Assign(x, e) => AllHold(C, F.hyps, o.now)
    case AssignNB(x, e) => AllHold(C, F.hyps, o.now)
    case Block(ss) => TrueWhereUsedAll(C, alloc, ss, F, o)
    case If(c, t, f) =>
      if Holds(C.interp, c, o.now) then
        t != Absent ==> TrueWhereUsed(C, alloc, t, Add(alloc, F, BranchFact(C, s, true)), o)
      else
        f != Absent ==>
          var G := F.(count := AfterTrue(C, alloc, s, F).count);
          TrueWhereUsed(C, alloc, f, Add(alloc, G, BranchFact(C, s, false)), o)
    case Case(e, items) =>
      var k := Chosen(C, Eval(C.interp, e, o.now), items, o.now);
      k < |items| ==> TrueWhereUsedItem(C, alloc, e, items, k, F, o)
  }

  predicate TrueWhereUsedAll(C: Context, alloc: nat -> nat, ss: seq<Stmt>, F: Facts, o: Outcome)
    decreases ss, 0
  {
    ss == [] || (TrueWhereUsed(C, alloc, ss[0], F, o)
                 && TrueWhereUsedAll(C, alloc, ss[1..], Analyze(C, alloc, ss[0], F), Exec(C, ss[0], o)))
  }

  predicate TrueWhereUsedItem(C: Context, alloc: nat -> nat, e: Expr, items: seq<CaseItem>, k: nat, F: Facts,
                              o: Outcome)
    requires k < |items|
    decreases items, 0
  {
    var G := LabelFacts(C, alloc, e, items[0].labels, F);
    if k == 0 then TrueWhereUsed(C, alloc, items[0].body, G, o)
    else TrueWhereUsedItem(C, alloc, e, items[1..], k - 1, Analyze(C, alloc, items[0].body, G), o)
  }

  /**
   * Soundness over whole runs: from true facts, every run of a trusted statement keeps the values
   * within their widths and ends in a state where all facts the analysis is left with are true; and
   * if nothing leaks, it finds true facts at every assignment it reaches. Excused texts stay excused.
   */
  lemma {:induction false} RunIsSound(C: Context, alloc: nat -> nat, s: Stmt, F: Facts, excused: iset<seq<nat>>,
                                      o: Outcome)
    requires Trusted(C, s) && Fits(o.now, C.width) && TrueBut(C, F, excused, o.now)
    ensures Fits(Exec(C, s, o).now, C.width)
    ensures TrueBut(C, Analyze(C, alloc, s, F), excused, Exec(C, s, o).now)
    ensures excused == iset{} && NothingLeaks(C, s) ==> TrueWhereUsed(C, alloc, s, F, o)
    decreases s, 1
  {
    match s
    case Absent =>
    case AssignNB(x, e) =>
    case Assign(x, e) =>
      var v := Stored(C, x, e, o.now);
      KillIsSound(C, F, x, v, excused, o.now);
      if AssignFact(C, x, e).Some? {
        FittingFactIsTrue(C, x, e, o.now);
        AddKeepsTruth(C, alloc, F.(hyps := Invalidated(F.hyps, x)), AssignFact(C, x, e), excused, o.now[x := v]);
      }
    case Block(ss) => BlockIsSound(C, alloc, ss, F, excused, o);
    case If(c, t, f) => BranchIsSound(C, alloc, s, F, excused, o);
    case Case(e, items) =>
      var k := Chosen(C, Eval(C.interp, e, o.now), items, o.now);
      if !GeneratesInItems(C, e, items) {
        if k < |items| {
          CaseIsSound(C, alloc, e, items, k, F, excused, o);
        } else {
          InertItems(C, alloc, e, items, F, excused, o.now);
        }
      } else if OnlyDefault(items) {
        LabelFactsNone(C, alloc, e, items[0].labels, F);
        assert items[1..] == [] && k == 0;
        assert AnalyzeItems(C, alloc, e, items, F) == Analyze(C, alloc, items[0].body, F);
        RunIsSound(C, alloc, items[0].body, F, excused, o);
        assert NothingLeaksItems(C, items) ==> NothingLeaks(C, items[0].body);
        assert TrueWhereUsedItem(C, alloc, e, items, k, F, o) <==> TrueWhereUsed(C, alloc, items[0].body, F, o);
      } else if NoLabelFacts(C, e, items) && Settles(C, e, items) {
        SettledIsSound(C, alloc, e, items, F, excused, o);
      } else {
        NothingMentioned(excused);
        if k < |items| {
          RunForgets(C, alloc, e, items, k, F, excused, {}, o);
        } else {
          SkipForgets(C, alloc, e, items, F, excused, {}, o.now);
        }
      }
  }

  lemma {:induction false} BlockIsSound(C: Context, alloc: nat -> nat, ss: seq<Stmt>, F: Facts, excused: iset<seq<nat>>,
                                        o: Outcome)
    requires TrustedAll(C, ss) && Fits(o.now, C.width) && TrueBut(C, F, excused, o.now)
    ensures Fits(ExecAll(C, ss, o).now, C.width)
    ensures TrueBut(C, AnalyzeAll(C, alloc, ss, F), excused, ExecAll(C, ss, o).now)
    ensures excused == iset{} && NothingLeaksAll(C, ss) ==> TrueWhereUsedAll(C, alloc, ss, F, o)
    decreases ss, 0
  {
    if ss != [] {
      RunIsSound(C, alloc, ss[0], F, excused, o);
      BlockIsSound(C, alloc, ss[1..], Analyze(C, alloc, ss[0], F), excused, Exec(C, ss[0], o));
    }
  }

  lemma {:induction false} BranchIsSound(C: Context, alloc: nat -> nat, s: Stmt, F: Facts, excused: iset<seq<nat>>,
                                         o: Outcome)
    requires s.If? && Trusted(C, s) && Fits(o.now, C.width) && TrueBut(C, F, excused, o.now)
    ensures Fits(Exec(C, s, o).now, C.width)
    ensures TrueBut(C, Analyze(C, alloc, s, F), excused, Exec(C, s, o).now)
    ensures excused == iset{} && NothingLeaks(C, s) ==> TrueWhereUsed(C, alloc, s, F, o)
    decreases s, 0
  {
    var T := AfterTrue(C, alloc, s, F);
    var G := F.(count := T.count);
    FactsStayPlain(C, alloc, s, F);
    FactsStayPlain(C, alloc, s, G);
    if Holds(C.interp, s.cond, o.now) {
      if s.ifTrue != Absent {
        BranchFactIsTrue(C, s, true, o.now);
        AddKeepsTruth(C, alloc, F, BranchFact(C, s, true), excused, o.now);
        RunIsSound(C, alloc, s.ifTrue, Add(alloc, F, BranchFact(C, s, true)), excused, o);
      }
    } else if s.ifFalse != Absent {
      BranchFactIsTrue(C, s, false, o.now);
      AddKeepsTruth(C, alloc, G, BranchFact(C, s, false), excused, o.now);
      RunIsSound(C, alloc, s.ifFalse, Add(alloc, G, BranchFact(C, s, false)), excused, o);
    }
    var E := AfterFalse(C, alloc, s, G);
    var after := Exec(C, s, o);
    assert s.ifTrue == Absent || s.ifFalse == Absent ==> Exec(C, Absent, o) == o;
    assert TrueBut(C, T, excused, after.now) || TrueBut(C, E, excused, after.now);
    MergeIsSound(C, T, E, E.count, excused, after.now);
  }

  lemma {:induction false} CaseIsSound(C: Context, alloc: nat -> nat, e: Expr, items: seq<CaseItem>, k: nat, F: Facts,
                                       excused: iset<seq<nat>>, o: Outcome)
    requires k < |items|
    requires TrustedItems(C, items) && !GeneratesInItems(C, e, items)
    requires Fits(o.now, C.width) && TrueBut(C, F, excused, o.now)
    ensures Fits(Exec(C, items[k].body, o).now, C.width)
    ensures TrueBut(C, AnalyzeItems(C, alloc, e, items, F), excused, Exec(C, items[k].body, o).now)
    ensures excused == iset{} && NothingLeaksItems(C, items) ==> TrueWhereUsedItem(C, alloc, e, items, k, F, o)
    decreases items, 0
  {
    var G := Analyze(C, alloc, items[0].body, F);
    LabelFactsNone(C, alloc, e, items[0].labels, F);
    if k == 0 {
      RunIsSound(C, alloc, items[0].body, F, excused, o);
      InertItems(C, alloc, e, items[1..], G, excused, Exec(C, items[0].body, o).now);
    } else {
      InertFacts(C, alloc, items[0].body, F, excused, o.now);
      CaseIsSound(C, alloc, e, items[1..], k - 1, G, excused, o);
    }
  }

  // ----- facts that a later item kills -----

  /** The texts of plain facts that mention one of the names. */
  ghost function Mentions(names: set<Name>): iset<seq<nat>> {
    iset e: Expr, n: Name | Plain(e) && n in names && Contains(e, n) :: Dump(e)
  }

  lemma NothingMentioned(excused: iset<seq<nat>>)
    ensures excused + Mentions({}) == excused
  {
  }

  /** A fact excused for what it mentions mentions that. */
  lemma MentionsName(e: Expr, names: set<Name>)
    requires Plain(e)
    ensures Dump(e) in Mentions(names) <==> exists n :: n in names && Contains(e, n)
  {
    if Dump(e) in Mentions(names) {
      var f, n :| Plain(f) && n in names && Contains(f, n) && Dump(f) == Dump(e);
      SameTextSameNames(e, f, n);
    }
  }

  /** A kill ends the excuse for the name, whether or not its item is the one that runs. */
  lemma KillForgets(C: Context, F: Facts, x: Name, excused: iset<seq<nat>>, names: set<Name>, s: State, v: nat)
    requires TrueBut(C, F, excused + Mentions(names), s)
    ensures TrueBut(C, F.(hyps := Invalidated(F.hyps, x)), excused + Mentions(names - {x}), s)
    ensures TrueBut(C, F.(hyps := Invalidated(F.hyps, x)), excused + Mentions(names - {x}), s[x := v])
  {
    InvalidatedExactly(F.hyps, x);
    forall h | h in Invalidated(F.hyps, x)
      ensures Text(h) in excused + Mentions(names - {x})
              || (Holds(C.interp, h.bexpr, s) && Holds(C.interp, h.bexpr, s[x := v]))
    {
      ContainsIsReading(h.bexpr, x);
      EvalFrame(C.interp, h.bexpr, s, s[x := v]);
      MentionsName(h.bexpr, names);
      MentionsName(h.bexpr, names - {x});
      if n :| n in names && Contains(h.bexpr, n) {
        assert n in names - {x};
      }
    }
  }

  /** More names excuse more. */
  lemma MoreNames(C: Context, F: Facts, excused: iset<seq<nat>>, names: set<Name>, more: set<Name>, s: State)
    requires TrueBut(C, F, excused + Mentions(names), s) && names <= more
    ensures TrueBut(C, F, excused + Mentions(more), s)
  {
    forall h | h in F.hyps && Text(h) in Mentions(names) ensures Text(h) in Mentions(more) {
      MentionsName(h.bexpr, names);
      MentionsName(h.bexpr, more);
    }
  }

  lemma {:induction false} LabelFactsExcused(C: Context, alloc: nat -> nat, e: Expr, labels: seq<Expr>, F: Facts,
                                             excused: iset<seq<nat>>, names: set<Name>, s: State)
    requires TrueBut(C, F, excused + Mentions(names), s)
    requires IsTracked(C, e) && labels != [] ==> e.name in names && forall j | 0 <= j < |labels| :: Plain(labels[j])
    ensures TrueBut(C, LabelFacts(C, alloc, e, labels, F), excused + Mentions(names), s)
    decreases |labels|
  {
    if labels != [] && IsTracked(C, e) {
      var fact := Binary(Eq, e, labels[0]);
      assert Plain(labels[0]) && Plain(fact) && Contains(e, e.name) && Contains(fact, e.name);
      MentionsName(fact, names);
      AddKeepsTruth(C, alloc, F, Some(fact), excused + Mentions(names), s);
      LabelFactsExcused(C, alloc, e, labels[1..], Add(alloc, F, Some(fact)), excused, names, s);
    }
  }

  /** The names still to be killed, once an item's labels are seen. */
  function WithSelector(C: Context, e: Expr, item: CaseItem, names: set<Name>): set<Name> {
    if IsTracked(C, e) && item.labels != [] then names + {e.name} else names
  }

  ghost predicate AllReassigned(items: seq<CaseItem>, names: set<Name>) {
    forall n <- names :: Reassigns(items, n)
  }

  /** Passing over the first item: what its body kills is no longer excused, what it generates is. */
  lemma PassOver(C: Context, alloc: nat -> nat, e: Expr, items: seq<CaseItem>, G: Facts, excused: iset<seq<nat>>,
                 names: set<Name>, s: State) returns (rest: set<Name>)
    requires items != [] && TrustedItems(C, items) && Forgets(C, e, items) && AllReassigned(items, names)
    requires TrueBut(C, G, excused + Mentions(names), s)
    ensures AllReassigned(items[1..], rest)
    ensures TrueBut(C, Analyze(C, alloc, items[0].body, G), excused + Mentions(rest), s)
  {
    var body := items[0].body;
    if body.Assign? {
      var x, fact := body.lval, AssignFact(C, body.lval, body.rval);
      var K := G.(hyps := Invalidated(G.hyps, x));
      KillForgets(C, G, x, excused, names, s, 0);
      rest := names - {x};
      if fact.Some? {
        MoreNames(C, K, excused, rest, rest + {x}, s);
        rest := rest + {x};
        assert Plain(body.rval) && Plain(fact.value) && Contains(Ident(x), x) && Contains(fact.value, x);
        MentionsName(fact.value, rest);
        AddKeepsTruth(C, alloc, K, fact, excused + Mentions(rest), s);
      }
    } else {
      rest := names;
      InertFacts(C, alloc, body, G, excused + Mentions(names), s);
    }
  }

  /** Running the first item. */
  lemma RunOver(C: Context, alloc: nat -> nat, items: seq<CaseItem>, G: Facts, excused: iset<seq<nat>>,
                names: set<Name>, o: Outcome) returns (rest: set<Name>)
    requires items != [] && TrustedItems(C, items) && AllReassigned(items, names)
    requires Fits(o.now, C.width) && TrueBut(C, G, excused + Mentions(names), o.now)
    ensures Fits(Exec(C, items[0].body, o).now, C.width) && AllReassigned(items[1..], rest)
    ensures TrueBut(C, Analyze(C, alloc, items[0].body, G), excused + Mentions(rest), Exec(C, items[0].body, o).now)
    decreases items, 0
  {
    var body := items[0].body;
    if body.Assign? {
      var x, fact := body.lval, AssignFact(C, body.lval, body.rval);
      var v := Stored(C, x, body.rval, o.now);
      KillForgets(C, G, x, excused, names, o.now, v);
      rest := names - {x};
      if fact.Some? {
        FittingFactIsTrue(C, x, body.rval, o.now);
        assert Plain(body.rval) && Plain(fact.value);
        AddKeepsTruth(C, alloc, G.(hyps := Invalidated(G.hyps, x)), fact, excused + Mentions(rest), o.now[x := v]);
      }
    } else {
      rest := names;
      RunIsSound(C, alloc, body, G, excused + Mentions(names), o);
    }
  }

  lemma SelectorExcused(C: Context, alloc: nat -> nat, e: Expr, items: seq<CaseItem>, F: Facts, excused: iset<seq<nat>>,
                        names: set<Name>, s: State)
    requires items != [] && PlainLabels(C, e, items) && Forgets(C, e, items) && AllReassigned(items, names)
    requires TrueBut(C, F, excused + Mentions(names), s)
    ensures AllReassigned(items, WithSelector(C, e, items[0], names))
    ensures TrueBut(C, LabelFacts(C, alloc, e, items[0].labels, F),
                    excused + Mentions(WithSelector(C, e, items[0], names)), s)
  {
    assert IsTracked(C, e) ==> PlainItem(items[0]);
    MoreNames(C, F, excused, names, WithSelector(C, e, items[0], names), s);
    LabelFactsExcused(C, alloc, e, items[0].labels, F, excused, WithSelector(C, e, items[0], names), s);
  }

  lemma TailIsPlain(C: Context, e: Expr, items: seq<CaseItem>)
    requires items != [] && PlainLabels(C, e, items)
    ensures PlainLabels(C, e, items[1..])
  {
    forall i | 0 <= i < |items| - 1 && IsTracked(C, e) ensures PlainItem(items[1..][i]) {
      assert PlainItem(items[i + 1]);
    }
  }

  /** Whatever the items leak is killed in the end. */
  lemma {:induction false} SkipForgets(C: Context, alloc: nat -> nat, e: Expr, items: seq<CaseItem>, F: Facts,
                                       excused: iset<seq<nat>>, names: set<Name>, s: State)
    requires PlainLabels(C, e, items) && TrustedItems(C, items) && Forgets(C, e, items) && AllReassigned(items, names)
    requires TrueBut(C, F, excused + Mentions(names), s)
    ensures TrueBut(C, AnalyzeItems(C, alloc, e, items, F), excused, s)
    decreases items, 0
  {
    if items == [] {
      assert forall n :: !Reassigns(items, n);
      assert names == {};
      NothingMentioned(excused);
    } else {
      var all := WithSelector(C, e, items[0], names);
      var G := LabelFacts(C, alloc, e, items[0].labels, F);
      SelectorExcused(C, alloc, e, items, F, excused, names, s);
      var rest := PassOver(C, alloc, e, items, G, excused, all, s);
      TailIsPlain(C, e, items);
      SkipForgets(C, alloc, e, items[1..], Analyze(C, alloc, items[0].body, G), excused, rest, s);
    }
  }

  lemma {:induction false} RunForgets(C: Context, alloc: nat -> nat, e: Expr, items: seq<CaseItem>, k: nat, F: Facts,
                                      excused: iset<seq<nat>>, names: set<Name>, o: Outcome)
    requires k < |items| && Fits(o.now, C.width)
    requires PlainLabels(C, e, items) && TrustedItems(C, items) && Forgets(C, e, items) && AllReassigned(items, names)
    requires TrueBut(C, F, excused + Mentions(names), o.now)
    ensures Fits(Exec(C, items[k].body, o).now, C.width)
    ensures TrueBut(C, AnalyzeItems(C, alloc, e, items, F), excused, Exec(C, items[k].body, o).now)
    decreases items, 1
  {
    var all := WithSelector(C, e, items[0], names);
    var G := LabelFacts(C, alloc, e, items[0].labels, F);
    SelectorExcused(C, alloc, e, items, F, excused, names, o.now);
    TailIsPlain(C, e, items);
    if k == 0 {
      var rest := RunOver(C, alloc, items, G, excused, all, o);
      SkipForgets(C, alloc, e, items[1..], Analyze(C, alloc, items[0].body, G), excused, rest,
                  Exec(C, items[0].body, o).now);
    } else {
      var rest := PassOver(C, alloc, e, items, G, excused, all, o.now);
      RunForgets(C, alloc, e, items[1..], k - 1, Analyze(C, alloc, items[0].body, G), excused, rest, o);
    }
  }

  // ----- ways that end with the same number -----

  function LastFact(C: Context, items: seq<CaseItem>, n: Name): Expr
    requires items != [] && AssignsNumbers(C, items, n)
  {
    Binary(Eq, Ident(n), items[|items| - 1].body.rval)
  }

  /** Items that assign numbers to n leave the last number, and what says nothing about n. */
  lemma {:induction false} SettledFacts(C: Context, alloc: nat -> nat, e: Expr, items: seq<CaseItem>, n: Name, F: Facts)
    requires items != [] && NoLabelFacts(C, e, items) && AssignsNumbers(C, items, n)
    ensures forall h <- AnalyzeItems(C, alloc, e, items, F).hyps ::
              h.bexpr == LastFact(C, items, n) || (h in F.hyps && !Contains(h.bexpr, n))
  {
    var rest := items[1..];
    var fact := Binary(Eq, Ident(n), items[0].body.rval);
    var K := F.(hyps := Invalidated(F.hyps, n));
    assert AssignsNumber(C, items[0], n);
    LabelFactsNone(C, alloc, e, items[0].labels, F);
    InvalidatedExactly(F.hyps, n);
    InsertAdds(K.hyps, Hypothesis(alloc(F.count), fact));
    var G := Analyze(C, alloc, items[0].body, F);
    assert G == Add(alloc, K, Some(fact));
    if rest != [] {
      assert NumericLabels(rest) by {
        forall i | 0 <= i < |rest| ensures NumericItem(rest[i]) { assert NumericItem(items[i + 1]); }
      }
      assert Contains(fact, n);
      SettledFacts(C, alloc, e, rest, n, G);
      assert LastFact(C, rest, n) == LastFact(C, items, n);
    }
  }

  /** When every way through a case statement assigns the last number, the fact that is left is true. */
  lemma SettledIsSound(C: Context, alloc: nat -> nat, e: Expr, items: seq<CaseItem>, F: Facts, excused: iset<seq<nat>>,
                       o: Outcome)
    requires NoLabelFacts(C, e, items) && Settles(C, e, items)
    requires Fits(o.now, C.width) && TrueBut(C, F, excused, o.now)
    ensures Fits(Exec(C, Case(e, items), o).now, C.width)
    ensures TrueBut(C, AnalyzeItems(C, alloc, e, items, F), excused, Exec(C, Case(e, items), o).now)
  {
    var (s, n, a, m) := (o.now, items[0].body.lval, Get(o.now, e.name), |items| - 1);
    NumericChoice(C, a, items, s, map[]);
    assert ChoosesLast(C, items, a);
    assert AssignsNumber(C, items[m], n);
    var r := items[m].body.rval;
    var v := Stored(C, n, r, s);
    var t := s[n := v];
    assert Exec(C, Case(e, items), o).now == t;
    SettledFacts(C, alloc, e, items, n, F);
    KillIsSound(C, F, n, v, excused, s);
    InvalidatedExactly(F.hyps, n);
    FittingFactIsTrue(C, n, r, s);
    assert Plain(r) && Plain(LastFact(C, items, n));
  }

  lemma AnalysisIsSound(C: Context, alloc: nat -> nat, s: Stmt, F: Facts, o: Outcome)
    requires Trusted(C, s) && Fits(o.now, C.width) && True(C, F, o.now)
    ensures Fits(Exec(C, s, o).now, C.width)
    ensures True(C, Analyze(C, alloc, s, F), Exec(C, s, o).now)
    ensures NothingLeaks(C, s) ==> TrueWhereUsed(C, alloc, s, F, o)
  {
    RunIsSound(C, alloc, s, F, iset{}, o);
  }

  // ----- what the sets of facts miss -----

  /**
   * A merge keeps a fact that both sides share, behind another one on one side, exactly when the
   * other's text comes first: the sets are ordered by address, the intersection walks them by text.
   * (Sorted by text, it loses nothing: IntersectionOfSortedIsExact.)
   */
  lemma MergeKeepsCommonFactExactly(h: Hypothesis, g: Hypothesis)
    requires Text(h) != Text(g)
    ensures h in Merged([g, h], [h]) <==> Less(Text(g), Text(h))
  {
    LessIrreflexive(Text(h));
    assert [h][1..] == [] && [g, h][1..] == [h];
    if Less(Text(g), Text(h)) {
      assert Merged([g, h], [h]) == Intersection([h], [h], Text) == [h] + Intersection([], [], Text);
    } else if Less(Text(h), Text(g)) {
      assert Merged([g, h], [h]) == Intersection([g, h], [], Text) == [];
    } else {
      assert Merged([g, h], [h]) == [g] + Intersection([h], [], Text);
    }
  }

  function Idents(names: seq<Name>): (es: seq<Expr>)
    ensures |es| == |names|
  {
    if names == [] then [] else [Ident(names[0])] + Idents(names[1..])
  }

  lemma {:induction false} VarsOfIdents(names: seq<Name>)
    ensures VarsAll(Idents(names)) == set x | x in names
  {
    if names != [] {
      VarsOfIdents(names[1..]);
      assert Idents(names)[1..] == Idents(names[1..]);
    }
  }

  predicate AllZero(vs: seq<nat>) {
    vs == [] || (vs[0] == 0 && AllZero(vs[1..]))
  }

  /** Of a state in which only x may be other than 0. */
  lemma {:induction false} IdentsAllZero(I: Interp, names: seq<Name>, x: Name, s: State)
    requires forall y | y != x :: Get(s, y) == 0
    ensures AllZero(EvalAll(I, Idents(names), s)) <==> x !in names || Get(s, x) == 0
  {
    if names != [] {
      IdentsAllZero(I, names[1..], x, s);
      assert Idents(names)[1..] == Idents(names[1..]);
      var (v, rest) := (Get(s, names[0]), EvalAll(I, Idents(names[1..]), s));
      assert Eval(I, Ident(names[0]), s) == v;
      assert EvalAll(I, Idents(names), s) == [v] + rest && ([v] + rest)[1..] == rest;
      assert names[0] != x ==> v == 0;
      assert x in names <==> x == names[0] || x in names[1..];
    }
  }

  /** If the fact is true, assigning v to x leaves it true. */
  predicate Outlives(I: Interp, fact: Expr, s: State, x: Name, v: nat) {
    Holds(I, fact, s) ==> Holds(I, fact, s[x := v])
  }

  /**
   * No kill finds a name inside a composite operand of 'N'. Leaving such a fact is right exactly when
   * the name is not among the operand's parts.
   */
  lemma KillMissesComposites(names: seq<Name>, x: Name, addr: nat)
    ensures var fact := Unary(Nor, Concat(None, Idents(names)));
            && Invalidated([Hypothesis(addr, fact)], x) == [Hypothesis(addr, fact)]
            && ((forall I, s, v :: Outlives(I, fact, s, x, v)) <==> x !in names)
  {
    var c := Concat(None, Idents(names));
    var fact := Unary(Nor, c);
    assert !Contains(c, x);
    VarsOfIdents(names);
    if x !in names {
      forall I, s, v ensures Outlives(I, fact, s, x, v) {
        EvalFrame(I, fact, s, s[x := v]);
      }
    } else {
      var I := Interp((o, v) => 0, (o, u, v) => 0, (r, vs) => if AllZero(vs) then 0 else 1, (f, vs) => 0);
      var s: State := map[];
      IdentsAllZero(I, names, x, s);
      IdentsAllZero(I, names, x, s[x := 1]);
      assert Eval(I, c, s) == 0 && Eval(I, c, s[x := 1]) == 1;
      assert !Outlives(I, fact, s, x, 1);
    }
  }
}
