/**
 * Exactly when the facts a case statement leaves are true. Nothing takes a label's fact or a body's
 * fact back after its item: the next item, and whatever follows the statement, still has it.
 */
module CaseFacts {
  import opened Prelude
  import opened PExpr
  import opened ExprText
  import opened Statement
  import opened AbsInterp

  /** From every state in which the facts hold, running s ends with all facts it leaves true. */
  ghost predicate Sound(C: Context, alloc: nat -> nat, s: Stmt, F: Facts) {
    forall o: Outcome | Fits(o.now, C.width) && True(C, F, o.now) ::
      True(C, Analyze(C, alloc, s, F), Exec(C, s, o).now)
  }

  /** A default item alone is its body. */
  lemma DefaultAlone(C: Context, alloc: nat -> nat, e: Expr, s: Stmt, F: Facts)
    ensures Sound(C, alloc, Case(e, [CaseItem([], s)]), F) <==> Sound(C, alloc, s, F)
  {
    var items := [CaseItem([], s)];
    assert items[1..] == [] && LabelFacts(C, alloc, e, [], F) == F;
    assert AnalyzeItems(C, alloc, e, items, F) == Analyze(C, alloc, s, F);
    forall o: Outcome ensures Exec(C, Case(e, items), o) == Exec(C, s, o) {
      assert Chosen(C, Eval(C.interp, e, o.now), items, o.now) == 0;
    }
    SoundAlike(C, alloc, Case(e, items), s, F);
  }

  lemma SoundAlike(C: Context, alloc: nat -> nat, s: Stmt, t: Stmt, F: Facts)
    requires Analyze(C, alloc, s, F) == Analyze(C, alloc, t, F)
    requires forall o: Outcome :: Exec(C, s, o) == Exec(C, t, o)
    ensures Sound(C, alloc, s, F) <==> Sound(C, alloc, t, F)
  {
  }

  // ----- facts of labels -----

  /** Some blocking assignment in the statement has target x. */
  predicate Assigns(s: Stmt, x: Name)
    decreases s, 0
  {
    match s
    case Assign(y, e) => y == x
    case Block(ss) => AssignsAny(ss, x)
    case If(c, t, f) => Assigns(t, x) || Assigns(f, x)
    case Case(e, items) => AssignsInItems(items, x)
    case _ => false
  }

  predicate AssignsAny(ss: seq<Stmt>, x: Name)
    decreases ss, 0
  {
    ss != [] && (Assigns(ss[0], x) || AssignsAny(ss[1..], x))
  }

  predicate AssignsInItems(items: seq<CaseItem>, x: Name)
    decreases items, 0
  {
    items != [] && (Assigns(items[0].body, x) || AssignsInItems(items[1..], x))
  }

  lemma {:induction false} Unassigned(C: Context, s: Stmt, x: Name, o: Outcome)
    requires !Assigns(s, x)
    ensures Get(Exec(C, s, o).now, x) == Get(o.now, x)
    decreases s, 0
  {
    match s
    case Absent =>
    case Assign(y, e) =>
    case AssignNB(y, e) =>
    case Block(ss) => UnassignedAll(C, ss, x, o);
    case If(c, t, f) => Unassigned(C, if Holds(C.interp, c, o.now) then t else f, x, o);
    case Case(e, items) =>
      var k := Chosen(C, Eval(C.interp, e, o.now), items, o.now);
      if k < |items| {
        UnassignedItem(items, x, k);
        Unassigned(C, items[k].body, x, o);
      }
  }

  lemma {:induction false} UnassignedAll(C: Context, ss: seq<Stmt>, x: Name, o: Outcome)
    requires !AssignsAny(ss, x)
    ensures Get(ExecAll(C, ss, o).now, x) == Get(o.now, x)
    decreases ss, 0
  {
    if ss != [] {
      Unassigned(C, ss[0], x, o);
      UnassignedAll(C, ss[1..], x, Exec(C, ss[0], o));
    }
  }

  lemma {:induction false} UnassignedItem(items: seq<CaseItem>, x: Name, k: nat)
    requires !AssignsInItems(items, x) && k < |items|
    ensures !Assigns(items[k].body, x)
  {
    if k > 0 { UnassignedItem(items[1..], x, k - 1); }
  }

  /** Labels are numbers; the body generates nothing and does not assign the selector x. */
  predicate Quiet(C: Context, x: Name, item: CaseItem) {
    NumericItem(item) && Trusted(C, item.body) && !Generates(C, item.body) && !Assigns(item.body, x)
  }

  predicate QuietItems(C: Context, x: Name, items: seq<CaseItem>) {
    forall i | 0 <= i < |items| :: Quiet(C, x, items[i])
  }

  function LabelText(x: Name, l: Expr): seq<nat> {
    Dump(Binary(Eq, Ident(x), l))
  }

  /** The texts of the facts the labels stand for. */
  ghost function LabelTexts(x: Name, items: seq<CaseItem>): iset<seq<nat>> {
    iset i, j | 0 <= i < |items| && 0 <= j < |items[i].labels| :: LabelText(x, items[i].labels[j])
  }

  ghost predicate LabelsExcused(x: Name, item: CaseItem, excused: iset<seq<nat>>) {
    forall j | 0 <= j < |item.labels| :: LabelText(x, item.labels[j]) in excused
  }

  ghost predicate AllLabelsExcused(x: Name, items: seq<CaseItem>, excused: iset<seq<nat>>) {
    forall i | 0 <= i < |items| :: LabelsExcused(x, items[i], excused)
  }

  lemma {:induction false} ExcusedLabelFacts(C: Context, alloc: nat -> nat, x: Name, item: CaseItem, F: Facts,
                                             excused: iset<seq<nat>>, s: State)
    requires NumericItem(item) && LabelsExcused(x, item, excused) && TrueBut(C, F, excused, s)
    ensures TrueBut(C, LabelFacts(C, alloc, Ident(x), item.labels, F), excused, s)
    decreases |item.labels|
  {
    var ls := item.labels;
    if ls != [] && IsTracked(C, Ident(x)) {
      var fact := Binary(Eq, Ident(x), ls[0]);
      assert LabelText(x, ls[0]) in excused && Plain(ls[0]) && Plain(fact);
      AddKeepsTruth(C, alloc, F, Some(fact), excused, s);
      ExcusedLabelFacts(C, alloc, x, item.(labels := ls[1..]), Add(alloc, F, Some(fact)), excused, s);
    }
  }

  /** Items that generate nothing leave, but for their labels' facts, what was true before. */
  lemma {:induction false} QuietItemsKeep(C: Context, alloc: nat -> nat, x: Name, items: seq<CaseItem>, F: Facts,
                                          excused: iset<seq<nat>>, s: State)
    requires QuietItems(C, x, items) && AllLabelsExcused(x, items, excused) && TrueBut(C, F, excused, s)
    ensures TrueBut(C, AnalyzeItems(C, alloc, Ident(x), items, F), excused, s)
  {
    if items != [] {
      var G := LabelFacts(C, alloc, Ident(x), items[0].labels, F);
      assert Quiet(C, x, items[0]) && LabelsExcused(x, items[0], excused);
      ExcusedLabelFacts(C, alloc, x, items[0], F, excused, s);
      InertFacts(C, alloc, items[0].body, G, excused, s);
      TailOfItems(C, x, items, excused);
      QuietItemsKeep(C, alloc, x, items[1..], Analyze(C, alloc, items[0].body, G), excused, s);
    }
  }

  lemma TailOfItems(C: Context, x: Name, items: seq<CaseItem>, excused: iset<seq<nat>>)
    requires items != [] && QuietItems(C, x, items) && AllLabelsExcused(x, items, excused)
    ensures QuietItems(C, x, items[1..]) && AllLabelsExcused(x, items[1..], excused)
  {
    forall i | 0 <= i < |items| - 1
      ensures Quiet(C, x, items[1..][i]) && LabelsExcused(x, items[1..][i], excused)
    {
      assert Quiet(C, x, items[i + 1]) && LabelsExcused(x, items[i + 1], excused);
    }
  }

  /** The same after a run of item k. */
  lemma {:induction false} QuietRunKeeps(C: Context, alloc: nat -> nat, x: Name, items: seq<CaseItem>, k: nat, F: Facts,
                                         excused: iset<seq<nat>>, o: Outcome)
    requires k < |items| && QuietItems(C, x, items) && AllLabelsExcused(x, items, excused)
    requires TrueBut(C, F, excused, o.now) && Fits(o.now, C.width)
    ensures TrueBut(C, AnalyzeItems(C, alloc, Ident(x), items, F), excused, Exec(C, items[k].body, o).now)
    decreases k
  {
    var G := LabelFacts(C, alloc, Ident(x), items[0].labels, F);
    var H := Analyze(C, alloc, items[0].body, G);
    assert Quiet(C, x, items[0]) && LabelsExcused(x, items[0], excused);
    ExcusedLabelFacts(C, alloc, x, items[0], F, excused, o.now);
    TailOfItems(C, x, items, excused);
    if k == 0 {
      RunIsSound(C, alloc, items[0].body, G, excused, o);
      QuietItemsKeep(C, alloc, x, items[1..], H, excused, Exec(C, items[0].body, o).now);
    } else {
      InertFacts(C, alloc, items[0].body, G, excused, o.now);
      QuietRunKeeps(C, alloc, x, items[1..], k - 1, H, excused, o);
    }
  }

  /** A fact with the text of a label's fact says that x is that label. */
  lemma LabelFactMeans(C: Context, x: Name, items: seq<CaseItem>, h: Hypothesis) returns (n: nat)
    requires NumericLabels(items) && Text(h) in LabelTexts(x, items) && Plain(h.bexpr)
    ensures forall s :: Holds(C.interp, h.bexpr, s) <==> Get(s, x) == n
  {
    var i, j :| 0 <= i < |items| && 0 <= j < |items[i].labels| && Text(h) == LabelText(x, items[i].labels[j]);
    assert NumericItem(items[i]);
    n := items[i].labels[j].value;
    var fact := Binary(Eq, Ident(x), Number(n));
    forall s ensures Holds(C.interp, h.bexpr, s) <==> Get(s, x) == n {
      SameTextSameMeaning(C.interp, h.bexpr, fact, s);
      assert Eval(C.interp, Ident(x), s) == Get(s, x) && Eval(C.interp, Number(n), s) == n;
    }
  }

  /** The facts before the statement already say so. */
  ghost predicate Implied(C: Context, F: Facts, fact: Expr) {
    forall s: State | Fits(s, C.width) && True(C, F, s) :: Holds(C.interp, fact, s)
  }

  /** The selector has the same value before and after a case statement with quiet items. */
  lemma SelectorStays(C: Context, x: Name, items: seq<CaseItem>, o: Outcome)
    requires QuietItems(C, x, items)
    ensures Get(Exec(C, Case(Ident(x), items), o).now, x) == Get(o.now, x)
  {
    var k := Chosen(C, Eval(C.interp, Ident(x), o.now), items, o.now);
    if k < |items| {
      assert Quiet(C, x, items[k]);
      Unassigned(C, items[k].body, x, o);
    }
  }

  lemma QuietCaseKeeps(C: Context, alloc: nat -> nat, x: Name, items: seq<CaseItem>, F: Facts, excused: iset<seq<nat>>,
                       o: Outcome)
    requires QuietItems(C, x, items) && AllLabelsExcused(x, items, excused)
    requires TrueBut(C, F, excused, o.now) && Fits(o.now, C.width)
    ensures TrueBut(C, AnalyzeItems(C, alloc, Ident(x), items, F), excused, Exec(C, Case(Ident(x), items), o).now)
  {
    var k := Chosen(C, Eval(C.interp, Ident(x), o.now), items, o.now);
    if k < |items| {
      QuietRunKeeps(C, alloc, x, items, k, F, excused, o);
    } else {
      QuietItemsKeep(C, alloc, x, items, F, excused, o.now);
    }
  }

  /**
   * A case statement whose bodies generate nothing and do not assign its selector is sound exactly
   * when every label's fact that is left was known before.
   */
  lemma LabelFactsSoundExactly(C: Context, alloc: nat -> nat, x: Name, items: seq<CaseItem>, F: Facts)
    requires QuietItems(C, x, items) && AllPlain(F.hyps)
    ensures var s := Case(Ident(x), items);
            Sound(C, alloc, s, F)
            <==> forall h <- Analyze(C, alloc, s, F).hyps :: Text(h) in LabelTexts(x, items) ==> Implied(C, F, h.bexpr)
  {
    var (s, texts) := (Case(Ident(x), items), LabelTexts(x, items));
    var R := Analyze(C, alloc, s, F);
    assert NumericLabels(items) by {
      forall i | 0 <= i < |items| ensures NumericItem(items[i]) { assert Quiet(C, x, items[i]); }
    }
    var all := texts + iset h | h in F.hyps :: Text(h);
    assert AllLabelsExcused(x, items, texts) && AllLabelsExcused(x, items, all);
    QuietItemsKeep(C, alloc, x, items, F, all, map[]);
    forall h, o: Outcome | h in R.hyps && Text(h) in texts
      ensures Holds(C.interp, h.bexpr, Exec(C, s, o).now) <==> Holds(C.interp, h.bexpr, o.now)
    {
      var n := LabelFactMeans(C, x, items, h);
      SelectorStays(C, x, items, o);
    }
    if Sound(C, alloc, s, F) {
      forall h | h in R.hyps && Text(h) in texts ensures Implied(C, F, h.bexpr) {
        forall st: State | Fits(st, C.width) && True(C, F, st) ensures Holds(C.interp, h.bexpr, st) {
          var o := Outcome(st, map[]);
          assert True(C, R, Exec(C, s, o).now);
        }
      }
    }
    if forall h <- R.hyps :: Text(h) in texts ==> Implied(C, F, h.bexpr) {
      forall o: Outcome | Fits(o.now, C.width) && True(C, F, o.now) ensures True(C, R, Exec(C, s, o).now) {
        QuietCaseKeeps(C, alloc, x, items, F, texts, o);
      }
    }
  }

  // ----- labels in bodies without conditionals -----

  /** No conditional, no assignment to x, nothing generated: such a body leaves all facts on x. */
  predicate Still(C: Context, x: Name, s: Stmt)
    decreases s, 0
  {
    match s
    case Absent => true
    case Assign(y, e) => y != x && AssignFact(C, y, e).None?
    case AssignNB(y, e) => true
    case Block(ss) => StillAll(C, x, ss)
    case If(c, t, f) => false
    case Case(e, items) => NoLabelFacts(C, e, items) && StillItems(C, x, items)
  }

  predicate StillAll(C: Context, x: Name, ss: seq<Stmt>)
    decreases ss, 0
  {
    ss == [] || (Still(C, x, ss[0]) && StillAll(C, x, ss[1..]))
  }

  predicate StillItems(C: Context, x: Name, items: seq<CaseItem>)
    decreases items, 0
  {
    items == [] || (Still(C, x, items[0].body) && StillItems(C, x, items[1..]))
  }

  lemma {:induction false} StillIsQuiet(C: Context, x: Name, s: Stmt)
    requires Still(C, x, s)
    ensures Trusted(C, s) && !Generates(C, s) && !Assigns(s, x)
    decreases s, 0
  {
    match s
    case Absent =>
    case Assign(y, e) =>
    case AssignNB(y, e) =>
    case Block(ss) => StillAllQuiet(C, x, ss);
    case Case(e, items) => StillItemsQuiet(C, x, e, items);
  }

  lemma {:induction false} StillAllQuiet(C: Context, x: Name, ss: seq<Stmt>)
    requires StillAll(C, x, ss)
    ensures TrustedAll(C, ss) && !GeneratesAny(C, ss) && !AssignsAny(ss, x)
    decreases ss, 0
  {
    if ss != [] {
      StillIsQuiet(C, x, ss[0]);
      StillAllQuiet(C, x, ss[1..]);
    }
  }

  lemma {:induction false} StillItemsQuiet(C: Context, x: Name, e: Expr, items: seq<CaseItem>)
    requires NoLabelFacts(C, e, items) && StillItems(C, x, items)
    ensures TrustedItems(C, items) && !GeneratesInItems(C, e, items) && !AssignsInItems(items, x)
    decreases items, 0
  {
    if items != [] {
      StillIsQuiet(C, x, items[0].body);
      StillItemsQuiet(C, x, e, items[1..]);
    }
  }

  predicate IsFactOn(h: Hypothesis, x: Name) {
    && h.bexpr.Binary? && h.bexpr.bop == Eq && h.bexpr.left == Ident(x) && h.bexpr.right.Number?
  }

  /** Facts on x stay, and nothing comes of nothing. */
  lemma {:induction false} StillKeeps(C: Context, alloc: nat -> nat, x: Name, s: Stmt, F: Facts)
    requires Still(C, x, s)
    ensures forall h <- F.hyps :: IsFactOn(h, x) ==> h in Analyze(C, alloc, s, F).hyps
    ensures F.hyps == [] ==> Analyze(C, alloc, s, F).hyps == []
    decreases s, 0
  {
    match s
    case Absent =>
    case AssignNB(y, e) =>
    case Assign(y, e) =>
      InvalidatedExactly(F.hyps, y);
      forall h | h in F.hyps && IsFactOn(h, x) ensures !Contains(h.bexpr, y) {
        assert !Contains(h.bexpr.left, y) && !Contains(h.bexpr.right, y);
      }
    case Block(ss) => StillAllKeeps(C, alloc, x, ss, F);
    case Case(e, items) => StillItemsKeep(C, alloc, x, e, items, F);
  }

  lemma {:induction false} StillAllKeeps(C: Context, alloc: nat -> nat, x: Name, ss: seq<Stmt>, F: Facts)
    requires StillAll(C, x, ss)
    ensures forall h <- F.hyps :: IsFactOn(h, x) ==> h in AnalyzeAll(C, alloc, ss, F).hyps
    ensures F.hyps == [] ==> AnalyzeAll(C, alloc, ss, F).hyps == []
    decreases ss, 0
  {
    if ss != [] {
      StillKeeps(C, alloc, x, ss[0], F);
      StillAllKeeps(C, alloc, x, ss[1..], Analyze(C, alloc, ss[0], F));
    }
  }

  lemma {:induction false} StillItemsKeep(C: Context, alloc: nat -> nat, x: Name, e: Expr, items: seq<CaseItem>,
                                          F: Facts)
    requires NoLabelFacts(C, e, items) && StillItems(C, x, items)
    ensures forall h <- F.hyps :: IsFactOn(h, x) ==> h in AnalyzeItems(C, alloc, e, items, F).hyps
    ensures F.hyps == [] ==> AnalyzeItems(C, alloc, e, items, F).hyps == []
    decreases items, 0
  {
    if items != [] {
      LabelFactsNone(C, alloc, e, items[0].labels, F);
      StillKeeps(C, alloc, x, items[0].body, F);
      StillItemsKeep(C, alloc, x, e, items[1..], Analyze(C, alloc, items[0].body, F));
    }
  }

  lemma {:induction false} InsertKeeps(H: seq<Hypothesis>, h: Hypothesis)
    ensures forall g <- H :: g in Insert(H, h)
  {
    if H != [] { InsertKeeps(H[1..], h); }
  }

  lemma {:induction false} LabelFactsKeep(C: Context, alloc: nat -> nat, e: Expr, labels: seq<Expr>, F: Facts)
    ensures forall g <- F.hyps :: g in LabelFacts(C, alloc, e, labels, F).hyps
  {
    if labels != [] && IsTracked(C, e) {
      var fact := Binary(Eq, e, labels[0]);
      InsertKeeps(F.hyps, Hypothesis(alloc(F.count), fact));
      LabelFactsKeep(C, alloc, e, labels[1..], Add(alloc, F, Some(fact)));
    }
  }

  /** A label's fact is never taken back. */
  lemma {:induction false} LabelFactStays(C: Context, alloc: nat -> nat, x: Name, items: seq<CaseItem>, F: Facts,
                                          h: Hypothesis)
    requires StillItems(C, x, items) && h in F.hyps && IsFactOn(h, x)
    ensures h in AnalyzeItems(C, alloc, Ident(x), items, F).hyps
  {
    if items != [] {
      var G := LabelFacts(C, alloc, Ident(x), items[0].labels, F);
      LabelFactsKeep(C, alloc, Ident(x), items[0].labels, F);
      StillKeeps(C, alloc, x, items[0].body, G);
      LabelFactStays(C, alloc, x, items[1..], Analyze(C, alloc, items[0].body, G), h);
    }
  }

  /** Item i is the first with labels: its first one's fact is left. */
  lemma {:induction false} FirstLabelLeft(C: Context, alloc: nat -> nat, x: Name, items: seq<CaseItem>, F: Facts,
                                          i: nat)
      returns (h: Hypothesis)
    requires StillItems(C, x, items) && NumericLabels(items) && x in C.tracked && F.hyps == []
    requires i < |items| && items[i].labels != [] && forall j | 0 <= j < i :: items[j].labels == []
    ensures h in AnalyzeItems(C, alloc, Ident(x), items, F).hyps && IsFactOn(h, x)
    decreases i
  {
    var G := LabelFacts(C, alloc, Ident(x), items[0].labels, F);
    assert NumericItem(items[0]);
    StillKeeps(C, alloc, x, items[0].body, G);
    var H := Analyze(C, alloc, items[0].body, G);
    if i == 0 {
      var fact := Binary(Eq, Ident(x), items[0].labels[0]);
      h := Hypothesis(alloc(F.count), fact);
      assert Add(alloc, F, Some(fact)).hyps == [h] && IsTracked(C, Ident(x));
      assert G == LabelFacts(C, alloc, Ident(x), items[0].labels[1..], Add(alloc, F, Some(fact)));
      LabelFactsKeep(C, alloc, Ident(x), items[0].labels[1..], Add(alloc, F, Some(fact)));
      LabelFactStays(C, alloc, x, items[1..], H, h);
    } else {
      assert NumericLabels(items[1..]) by {
        forall j | 0 <= j < |items| - 1 ensures NumericItem(items[1..][j]) { assert NumericItem(items[j + 1]); }
      }
      h := FirstLabelLeft(C, alloc, x, items[1..], H, i - 1);
    }
  }

  function FirstLabelled(items: seq<CaseItem>): (i: nat)
    ensures i <= |items| && forall j | 0 <= j < i :: items[j].labels == []
    ensures i < |items| ==> items[i].labels != []
  {
    if items == [] || items[0].labels != [] then 0 else 1 + FirstLabelled(items[1..])
  }

  /**
   * With any number of items whose bodies leave facts on the selector alone, a case statement
   * is sound exactly when no item has labels, or the selector is not tracked.
   */
  lemma CaseIsSoundExactlyWithoutLabels(C: Context, alloc: nat -> nat, x: Name, items: seq<CaseItem>, count: nat)
    requires NumericLabels(items) && StillItems(C, x, items) && C.width(x) > 0
    ensures Sound(C, alloc, Case(Ident(x), items), Facts(count, [])) <==> NoLabelFacts(C, Ident(x), items)
  {
    var (s, F, i) := (Case(Ident(x), items), Facts(count, []), FirstLabelled(items));
    if NoLabelFacts(C, Ident(x), items) {
      StillItemsQuiet(C, x, Ident(x), items);
      forall o: Outcome | Fits(o.now, C.width) && True(C, F, o.now)
        ensures True(C, Analyze(C, alloc, s, F), Exec(C, s, o).now)
      {
        AnalysisIsSound(C, alloc, s, F, o);
      }
    } else {
      var h := FirstLabelLeft(C, alloc, x, items, F, i);
      var n := h.bexpr.right.value;
      var o := Outcome(map[x := if n == 0 then 1 else 0], map[]);
      assert Fits(o.now, C.width) && True(C, F, o.now);
      StillSelector(C, x, items, o);
      var after := Exec(C, s, o).now;
      assert Eval(C.interp, Ident(x), after) != n == Eval(C.interp, Number(n), after);
      assert !Holds(C.interp, h.bexpr, after);
    }
  }

  lemma StillSelector(C: Context, x: Name, items: seq<CaseItem>, o: Outcome)
    requires StillItems(C, x, items)
    ensures Get(Exec(C, Case(Ident(x), items), o).now, x) == Get(o.now, x)
  {
    var k := Chosen(C, Eval(C.interp, Ident(x), o.now), items, o.now);
    if k < |items| {
      StillItem(C, x, items, k);
      StillIsQuiet(C, x, items[k].body);
      Unassigned(C, items[k].body, x, o);
    }
  }

  lemma {:induction false} StillItem(C: Context, x: Name, items: seq<CaseItem>, k: nat)
    requires StillItems(C, x, items) && k < |items|
    ensures Still(C, x, items[k].body)
  {
    if k > 0 { StillItem(C, x, items[1..], k - 1); }
  }

  /** Bodies generate nothing, and the last one assigns x. */
  predicate EndsReassigned(C: Context, x: Name, items: seq<CaseItem>) {
    && items != [] && NumericLabels(items) && TrustedItems(C, items)
    && (forall i | 0 <= i < |items| :: !Generates(C, items[i].body))
    && items[|items| - 1].body.Assign? && items[|items| - 1].body.lval == x
  }

  lemma {:induction false} EndForgets(C: Context, x: Name, items: seq<CaseItem>)
    requires EndsReassigned(C, x, items)
    ensures Reassigns(items, x) && Forgets(C, Ident(x), items)
  {
    var rest := items[1..];
    if rest != [] {
      forall i | 0 <= i < |rest| ensures NumericItem(rest[i]) && !Generates(C, rest[i].body) {
        assert NumericItem(items[i + 1]) && !Generates(C, items[i + 1].body);
      }
      EndForgets(C, x, rest);
    }
    assert !Generates(C, items[0].body);
  }

  /** A body that assigns the selector kills the facts on it: if the last one does, labels do no harm. */
  lemma AssignedSelector(C: Context, alloc: nat -> nat, x: Name, items: seq<CaseItem>, F: Facts)
    requires EndsReassigned(C, x, items)
    ensures Sound(C, alloc, Case(Ident(x), items), F)
  {
    var s := Case(Ident(x), items);
    EndForgets(C, x, items);
    forall i | 0 <= i < |items| ensures PlainItem(items[i]) {
      assert NumericItem(items[i]);
    }
    assert Trusted(C, s);
    forall o: Outcome | Fits(o.now, C.width) && True(C, F, o.now)
      ensures True(C, Analyze(C, alloc, s, F), Exec(C, s, o).now)
    {
      AnalysisIsSound(C, alloc, s, F, o);
    }
  }

  // ----- facts of bodies -----

  /** Of items that assign numbers to n, the last one's fact is left. */
  lemma {:induction false} LastFactLeft(C: Context, alloc: nat -> nat, e: Expr, items: seq<CaseItem>, n: Name, F: Facts)
      returns (h: Hypothesis)
    requires items != [] && NoLabelFacts(C, e, items) && AssignsNumbers(C, items, n) && Invalidated(F.hyps, n) == []
    ensures h.bexpr == LastFact(C, items, n) && h in AnalyzeItems(C, alloc, e, items, F).hyps
  {
    var fact := Binary(Eq, Ident(n), items[0].body.rval);
    assert AssignsNumber(C, items[0], n);
    LabelFactsNone(C, alloc, e, items[0].labels, F);
    var G := Analyze(C, alloc, items[0].body, F);
    h := Hypothesis(alloc(F.count), fact);
    assert G.hyps == [h];
    var rest := items[1..];
    if rest != [] {
      assert NumericLabels(rest) by {
        forall i | 0 <= i < |rest| ensures NumericItem(rest[i]) { assert NumericItem(items[i + 1]); }
      }
      assert Contains(fact, n) && [h][1..] == [];
      assert Invalidated([h], n) == [];
      h := LastFactLeft(C, alloc, e, rest, n, G);
    }
  }

  /** No two objects have one address. */
  ghost predicate DistinctAddresses(alloc: nat -> nat) {
    forall i, j | i != j :: alloc(i) != alloc(j)
  }

  /** The facts are at addresses given out before. */
  ghost predicate Allocated(alloc: nat -> nat, F: Facts) {
    forall h <- F.hyps :: exists i | 0 <= i < F.count :: h.addr == alloc(i)
  }

  lemma {:induction false} InsertHas(H: seq<Hypothesis>, h: Hypothesis)
    requires forall g <- H :: g.addr != h.addr
    ensures h in Insert(H, h)
  {
    if H != [] && h.addr >= H[0].addr { InsertHas(H[1..], h); }
  }

  /** A new fact is in the set, at an address of its own. */
  lemma AddHas(alloc: nat -> nat, F: Facts, fact: Expr)
    requires DistinctAddresses(alloc) && Allocated(alloc, F)
    ensures Hypothesis(alloc(F.count), fact) in Add(alloc, F, Some(fact)).hyps
    ensures Allocated(alloc, Add(alloc, F, Some(fact)))
  {
    var h := Hypothesis(alloc(F.count), fact);
    InsertHas(F.hyps, h);
    InsertAdds(F.hyps, h);
  }

  /** Assigning a number to n leaves the facts on another name. */
  lemma NumberKeeps(C: Context, alloc: nat -> nat, item: CaseItem, n: Name, x: Name, F: Facts)
    requires AssignsNumber(C, item, n) && x != n
    ensures var G := Analyze(C, alloc, item.body, F);
            && (forall h <- F.hyps :: IsFactOn(h, x) ==> h in G.hyps)
            && (DistinctAddresses(alloc) && Allocated(alloc, F) ==> Allocated(alloc, G))
  {
    var K := F.(hyps := Invalidated(F.hyps, n));
    var fact := Binary(Eq, Ident(n), item.body.rval);
    InvalidatedExactly(F.hyps, n);
    forall h | h in F.hyps && IsFactOn(h, x) ensures !Contains(h.bexpr, n) {
      assert !Contains(h.bexpr.left, n) && !Contains(h.bexpr.right, n);
    }
    InsertKeeps(K.hyps, Hypothesis(alloc(F.count), fact));
    if DistinctAddresses(alloc) && Allocated(alloc, F) {
      AddHas(alloc, K, fact);
    }
  }

  lemma TailAssignsNumbers(C: Context, items: seq<CaseItem>, n: Name)
    requires items != [] && AssignsNumbers(C, items, n)
    ensures AssignsNumber(C, items[0], n) && NumericItem(items[0]) && AssignsNumbers(C, items[1..], n)
  {
    forall i | 0 <= i < |items| - 1 ensures NumericItem(items[1..][i]) && AssignsNumber(C, items[1..][i], n) {
      assert NumericItem(items[i + 1]) && AssignsNumber(C, items[i + 1], n);
    }
  }

  lemma {:induction false} NumbersKeep(C: Context, alloc: nat -> nat, x: Name, items: seq<CaseItem>, n: Name, F: Facts,
                                       h: Hypothesis)
    requires AssignsNumbers(C, items, n) && x != n && h in F.hyps && IsFactOn(h, x)
    ensures h in AnalyzeItems(C, alloc, Ident(x), items, F).hyps
  {
    if items != [] {
      TailAssignsNumbers(C, items, n);
      LabelFactsKeep(C, alloc, Ident(x), items[0].labels, F);
      var G := LabelFacts(C, alloc, Ident(x), items[0].labels, F);
      NumberKeeps(C, alloc, items[0], n, x, G);
      NumbersKeep(C, alloc, x, items[1..], n, Analyze(C, alloc, items[0].body, G), h);
    }
  }

  /** Of items that assign numbers to n, a label's fact is left too. */
  lemma {:induction false} LabelLeft(C: Context, alloc: nat -> nat, x: Name, items: seq<CaseItem>, n: Name, F: Facts,
                                     i: nat)
      returns (h: Hypothesis)
    requires AssignsNumbers(C, items, n) && x != n && x in C.tracked
    requires DistinctAddresses(alloc) && Allocated(alloc, F)
    requires i < |items| && items[i].labels != [] && forall j | 0 <= j < i :: items[j].labels == []
    ensures h in AnalyzeItems(C, alloc, Ident(x), items, F).hyps && IsFactOn(h, x)
    decreases i
  {
    var ls := items[0].labels;
    var G := LabelFacts(C, alloc, Ident(x), ls, F);
    TailAssignsNumbers(C, items, n);
    NumberKeeps(C, alloc, items[0], n, x, G);
    if i == 0 {
      var fact := Binary(Eq, Ident(x), ls[0]);
      h := Hypothesis(alloc(F.count), fact);
      assert IsTracked(C, Ident(x)) && G == LabelFacts(C, alloc, Ident(x), ls[1..], Add(alloc, F, Some(fact)));
      AddHas(alloc, F, fact);
      LabelFactsKeep(C, alloc, Ident(x), ls[1..], Add(alloc, F, Some(fact)));
      NumbersKeep(C, alloc, x, items[1..], n, Analyze(C, alloc, items[0].body, G), h);
    } else {
      h := LabelLeft(C, alloc, x, items[1..], n, Analyze(C, alloc, items[0].body, G), i - 1);
    }
  }

  /** The name is not what its fact says. */
  lemma FactOnFails(C: Context, h: Hypothesis, x: Name, s: State)
    requires IsFactOn(h, x) && Get(s, x) != h.bexpr.right.value
    ensures !Holds(C.interp, h.bexpr, s)
  {
    assert Eval(C.interp, h.bexpr.left, s) == Get(s, x) && Eval(C.interp, h.bexpr.right, s) == h.bexpr.right.value;
  }

  /** A run that a label's fact is not true after. */
  lemma LabelledIsUnsound(C: Context, alloc: nat -> nat, y: Name, items: seq<CaseItem>, n: Name, count: nat)
    requires AssignsNumbers(C, items, n) && y != n && C.width(y) > 0 && DistinctAddresses(alloc)
    requires !NoLabelFacts(C, Ident(y), items)
    ensures !Sound(C, alloc, Case(Ident(y), items), Facts(count, []))
  {
    var s := Case(Ident(y), items);
    var h := LabelLeft(C, alloc, y, items, n, Facts(count, []), FirstLabelled(items));
    var o := Outcome(map[y := if h.bexpr.right.value == 0 then 1 else 0], map[]);
    var k := Chosen(C, Eval(C.interp, Ident(y), o.now), items, o.now);
    assert k < |items| ==> AssignsNumber(C, items[k], n);
    assert Get(Exec(C, s, o).now, y) == Get(o.now, y);
    FactOnFails(C, h, y, Exec(C, s, o).now);
    assert Fits(o.now, C.width) && True(C, Facts(count, []), o.now);
  }

  /**
   * A case statement on y whose items assign numbers to n is, from no facts, sound exactly when no label
   * generates a fact, and every value of y chooses an item, one that assigns what the last item assigns.
   */
  lemma CaseSettlesExactly(C: Context, alloc: nat -> nat, y: Name, items: seq<CaseItem>, n: Name, count: nat)
    requires items != [] && AssignsNumbers(C, items, n) && DistinctAddresses(alloc)
    requires y != n && C.width(n) > 0 && C.width(y) > 0
    ensures Sound(C, alloc, Case(Ident(y), items), Facts(count, []))
            <==> NoLabelFacts(C, Ident(y), items) && Settles(C, Ident(y), items)
  {
    if NoLabelFacts(C, Ident(y), items) {
      UnlabelledSettlesExactly(C, alloc, y, items, n, count);
    } else {
      LabelledIsUnsound(C, alloc, y, items, n, count);
    }
  }

  lemma UnlabelledSettlesExactly(C: Context, alloc: nat -> nat, y: Name, items: seq<CaseItem>, n: Name, count: nat)
    requires items != [] && AssignsNumbers(C, items, n) && NoLabelFacts(C, Ident(y), items)
    requires y != n && C.width(n) > 0
    ensures Sound(C, alloc, Case(Ident(y), items), Facts(count, [])) <==> Settles(C, Ident(y), items)
  {
    var (s, F) := (Case(Ident(y), items), Facts(count, []));
    assert AssignsNumber(C, items[0], n);
    if Settles(C, Ident(y), items) {
      forall o: Outcome | Fits(o.now, C.width) && True(C, F, o.now)
        ensures True(C, Analyze(C, alloc, s, F), Exec(C, s, o).now)
      {
        SettledIsSound(C, alloc, Ident(y), items, F, iset{}, o);
      }
    } else {
      var a: nat :| a < Pow2(C.width(y)) && !ChoosesLast(C, items, a);
      var h := LastFactLeft(C, alloc, Ident(y), items, n, F);
      var o := OtherNumber(C, y, items, n, a);
      assert True(C, F, o.now);
      assert !Holds(C.interp, h.bexpr, Exec(C, s, o).now);
    }
  }

  /** A run in which y is a ends with another number in n than the last item's. */
  lemma OtherNumber(C: Context, y: Name, items: seq<CaseItem>, n: Name, a: nat) returns (o: Outcome)
    requires items != [] && AssignsNumbers(C, items, n) && y != n && C.width(n) > 0
    requires a < Pow2(C.width(y)) && !ChoosesLast(C, items, a)
    ensures Fits(o.now, C.width)
    ensures !Holds(C.interp, LastFact(C, items, n), Exec(C, Case(Ident(y), items), o).now)
  {
    var last := items[|items| - 1].body.rval.value;
    o := Outcome(map[y := a, n := if last == 0 then 1 else 0], map[]);
    NumericChoice(C, a, items, o.now, map[]);
    assert Eval(C.interp, Ident(y), o.now) == a;
    var k := Chosen(C, a, items, map[]);
    var after := Exec(C, Case(Ident(y), items), o).now;
    assert AssignsNumber(C, items[|items| - 1], n);
    if k < |items| {
      assert AssignsNumber(C, items[k], n);
      var v := items[k].body.rval.value;
      assert v < Pow2(C.width(n)) && Eval(C.interp, Number(v), o.now) == v;
      ModSmall(v, Pow2(C.width(n)));
      assert items[k].body == Assign(n, Number(v)) && Stored(C, n, Number(v), o.now) == v;
      assert Chosen(C, a, items, o.now) == k;
      assert after == Exec(C, items[k].body, o).now == o.now[n := v];
    }
    assert Eval(C.interp, Ident(n), after) == Get(after, n) && Eval(C.interp, Number(last), after) == last;
  }

  /** case (y) k: n = v; default: n = w is sound exactly when v and w are the same and y is not tracked. */
  lemma TwoWayCase(C: Context, alloc: nat -> nat, y: Name, n: Name, k: nat, v: nat, w: nat, count: nat)
    requires n in C.tracked && y != n && DistinctAddresses(alloc)
    requires k < Pow2(C.width(y)) && C.width(y) > 0 && v < Pow2(C.width(n)) && w < Pow2(C.width(n)) && C.width(n) > 0
    ensures var items := [CaseItem([Number(k)], Assign(n, Number(v))), CaseItem([], Assign(n, Number(w)))];
            Sound(C, alloc, Case(Ident(y), items), Facts(count, [])) <==> v == w && y !in C.tracked
  {
    var items := [CaseItem([Number(k)], Assign(n, Number(v))), CaseItem([], Assign(n, Number(w)))];
    CaseSettlesExactly(C, alloc, y, items, n, count);
    var rest := items[1..];
    assert rest == [CaseItem([], Assign(n, Number(w)))] && rest[1..] == [];
    assert NoLabelFacts(C, Ident(y), items) <==> y !in C.tracked by {
      assert items[0].labels != [] && (IsTracked(C, Ident(y)) <==> y in C.tracked);
    }
    forall a: nat ensures ChoosesLast(C, items, a) <==> a != k || v == w {
      OneLabel(C, a, k);
      assert FirstMatch(C, a, rest, map[]) == 1;
      assert FirstDefault(items) == 1;
    }
    if v != w { assert !ChoosesLast(C, items, k); }
  }

  lemma OneLabel(C: Context, a: nat, k: nat)
    ensures Matches(C, a, [Number(k)], map[]) <==> a == k
    ensures !Matches(C, a, [], map[])
  {
    assert Eval(C.interp, [Number(k)][0], map[]) == k;
  }

  /** Without the default it never is: some value of y leaves n as it was. */
  lemma CaseWithoutDefault(C: Context, alloc: nat -> nat, y: Name, n: Name, k: nat, v: nat, count: nat)
    requires n in C.tracked && y != n && DistinctAddresses(alloc)
    requires C.width(y) > 0 && v < Pow2(C.width(n)) && C.width(n) > 0
    ensures !Sound(C, alloc, Case(Ident(y), [CaseItem([Number(k)], Assign(n, Number(v)))]), Facts(count, []))
  {
    var items := [CaseItem([Number(k)], Assign(n, Number(v)))];
    CaseSettlesExactly(C, alloc, y, items, n, count);
    var a := if k == 0 then 1 else 0;
    OneLabel(C, a, k);
    assert items[1..] == [];
    assert FirstMatch(C, a, items, map[]) == 1 && FirstDefault(items) == 1;
    assert a < Pow2(C.width(y)) && !ChoosesLast(C, items, a);
  }
}
