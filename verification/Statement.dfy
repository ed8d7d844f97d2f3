/**
 * Behavioral statements: what running them does, the rewriting of ternary assignments, and the
 * must-modify analysis.
 */
module Statement {
  import opened Prelude
  import opened PExpr

  /** Absent is the null statement: a missing branch, or an empty slot in a block. */
  datatype Stmt =
    | Absent
    | Assign(lval: Name, rval: Expr)
    | AssignNB(lval: Name, rval: Expr)
    | Block(stmts: seq<Stmt>)
    | If(cond: Expr, ifTrue: Stmt, ifFalse: Stmt)
    | Case(sel: Expr, items: seq<CaseItem>)

  /** An item without labels is the default. */
  datatype CaseItem = CaseItem(labels: seq<Expr>, body: Stmt)

  /** What surrounds a process: operator meanings, declared widths, the names labels depend on. */
  datatype Context = Context(interp: Interp, width: Name -> nat, tracked: set<Name>)

  /** The values now, and the nonblocking updates waiting for the end of the cycle. */
  datatype Outcome = Outcome(now: State, pending: State)

  /** An assigned value is truncated to the width of its target. */
  function Stored(C: Context, x: Name, e: Expr, s: State): nat {
    Eval(C.interp, e, s) % Pow2(C.width(x))
  }

  predicate Matches(C: Context, v: nat, labels: seq<Expr>, s: State) {
    exists i | 0 <= i < |labels| :: Eval(C.interp, labels[i], s) == v
  }

  /** The first item with a label equal to v. */
  function FirstMatch(C: Context, v: nat, items: seq<CaseItem>, s: State): (k: nat)
    ensures k <= |items|
  {
    if items == [] || Matches(C, v, items[0].labels, s) then 0
    else 1 + FirstMatch(C, v, items[1..], s)
  }

  function FirstDefault(items: seq<CaseItem>): (k: nat)
    ensures k <= |items|
  {
    if items == [] || items[0].labels == [] then 0 else 1 + FirstDefault(items[1..])
  }

  /** The item a case statement runs: a matching one, else the default, else none (the item count). */
  function Chosen(C: Context, v: nat, items: seq<CaseItem>, s: State): (k: nat)
    ensures k <= |items|
  {
    var k := FirstMatch(C, v, items, s);
    if k < |items| then k else FirstDefault(items)
  }

  predicate NumericItem(item: CaseItem) {
    forall i | 0 <= i < |item.labels| :: item.labels[i].Number?
  }

  predicate NumericLabels(items: seq<CaseItem>) {
    forall i | 0 <= i < |items| :: NumericItem(items[i])
  }

  /** With numbers as labels the choice depends on the selector's value alone. */
  lemma {:induction false} NumericChoice(C: Context, v: nat, items: seq<CaseItem>, s: State, t: State)
    requires NumericLabels(items)
    ensures FirstMatch(C, v, items, s) == FirstMatch(C, v, items, t)
    ensures Chosen(C, v, items, s) == Chosen(C, v, items, t)
  {
    if items != [] {
      var ls := items[0].labels;
      assert NumericItem(items[0]);
      forall i | 0 <= i < |ls| ensures Eval(C.interp, ls[i], s) == Eval(C.interp, ls[i], t) {
        EvalFrame(C.interp, ls[i], s, t);
      }
      assert Matches(C, v, ls, s) <==> Matches(C, v, ls, t);
      NumericChoice(C, v, items[1..], s, t);
    }
  }

  function Exec(C: Context, s: Stmt, o: Outcome): Outcome
    decreases s, 0
  {
    match s
    case Absent => o
    case Assign(x, e) => o.(now := o.now[x := Stored(C, x, e, o.now)])
    case AssignNB(x, e) => o.(pending := o.pending[x := Stored(C, x, e, o.now)])
    case Block(ss) => ExecAll(C, ss, o)
    case If(c, t, f) => if Holds(C.interp, c, o.now) then Exec(C, t, o) else Exec(C, f, o)
    case Case(e, items) =>
      var k := Chosen(C, Eval(C.interp, e, o.now), items, o.now);
      if k < |items| then Exec(C, items[k].body, o) else o
  }

  function ExecAll(C: Context, ss: seq<Stmt>, o: Outcome): Outcome
    decreases ss, 0
  {
    if ss == [] then o else ExecAll(C, ss[1..], Exec(C, ss[0], o))
  }

  // ----- ternary assignments -----

  function TranslateArm(lhs: Name, e: Expr): Stmt
    decreases e, 1
  {
    if e.Ternary? then Translate(lhs, e) else Assign(lhs, e)
  }

  /** The if-then-else that a ternary assignment is checked as. */
  function Translate(lhs: Name, e: Expr): Stmt
    requires e.Ternary?
    decreases e, 0
  {
    If(e.cond, TranslateArm(lhs, e.tru), TranslateArm(lhs, e.fal))
  }

  /** However deep the arms nest, running the translation assigns the ternary's value. */
  lemma {:induction false} TranslationPreservesMeaning(C: Context, lhs: Name, e: Expr, o: Outcome)
    requires e.Ternary?
    ensures Exec(C, Translate(lhs, e), o) == Exec(C, Assign(lhs, e), o)
  {
    TranslationArm(C, lhs, e.tru, o);
    TranslationArm(C, lhs, e.fal, o);
  }

  lemma {:induction false} TranslationArm(C: Context, lhs: Name, e: Expr, o: Outcome)
    ensures Exec(C, TranslateArm(lhs, e), o) == Exec(C, Assign(lhs, e), o)
  {
    if e.Ternary? {
      TranslationArm(C, lhs, e.tru, o);
      TranslationArm(C, lhs, e.fal, o);
    }
  }

  /** Only assignments to lhs, none with a ternary at the top of its right side, under conditionals. */
  predicate TernaryFreeTree(lhs: Name, s: Stmt) {
    match s
    case Assign(x, e) => x == lhs && !e.Ternary?
    case If(c, t, f) => TernaryFreeTree(lhs, t) && TernaryFreeTree(lhs, f)
    case _ => false
  }

  lemma {:induction false} TranslationIsTernaryFree(lhs: Name, e: Expr)
    ensures TernaryFreeTree(lhs, TranslateArm(lhs, e))
  {
    if e.Ternary? {
      TranslationIsTernaryFree(lhs, e.tru);
      TranslationIsTernaryFree(lhs, e.fal);
      assert TranslateArm(lhs, e) == If(e.cond, TranslateArm(lhs, e.tru), TranslateArm(lhs, e.fal));
    }
  }

  // ----- must-modify -----

  /** The tracked names reported as assigned on every path. */
  function MustModify(s: Stmt, D: set<Name>): set<Name>
    decreases s, 0
  {
    match s
    case Absent => {}
    case Assign(x, e) => if x in D then {x} else {}
    case AssignNB(x, e) => if x in D then {x} else {}
    case Block(ss) => MustModifyAll(ss, D)
    case If(c, t, f) => MustModify(t, D) * MustModify(f, D)
    case Case(e, items) => {}
  }

  function MustModifyAll(ss: seq<Stmt>, D: set<Name>): set<Name>
    decreases ss, 0
  {
    if ss == [] then {} else MustModify(ss[0], D) + MustModifyAll(ss[1..], D)
  }

  class NameSet {
    var names: set<Name>

    constructor ()
      ensures names == {}
    {
      names := {};
    }
  }

  /** The traversal as it runs: it adds to the caller's set, and intersects two local ones at a branch. */
  method CollectMustModify(s: Stmt, D: set<Name>, vars: NameSet)
    modifies vars
    ensures vars.names == old(vars.names) + MustModify(s, D)
    decreases s, 0
  {
    match s
    case Absent =>
    case Assign(x, e) => if x in D { vars.names := vars.names + {x}; }
    case AssignNB(x, e) => if x in D { vars.names := vars.names + {x}; }
    case Block(ss) =>
      for i := 0 to |ss|
        invariant vars.names + MustModifyAll(ss[i..], D) == old(vars.names) + MustModifyAll(ss, D)
      {
        if ss[i] != Absent {
          CollectMustModify(ss[i], D, vars);
        }
      }
    case If(c, t, f) =>
      var ifModified := new NameSet();
      var elseModified := new NameSet();
      if t != Absent {
        CollectMustModify(t, D, ifModified);
      }
      if f != Absent {
        CollectMustModify(f, D, elseModified);
      }
      vars.names := vars.names + ifModified.names * elseModified.names;
    case Case(e, items) =>
  }

  /** The names a run of the statement assigns, now or at the end of the cycle. */
  function Assigned(C: Context, s: Stmt, o: Outcome): set<Name>
    decreases s, 0
  {
    match s
    case Absent => {}
    case Assign(x, e) => {x}
    case AssignNB(x, e) => {x}
    case Block(ss) => AssignedAll(C, ss, o)
    case If(c, t, f) => if Holds(C.interp, c, o.now) then Assigned(C, t, o) else Assigned(C, f, o)
    case Case(e, items) =>
      var k := Chosen(C, Eval(C.interp, e, o.now), items, o.now);
      if k < |items| then Assigned(C, items[k].body, o) else {}
  }

  function AssignedAll(C: Context, ss: seq<Stmt>, o: Outcome): set<Name>
    decreases ss, 0
  {
    if ss == [] then {} else Assigned(C, ss[0], o) + AssignedAll(C, ss[1..], Exec(C, ss[0], o))
  }

  /** Every reported name is tracked, and assigned in every run. */
  lemma {:induction false} MustModifyIsSound(C: Context, s: Stmt, o: Outcome, D: set<Name>)
    ensures MustModify(s, D) <= Assigned(C, s, o) * D
    decreases s, 0
  {
    match s
    case Absent =>
    case Assign(x, e) =>
    case AssignNB(x, e) =>
    case Block(ss) => MustModifyAllIsSound(C, ss, o, D);
    case If(c, t, f) => MustModifyIsSound(C, t, o, D); MustModifyIsSound(C, f, o, D);
    case Case(e, items) =>
  }

  lemma {:induction false} MustModifyAllIsSound(C: Context, ss: seq<Stmt>, o: Outcome, D: set<Name>)
    ensures MustModifyAll(ss, D) <= AssignedAll(C, ss, o) * D
    decreases ss, 0
  {
    if ss != [] {
      MustModifyIsSound(C, ss[0], o, D);
      MustModifyAllIsSound(C, ss[1..], Exec(C, ss[0], o), D);
    }
  }

  /** The assigned sets of all paths, whatever the conditions say. */
  function Paths(s: Stmt): set<set<Name>>
    decreases s, 0
  {
    match s
    case Absent => {{}}
    case Assign(x, e) => {{x}}
    case AssignNB(x, e) => {{x}}
    case Block(ss) => PathsAll(ss)
    case If(c, t, f) => Paths(t) + Paths(f)
    case Case(e, items) => (if HasDefault(items) then {} else {{}}) + PathsOfItems(items)
  }

  function PathsAll(ss: seq<Stmt>): set<set<Name>>
    decreases ss, 0
  {
    if ss == [] then {{}}
    else set a, b | a in Paths(ss[0]) && b in PathsAll(ss[1..]) :: a + b
  }

  predicate HasDefault(items: seq<CaseItem>) {
    FirstDefault(items) < |items|
  }

  function PathsOfItems(items: seq<CaseItem>): set<set<Name>>
    decreases items, 0
  {
    if items == [] then {} else Paths(items[0].body) + PathsOfItems(items[1..])
  }

  /** A run follows one of the paths. */
  lemma {:induction false} RunsFollowPaths(C: Context, s: Stmt, o: Outcome)
    ensures Assigned(C, s, o) in Paths(s)
    decreases s, 0
  {
    match s
    case Absent =>
    case Assign(x, e) =>
    case AssignNB(x, e) =>
    case Block(ss) => RunsFollowPathsAll(C, ss, o);
    case If(c, t, f) => RunsFollowPaths(C, t, o); RunsFollowPaths(C, f, o);
    case Case(e, items) =>
      var k := Chosen(C, Eval(C.interp, e, o.now), items, o.now);
      if k < |items| {
        RunsFollowPaths(C, items[k].body, o);
        PathOfItem(items, k, Assigned(C, items[k].body, o));
      }
  }

  lemma {:induction false} PathOfItem(items: seq<CaseItem>, k: nat, p: set<Name>)
    requires k < |items| && p in Paths(items[k].body)
    ensures p in PathsOfItems(items)
  {
    if k > 0 { PathOfItem(items[1..], k - 1, p); }
  }

  lemma {:induction false} RunsFollowPathsAll(C: Context, ss: seq<Stmt>, o: Outcome)
    ensures AssignedAll(C, ss, o) in PathsAll(ss)
    decreases ss, 0
  {
    if ss != [] {
      RunsFollowPaths(C, ss[0], o);
      RunsFollowPathsAll(C, ss[1..], Exec(C, ss[0], o));
    }
  }

  predicate CaseFree(s: Stmt)
    decreases s, 0
  {
    match s
    case Block(ss) => CaseFreeAll(ss)
    case If(c, t, f) => CaseFree(t) && CaseFree(f)
    case Case(e, items) => false
    case _ => true
  }

  predicate CaseFreeAll(ss: seq<Stmt>)
    decreases ss, 0
  {
    ss == [] || (CaseFree(ss[0]) && CaseFreeAll(ss[1..]))
  }

  predicate OnEveryPath(x: Name, paths: set<set<Name>>) {
    forall p <- paths :: x in p
  }

  /** The analysis is exact: it reports precisely the tracked names that every path assigns. */
  lemma {:induction false} MustModifyIsExact(s: Stmt, D: set<Name>, x: Name)
    requires CaseFree(s)
    ensures Paths(s) != {}
    ensures x in MustModify(s, D) <==> x in D && OnEveryPath(x, Paths(s))
    decreases s, 0
  {
    match s
    case Absent => assert {} in Paths(s);
    case Assign(y, e) => assert {y} in Paths(s);
    case AssignNB(y, e) => assert {y} in Paths(s);
    case Block(ss) => MustModifyAllIsExact(ss, D, x);
    case If(c, t, f) =>
      MustModifyIsExact(t, D, x);
      MustModifyIsExact(f, D, x);
  }

  lemma {:induction false} MustModifyAllIsExact(ss: seq<Stmt>, D: set<Name>, x: Name)
    requires CaseFreeAll(ss)
    ensures PathsAll(ss) != {}
    ensures x in MustModifyAll(ss, D) <==> x in D && OnEveryPath(x, PathsAll(ss))
    decreases ss, 0
  {
    if ss == [] {
      assert {} in PathsAll(ss);
    } else {
      MustModifyIsExact(ss[0], D, x);
      MustModifyAllIsExact(ss[1..], D, x);
      var a :| a in Paths(ss[0]) && (x in a ==> OnEveryPath(x, Paths(ss[0])));
      var b :| b in PathsAll(ss[1..]) && (x in b ==> OnEveryPath(x, PathsAll(ss[1..])));
      assert a + b in PathsAll(ss);
    }
  }

  /** A case statement reports nothing, even when every item, the default included, assigns x. */
  lemma CaseIsNotReported(e: Expr, x: Name, r: Expr, D: set<Name>)
    ensures var s := Case(e, [CaseItem([Number(0)], Assign(x, r)), CaseItem([], Assign(x, r))]);
            OnEveryPath(x, Paths(s)) && x !in MustModify(s, D)
  {
    var items := [CaseItem([Number(0)], Assign(x, r)), CaseItem([], Assign(x, r))];
    assert items[1..] == [CaseItem([], Assign(x, r))];
    assert PathsOfItems(items[1..]) == {{x}} + PathsOfItems(items[1..][1..]);
    assert PathsOfItems(items) == {{x}};
    assert FirstDefault(items) == 1;
  }
}
