/**
 * Parsed Verilog expressions: their two-valued meaning, the text they print as,
 * and the weakening that turns a branch condition into a hypothesis.
 */
module PExpr {
  import opened Prelude

  /** An identifier, as the number its interned text stands for. */
  type Name = nat

  /** 'e', 'n', 'L', 'a' and 'o' are the operators the analysis reads; the others keep their code. */
  datatype BinOp = Eq | Ne | Le | And | Or | OtherBin(code: nat)

  /** 'N' is the only unary operator the analysis reads. */
  datatype UnOp = Nor | OtherUn(code: nat)

  datatype Expr =
    | Ident(name: Name)
    | Number(value: nat)
    | Unary(op: UnOp, arg: Expr)
    | Binary(bop: BinOp, left: Expr, right: Expr)
    | Ternary(cond: Expr, tru: Expr, fal: Expr)
    | Concat(repeat: Option<Expr>, parts: seq<Expr>)
    | Call(fn: Name, args: seq<Expr>)

  type State = map<Name, nat>

  /** The meaning of the operators the analysis does not read: every theorem holds for all of them. */
  datatype Interp = Interp(
    un: (nat, nat) -> nat,
    bin: (nat, nat, nat) -> nat,
    cat: (nat, seq<nat>) -> nat,
    call: (Name, seq<nat>) -> nat)

  function Get(s: State, x: Name): nat {
    if x in s then s[x] else 0
  }

  function Truth(b: bool): nat {
    if b then 1 else 0
  }

  function EvalBinary(I: Interp, op: BinOp, l: nat, r: nat): nat {
    match op
    case Eq => Truth(l == r)
    case Ne => Truth(l != r)
    case Le => Truth(l <= r)
    case And => Truth(l != 0 && r != 0)
    case Or => Truth(l != 0 || r != 0)
    case OtherBin(c) => I.bin(c, l, r)
  }

  function EvalUnary(I: Interp, op: UnOp, v: nat): nat {
    match op
    case Nor => Truth(v == 0)
    case OtherUn(c) => I.un(c, v)
  }

  function Eval(I: Interp, e: Expr, s: State): nat
    decreases e, 0
  {
    match e
    case Ident(x) => Get(s, x)
    case Number(n) => n
    case Unary(op, a) => EvalUnary(I, op, Eval(I, a, s))
    case Binary(op, l, r) => EvalBinary(I, op, Eval(I, l, s), Eval(I, r, s))
    case Ternary(c, t, f) => if Eval(I, c, s) != 0 then Eval(I, t, s) else Eval(I, f, s)
    case Concat(rep, ps) =>
      I.cat(match rep { case None => 1 case Some(r) => Eval(I, r, s) }, EvalAll(I, ps, s))
    case Call(f, xs) => I.call(f, EvalAll(I, xs, s))
  }

  function EvalAll(I: Interp, es: seq<Expr>, s: State): seq<nat>
    decreases es, 0
  {
    if es == [] then [] else [Eval(I, es[0], s)] + EvalAll(I, es[1..], s)
  }

  /** The expression is true in the state. */
  predicate Holds(I: Interp, e: Expr, s: State) {
    Eval(I, e, s) != 0
  }

  // ----- the variables an expression reads -----

  function Vars(e: Expr): set<Name>
    decreases e, 0
  {
    match e
    case Ident(x) => {x}
    case Number(n) => {}
    case Unary(op, a) => Vars(a)
    case Binary(op, l, r) => Vars(l) + Vars(r)
    case Ternary(c, t, f) => Vars(c) + Vars(t) + Vars(f)
    case Concat(rep, ps) => (match rep { case None => {} case Some(r) => Vars(r) }) + VarsAll(ps)
    case Call(f, xs) => VarsAll(xs)
  }

  function VarsAll(es: seq<Expr>): set<Name>
    decreases es, 0
  {
    if es == [] then {} else Vars(es[0]) + VarsAll(es[1..])
  }

  predicate Agree(s: State, t: State, xs: set<Name>) {
    forall x <- xs :: Get(s, x) == Get(t, x)
  }

  /** An expression's value depends on nothing but the variables it reads. */
  lemma {:induction false} EvalFrame(I: Interp, e: Expr, s: State, t: State)
    requires Agree(s, t, Vars(e))
    ensures Eval(I, e, s) == Eval(I, e, t)
    decreases e, 0
  {
    match e
    case Ident(x) =>
    case Number(n) =>
    case Unary(op, a) => EvalFrame(I, a, s, t);
    case Binary(op, l, r) => EvalFrame(I, l, s, t); EvalFrame(I, r, s, t);
    case Ternary(c, tr, f) => EvalFrame(I, c, s, t); EvalFrame(I, tr, s, t); EvalFrame(I, f, s, t);
    case Concat(rep, ps) =>
      if rep.Some? { EvalFrame(I, rep.value, s, t); }
      EvalAllFrame(I, ps, s, t);
    case Call(f, xs) => EvalAllFrame(I, xs, s, t);
  }

  lemma {:induction false} EvalAllFrame(I: Interp, es: seq<Expr>, s: State, t: State)
    requires Agree(s, t, VarsAll(es))
    ensures EvalAll(I, es, s) == EvalAll(I, es, t)
    decreases es, 0
  {
    if es != [] {
      EvalFrame(I, es[0], s, t);
      EvalAllFrame(I, es[1..], s, t);
    }
  }

  // ----- matching a hypothesis against an assigned name -----

  /**
   * contains_expr: unary and binary expressions look inside; a name compares itself; every other
   * expression compares its whole printed text with the name, which no composite text equals.
   */
  predicate Contains(e: Expr, x: Name) {
    match e
    case Ident(y) => y == x
    case Number(n) => false
    case Unary(op, a) => Contains(a, x)
    case Binary(op, l, r) => Contains(l, x) || Contains(r, x)
    case Ternary(c, t, f) => false
    case Concat(rep, ps) => false
    case Call(f, xs) => false
  }

  /** Built from names, numbers, unary and binary operators alone. */
  predicate Plain(e: Expr) {
    match e
    case Ident(x) => true
    case Number(n) => true
    case Unary(op, a) => Plain(a)
    case Binary(op, l, r) => Plain(l) && Plain(r)
    case Ternary(c, t, f) => false
    case Concat(rep, ps) => false
    case Call(f, xs) => false
  }

  lemma {:induction false} ContainsIsReading(e: Expr, x: Name)
    requires Plain(e)
    ensures Contains(e, x) <==> x in Vars(e)
  {
    match e
    case Ident(y) =>
    case Number(n) =>
    case Unary(op, a) => ContainsIsReading(a, x);
    case Binary(op, l, r) => ContainsIsReading(l, x); ContainsIsReading(r, x);
  }

  // ----- weakening a condition to the tracked vocabulary D -----

  predicate IsWellformed(e: Expr, D: set<Name>) {
    match e
    case Ident(x) => x in D
    case Number(n) => true
    case Unary(op, a) => op == Nor
    case Binary(op, l, r) =>
      (match op
       case Eq => IsWellformed(l, D) && IsWellformed(r, D)
       case Or => IsWellformed(l, D) && IsWellformed(r, D)
       case Le => IsWellformed(l, D) && IsWellformed(r, D)
       case Ne => IsWellformed(l, D) && IsWellformed(r, D)
       case And => IsWellformed(l, D) || IsWellformed(r, D)
       case OtherBin(c) => false)
    case Ternary(c, t, f) => false
    case Concat(rep, ps) => false
    case Call(f, xs) => false
  }

  /** Rebuild a binary node when both weakened operands exist. */
  function Rebuild(op: BinOp, l: Option<Expr>, r: Option<Expr>): Option<Expr> {
    if l.Some? && r.Some? then Some(Binary(op, l.value, r.value)) else None
  }

  /** Keep both operands, or whichever exists. */
  function KeepEither(op: BinOp, l: Option<Expr>, r: Option<Expr>): Option<Expr> {
    if l.Some? && r.Some? then Some(Binary(op, l.value, r.value))
    else if l.Some? then l
    else r
  }

  function ToWellformed(e: Expr, D: set<Name>): Option<Expr> {
    match e
    case Ident(x) => if x in D then Some(e) else None
    case Number(n) => Some(e)
    case Unary(op, a) => if op == Nor then Some(e) else None
    case Binary(op, l, r) =>
      (match op
       case Eq => Rebuild(op, ToWellformed(l, D), ToWellformed(r, D))
       case Or => Rebuild(op, ToWellformed(l, D), ToWellformed(r, D))
       case Le => Rebuild(op, ToWellformed(l, D), ToWellformed(r, D))
       case Ne => Rebuild(op, ToWellformed(l, D), ToWellformed(r, D))
       case And => KeepEither(op, ToWellformed(l, D), ToWellformed(r, D))
       case OtherBin(c) => None)
    case Ternary(c, t, f) => None
    case Concat(rep, ps) => None
    case Call(f, xs) => None
  }

  predicate IsNegWellformed(e: Expr, D: set<Name>) {
    match e
    case Binary(op, l, r) =>
      (match op
       case Eq => IsNegWellformed(l, D) && IsNegWellformed(r, D)
       case And => IsNegWellformed(l, D) && IsNegWellformed(r, D)
       case Le => IsNegWellformed(l, D) && IsNegWellformed(r, D)
       case Ne => IsNegWellformed(l, D) && IsNegWellformed(r, D)
       case Or => IsNegWellformed(l, D) || IsNegWellformed(r, D)
       case OtherBin(c) => false)
    case _ => IsWellformed(e, D)
  }

  function NegToWellformed(e: Expr, D: set<Name>): Option<Expr> {
    match e
    case Binary(op, l, r) =>
      (match op
       case Eq => Rebuild(op, NegToWellformed(l, D), NegToWellformed(r, D))
       case And => Rebuild(op, NegToWellformed(l, D), NegToWellformed(r, D))
       case Le => Rebuild(op, NegToWellformed(l, D), NegToWellformed(r, D))
       case Ne => Rebuild(op, NegToWellformed(l, D), NegToWellformed(r, D))
       case Or => KeepEither(op, NegToWellformed(l, D), NegToWellformed(r, D))
       case OtherBin(c) => None)
    case _ => ToWellformed(e, D)
  }

  /** The test and the rewriting agree, in both polarities. */
  lemma {:induction false} WellformedExactlyWhenWeakened(e: Expr, D: set<Name>)
    ensures IsWellformed(e, D) <==> ToWellformed(e, D).Some?
    ensures IsNegWellformed(e, D) <==> NegToWellformed(e, D).Some?
  {
    match e
    case Binary(op, l, r) =>
      WellformedExactlyWhenWeakened(l, D);
      WellformedExactlyWhenWeakened(r, D);
    case _ =>
  }

  predicate IsComparison(op: BinOp) {
    op == Eq || op == Ne || op == Le
  }

  /**
   * Wherever the weakening goes below a comparison it leaves both operands as they were, so no
   * conjunct (or, negated, no disjunct) is dropped from the inside of a comparison. Operands that
   * are names or numbers always satisfy it.
   */
  predicate ComparesExactly(e: Expr, D: set<Name>) {
    match e
    case Binary(op, l, r) =>
      if IsComparison(op) then
        IsWellformed(l, D) && IsWellformed(r, D) ==>
          ToWellformed(l, D) == Some(l) && ToWellformed(r, D) == Some(r)
      else ComparesExactly(l, D) && ComparesExactly(r, D)
    case _ => true
  }

  predicate NegComparesExactly(e: Expr, D: set<Name>) {
    match e
    case Binary(op, l, r) =>
      if IsComparison(op) then
        IsNegWellformed(l, D) && IsNegWellformed(r, D) ==>
          NegToWellformed(l, D) == Some(l) && NegToWellformed(r, D) == Some(r)
      else NegComparesExactly(l, D) && NegComparesExactly(r, D)
    case _ => true
  }

  /** A condition that holds still holds after weakening. */
  lemma {:induction false} WeakeningIsImplied(I: Interp, e: Expr, D: set<Name>, s: State)
    requires ComparesExactly(e, D)
    requires ToWellformed(e, D).Some?
    requires Holds(I, e, s)
    ensures Holds(I, ToWellformed(e, D).value, s)
  {
    match e
    case Binary(op, l, r) =>
      WellformedExactlyWhenWeakened(l, D);
      WellformedExactlyWhenWeakened(r, D);
      if !IsComparison(op) {
        if ToWellformed(l, D).Some? && Holds(I, l, s) { WeakeningIsImplied(I, l, D, s); }
        if ToWellformed(r, D).Some? && Holds(I, r, s) { WeakeningIsImplied(I, r, D, s); }
      }
    case _ =>
  }

  /** A condition that fails still fails after the weakening meant for its negation. */
  lemma {:induction false} NegWeakeningIsImplied(I: Interp, e: Expr, D: set<Name>, s: State)
    requires NegComparesExactly(e, D)
    requires NegToWellformed(e, D).Some?
    requires !Holds(I, e, s)
    ensures !Holds(I, NegToWellformed(e, D).value, s)
  {
    match e
    case Binary(op, l, r) =>
      WellformedExactlyWhenWeakened(l, D);
      WellformedExactlyWhenWeakened(r, D);
      if !IsComparison(op) {
        if NegToWellformed(l, D).Some? && !Holds(I, l, s) { NegWeakeningIsImplied(I, l, D, s); }
        if NegToWellformed(r, D).Some? && !Holds(I, r, s) { NegWeakeningIsImplied(I, r, D, s); }
      }
    case _ =>
  }

  /** The state's values fit their declared widths. */
  predicate Fits(s: State, width: Name -> nat) {
    forall x <- s :: s[x] < Pow2(width(x))
  }

  /**
   * Outside that fragment weakening is not an implication: (x && y) == n, with only x tracked,
   * becomes x == n. It is implied in every state exactly when the comparison can never hold (n of
   * two or more) or when n is 1 and x is a single bit.
   */
  lemma WeakeningInsideComparison(I: Interp, x: Name, y: Name, n: nat, width: Name -> nat)
    requires x != y && width(x) > 0 && width(y) > 0
    ensures var e := Binary(Eq, Binary(And, Ident(x), Ident(y)), Number(n));
            && ToWellformed(e, {x}) == Some(Binary(Eq, Ident(x), Number(n)))
            && ((forall s :: Fits(s, width) && Holds(I, e, s) ==> Holds(I, ToWellformed(e, {x}).value, s))
                <==> n >= 2 || (n == 1 && width(x) == 1))
  {
    var c := Binary(And, Ident(x), Ident(y));
    var e := Binary(Eq, c, Number(n));
    var w := Binary(Eq, Ident(x), Number(n));
    assert ToWellformed(c, {x}) == Some(Ident(x));
    assert ToWellformed(e, {x}) == Some(w);
    forall s: State
      ensures Holds(I, e, s) <==> Truth(Get(s, x) != 0 && Get(s, y) != 0) == n
      ensures Holds(I, w, s) <==> Get(s, x) == n
    {
      assert Eval(I, Ident(x), s) == Get(s, x) && Eval(I, Ident(y), s) == Get(s, y);
      assert Eval(I, c, s) == Truth(Get(s, x) != 0 && Get(s, y) != 0);
      assert Eval(I, Number(n), s) == n;
    }
    if n == 0 {
      var s: State := map[x := 1, y := 0];
      assert Fits(s, width) && Holds(I, e, s) && !Holds(I, w, s);
    } else if n == 1 && width(x) > 1 {
      var s: State := map[x := 2, y := 1];
      assert Pow2(width(x)) == 2 * (2 * Pow2(width(x) - 2));
      assert Fits(s, width) && Holds(I, e, s) && !Holds(I, w, s);
    } else if n == 1 {
      assert Pow2(1) == 2;
    }
  }

  /** A condition over tracked names that the weakening reads in full. */
  predicate InVocabulary(e: Expr, D: set<Name>) {
    match e
    case Ident(x) => x in D
    case Number(n) => true
    case Unary(op, a) => op == Nor
    case Binary(op, l, r) => !op.OtherBin? && InVocabulary(l, D) && InVocabulary(r, D)
    case _ => false
  }

  function Nodes(e: Expr): nat {
    match e
    case Binary(op, l, r) => 1 + Nodes(l) + Nodes(r)
    case _ => 1
  }

  lemma {:induction false} WeakeningShrinks(e: Expr, D: set<Name>)
    ensures ToWellformed(e, D).Some? ==> Nodes(ToWellformed(e, D).value) <= Nodes(e)
  {
    match e
    case Binary(op, l, r) =>
      WeakeningShrinks(l, D);
      WeakeningShrinks(r, D);
    case _ =>
  }

  lemma {:induction false} NegWeakeningShrinks(e: Expr, D: set<Name>)
    ensures NegToWellformed(e, D).Some? ==> Nodes(NegToWellformed(e, D).value) <= Nodes(e)
  {
    match e
    case Binary(op, l, r) =>
      NegWeakeningShrinks(l, D);
      NegWeakeningShrinks(r, D);
    case _ =>
  }

  /** Weakening, in either polarity, changes nothing exactly in conditions over the tracked names. */
  lemma WeakeningKeepsExactly(e: Expr, D: set<Name>)
    ensures ToWellformed(e, D) == Some(e) <==> InVocabulary(e, D)
    ensures NegToWellformed(e, D) == Some(e) <==> InVocabulary(e, D)
  {
    KeepsExactly(e, D);
    NegKeepsExactly(e, D);
  }

  lemma {:induction false} KeepsExactly(e: Expr, D: set<Name>)
    ensures ToWellformed(e, D) == Some(e) <==> InVocabulary(e, D)
  {
    match e
    case Binary(op, l, r) =>
      KeepsExactly(l, D);
      KeepsExactly(r, D);
      WeakeningShrinks(l, D);
      WeakeningShrinks(r, D);
    case _ =>
  }

  lemma {:induction false} NegKeepsExactly(e: Expr, D: set<Name>)
    ensures NegToWellformed(e, D) == Some(e) <==> InVocabulary(e, D)
  {
    match e
    case Binary(op, l, r) =>
      NegKeepsExactly(l, D);
      NegKeepsExactly(r, D);
      NegWeakeningShrinks(l, D);
      NegWeakeningShrinks(r, D);
    case _ =>
  }

  /** The operands of nested conjunctions, or of nested disjunctions, in order. */
  function Parts(op: BinOp, e: Expr): (es: seq<Expr>)
    ensures es != []
  {
    match e
    case Binary(o, l, r) => if o == op then Parts(op, l) + Parts(op, r) else [e]
    case _ => [e]
  }

  function Weakened(e: Expr, D: set<Name>, negated: bool): Option<Expr> {
    if negated then NegToWellformed(e, D) else ToWellformed(e, D)
  }

  /** What is left of each condition, without those of which nothing is left. */
  function WeakenEach(es: seq<Expr>, D: set<Name>, negated: bool): seq<Expr> {
    if es == [] then [] else Remains(es[0], D, negated) + WeakenEach(es[1..], D, negated)
  }

  function Remains(e: Expr, D: set<Name>, negated: bool): seq<Expr> {
    match Weakened(e, D, negated)
    case None => []
    case Some(w) => [w]
  }

  lemma {:induction false} WeakenEachAppend(a: seq<Expr>, b: seq<Expr>, D: set<Name>, negated: bool)
    ensures WeakenEach(a + b, D, negated) == WeakenEach(a, D, negated) + WeakenEach(b, D, negated)
  {
    if a == [] {
      assert a + b == b;
    } else {
      WeakenEachAppend(a[1..], b, D, negated);
      assert (a + b)[1..] == a[1..] + b && (a + b)[0] == a[0];
    }
  }

  /** The operator whose operands can be dropped one by one. */
  function DropOp(negated: bool): BinOp {
    if negated then Or else And
  }

  /** The parts of what is left of a condition. */
  function PartsLeft(e: Expr, D: set<Name>, negated: bool): seq<Expr> {
    match Weakened(e, D, negated)
    case None => []
    case Some(w) => Parts(DropOp(negated), w)
  }

  lemma PartsLeftOfBoth(e: Expr, D: set<Name>, negated: bool)
    requires e.Binary? && e.bop == DropOp(negated)
    ensures PartsLeft(e, D, negated) == PartsLeft(e.left, D, negated) + PartsLeft(e.right, D, negated)
  {
  }

  lemma PartsLeftOfOne(e: Expr, D: set<Name>, negated: bool)
    requires !(e.Binary? && e.bop == DropOp(negated))
    ensures PartsLeft(e, D, negated) == Remains(e, D, negated)
  {
    var w := Weakened(e, D, negated);
    assert w.Some? && w.value.Binary? ==> e.Binary? && w.value.bop == e.bop;
  }

  /**
   * A condition is weakened by dropping the conjuncts of which nothing is left, one by one, and no
   * others; for its negation, the disjuncts.
   */
  lemma {:induction false} WeakeningDropsParts(e: Expr, D: set<Name>, negated: bool)
    ensures PartsLeft(e, D, negated) == WeakenEach(Parts(DropOp(negated), e), D, negated)
  {
    var op := DropOp(negated);
    if e.Binary? && e.bop == op {
      PartsLeftOfBoth(e, D, negated);
      WeakeningDropsParts(e.left, D, negated);
      WeakeningDropsParts(e.right, D, negated);
      WeakenEachAppend(Parts(op, e.left), Parts(op, e.right), D, negated);
    } else {
      PartsLeftOfOne(e, D, negated);
      assert [e][1..] == [];
    }
  }

  /** With no 'N' in it, a weakened condition speaks of tracked names alone. */
  predicate NorFree(e: Expr) {
    match e
    case Unary(op, a) => false
    case Binary(op, l, r) => NorFree(l) && NorFree(r)
    case _ => true
  }

  lemma {:induction false} WeakenedVocabulary(e: Expr, D: set<Name>)
    requires NorFree(e)
    ensures ToWellformed(e, D).Some? ==> Vars(ToWellformed(e, D).value) <= D
    ensures NegToWellformed(e, D).Some? ==> Vars(NegToWellformed(e, D).value) <= D
  {
    match e
    case Binary(op, l, r) =>
      WeakenedVocabulary(l, D);
      WeakenedVocabulary(r, D);
    case _ =>
  }

  /** What stands under an 'N' that the weakening can keep is plain. */
  predicate NorsPlain(e: Expr) {
    match e
    case Unary(op, a) => op == Nor ==> Plain(a)
    case Binary(op, l, r) => NorsPlain(l) && NorsPlain(r)
    case _ => true
  }

  lemma {:induction false} WeakenedIsPlain(e: Expr, D: set<Name>)
    requires NorsPlain(e)
    ensures ToWellformed(e, D).Some? ==> Plain(ToWellformed(e, D).value)
    ensures NegToWellformed(e, D).Some? ==> Plain(NegToWellformed(e, D).value)
  {
    match e
    case Binary(op, l, r) =>
      WeakenedIsPlain(l, D);
      WeakenedIsPlain(r, D);
    case _ =>
  }
}
