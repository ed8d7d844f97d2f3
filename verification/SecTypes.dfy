/**
 * Security types: labels that may depend on the value of a tracked name, the label computed for an
 * expression, and its noninterference theorem.
 */
module SecTypes {
  import opened Prelude
  import opened PExpr

  type Label = nat

  const LOW: Label := 0
  const HIGH: Label := 1

  /** A constant label, a type family applied to a name, or a join. */
  datatype SecType =
    | Const(basic: Label)
    | Index(family: nat, expr: Name)
    | Join(comp1: SecType, comp2: SecType)

  const BOT: SecType := Const(LOW)
  const TOP: SecType := Const(HIGH)

  /** The order on labels, their join, and the meaning of each type family. */
  datatype Lattice = Lattice(
    leq: (Label, Label) -> bool,
    join: (Label, Label) -> Label,
    families: (nat, nat) -> Label)

  ghost predicate IsLattice(L: Lattice) {
    && (forall a :: L.leq(a, a))
    && (forall a, b, c :: L.leq(a, b) && L.leq(b, c) ==> L.leq(a, c))
    && (forall a, b :: L.leq(a, b) && L.leq(b, a) ==> a == b)
    && (forall a, b, c :: L.leq(L.join(a, b), c) <==> L.leq(a, c) && L.leq(b, c))
    && (forall a :: L.leq(LOW, a) && L.leq(a, HIGH))
  }

  lemma JoinIsUpper(L: Lattice, a: Label, b: Label)
    requires IsLattice(L)
    ensures L.leq(a, L.join(a, b)) && L.leq(b, L.join(a, b))
  {
    assert L.leq(L.join(a, b), L.join(a, b));
  }

  type TypeMap = map<Name, SecType>

  /** A type's label in a state. */
  function LabelIn(L: Lattice, ty: SecType, s: State): Label {
    match ty
    case Const(l) => l
    case Index(f, x) => L.families(f, Get(s, x))
    case Join(a, b) => L.join(LabelIn(L, a, s), LabelIn(L, b, s))
  }

  function DepExprs(ty: SecType): set<Name> {
    match ty
    case Const(l) => {}
    case Index(f, x) => {x}
    case Join(a, b) => DepExprs(a) + DepExprs(b)
  }

  lemma {:induction false} LabelFrame(L: Lattice, ty: SecType, s: State, t: State)
    requires Agree(s, t, DepExprs(ty))
    ensures LabelIn(L, ty, s) == LabelIn(L, ty, t)
  {
    if ty.Join? {
      LabelFrame(L, ty.comp1, s, t);
      LabelFrame(L, ty.comp2, s, t);
    }
  }

  /** A name without a type is at the top. */
  function NameType(G: TypeMap, x: Name): SecType {
    if x in G then G[x] else TOP
  }

  /** The type of an expression; none for a ternary, which must have been translated before. */
  function ExprType(G: TypeMap, e: Expr): Option<SecType>
    decreases e, 0
  {
    match e
    case Ident(x) => Some(NameType(G, x))
    case Number(n) => Some(BOT)
    case Unary(op, a) => ExprType(G, a)
    case Binary(op, l, r) => JoinTypes(ExprType(G, l), ExprType(G, r))
    case Ternary(c, t, f) => None
    case Concat(rep, ps) =>
      (match rep
       case None => JoinAll(G, ps, Some(BOT))
       case Some(r) => JoinAll(G, ps, ExprType(G, r)))
    case Call(f, xs) => Some(BOT)
  }

  function JoinTypes(a: Option<SecType>, b: Option<SecType>): Option<SecType> {
    if a.Some? && b.Some? then Some(Join(a.value, b.value)) else None
  }

  function JoinAll(G: TypeMap, ps: seq<Expr>, last: Option<SecType>): Option<SecType>
    decreases ps, 0
  {
    if ps == [] then last else JoinAll(G, ps[1..], JoinTypes(last, ExprType(G, ps[0])))
  }

  /** The loop that types a concatenation, joining one operand after the other. */
  method ConcatType(G: TypeMap, repeat: Option<Expr>, parts: seq<Expr>) returns (last: Option<SecType>)
    ensures last == ExprType(G, Concat(repeat, parts))
  {
    last := Some(BOT);
    if repeat.Some? {
      last := ExprType(G, repeat.value);
    }
    for i := 0 to |parts|
      invariant JoinAll(G, parts[i..], last) == ExprType(G, Concat(repeat, parts))
    {
      assert parts[i..][1..] == parts[i + 1..];
      last := JoinTypes(last, ExprType(G, parts[i]));
    }
  }

  predicate CallFree(e: Expr)
    decreases e, 0
  {
    match e
    case Ident(x) => true
    case Number(n) => true
    case Unary(op, a) => CallFree(a)
    case Binary(op, l, r) => CallFree(l) && CallFree(r)
    case Ternary(c, t, f) => CallFree(c) && CallFree(t) && CallFree(f)
    case Concat(rep, ps) => (match rep case None => true case Some(r) => CallFree(r)) && CallFreeAll(ps)
    case Call(f, xs) => false
  }

  predicate CallFreeAll(es: seq<Expr>)
    decreases es, 0
  {
    es == [] || (CallFree(es[0]) && CallFreeAll(es[1..]))
  }

  lemma {:induction false} JoinAllIsAbove(L: Lattice, G: TypeMap, ps: seq<Expr>, last: Option<SecType>, s: State)
    requires IsLattice(L) && JoinAll(G, ps, last).Some?
    ensures last.Some? && L.leq(LabelIn(L, last.value, s), LabelIn(L, JoinAll(G, ps, last).value, s))
    decreases ps, 0
  {
    if ps != [] {
      JoinAllIsAbove(L, G, ps[1..], JoinTypes(last, ExprType(G, ps[0])), s);
      JoinIsUpper(L, LabelIn(L, last.value, s), LabelIn(L, ExprType(G, ps[0]).value, s));
    }
  }

  /** The computed label is above the label of every variable the expression reads. */
  lemma {:induction false} LabelIsAboveItsVariables(L: Lattice, G: TypeMap, e: Expr, s: State, x: Name)
    requires IsLattice(L) && CallFree(e) && ExprType(G, e).Some? && x in Vars(e)
    ensures L.leq(LabelIn(L, NameType(G, x), s), LabelIn(L, ExprType(G, e).value, s))
    decreases e, 0
  {
    match e
    case Ident(y) =>
    case Unary(op, a) => LabelIsAboveItsVariables(L, G, a, s, x);
    case Binary(op, l, r) =>
      JoinIsUpper(L, LabelIn(L, ExprType(G, l).value, s), LabelIn(L, ExprType(G, r).value, s));
      if x in Vars(l) {
        LabelIsAboveItsVariables(L, G, l, s, x);
      } else {
        LabelIsAboveItsVariables(L, G, r, s, x);
      }
    case Concat(rep, ps) =>
      var first := if rep.Some? then ExprType(G, rep.value) else Some(BOT);
      if x in VarsAll(ps) {
        OperandsAreBelow(L, G, ps, first, s, x);
      } else {
        JoinAllIsAbove(L, G, ps, first, s);
        LabelIsAboveItsVariables(L, G, rep.value, s, x);
      }
  }

  lemma {:induction false} OperandsAreBelow(L: Lattice, G: TypeMap, ps: seq<Expr>, last: Option<SecType>, s: State,
                                            x: Name)
    requires IsLattice(L) && CallFreeAll(ps) && JoinAll(G, ps, last).Some? && x in VarsAll(ps)
    ensures L.leq(LabelIn(L, NameType(G, x), s), LabelIn(L, JoinAll(G, ps, last).value, s))
    decreases ps, 0
  {
    var next := JoinTypes(last, ExprType(G, ps[0]));
    JoinAllIsAbove(L, G, ps[1..], next, s);
    if x in Vars(ps[0]) {
      LabelIsAboveItsVariables(L, G, ps[0], s, x);
      JoinIsUpper(L, LabelIn(L, last.value, s), LabelIn(L, ExprType(G, ps[0]).value, s));
    } else {
      OperandsAreBelow(L, G, ps[1..], next, s, x);
    }
  }

  ghost predicate AllBelow(L: Lattice, G: TypeMap, xs: set<Name>, s: State, a: Label) {
    forall x <- xs :: L.leq(LabelIn(L, NameType(G, x), s), a)
  }

  /** Nothing but the variables raises the label. */
  lemma {:induction false} LabelIsBelow(L: Lattice, G: TypeMap, e: Expr, s: State, a: Label)
    requires IsLattice(L) && ExprType(G, e).Some? && AllBelow(L, G, Vars(e), s, a)
    ensures L.leq(LabelIn(L, ExprType(G, e).value, s), a)
    decreases e, 0
  {
    match e
    case Ident(x) =>
    case Number(n) =>
    case Unary(op, arg) => LabelIsBelow(L, G, arg, s, a);
    case Binary(op, l, r) =>
      LabelIsBelow(L, G, l, s, a);
      LabelIsBelow(L, G, r, s, a);
    case Concat(rep, ps) =>
      JoinAllIsSome(G, ps, if rep.Some? then ExprType(G, rep.value) else Some(BOT));
      if rep.Some? { LabelIsBelow(L, G, rep.value, s, a); }
      JoinAllIsBelow(L, G, ps, if rep.Some? then ExprType(G, rep.value) else Some(BOT), s, a);
    case Call(f, xs) =>
  }

  lemma {:induction false} JoinAllIsSome(G: TypeMap, ps: seq<Expr>, last: Option<SecType>)
    requires JoinAll(G, ps, last).Some?
    ensures last.Some?
    decreases ps, 0
  {
    if ps != [] { JoinAllIsSome(G, ps[1..], JoinTypes(last, ExprType(G, ps[0]))); }
  }

  lemma {:induction false} JoinAllIsBelow(L: Lattice, G: TypeMap, ps: seq<Expr>, last: Option<SecType>, s: State,
                                          a: Label)
    requires IsLattice(L) && last.Some? && JoinAll(G, ps, last).Some?
    requires L.leq(LabelIn(L, last.value, s), a) && AllBelow(L, G, VarsAll(ps), s, a)
    ensures L.leq(LabelIn(L, JoinAll(G, ps, last).value, s), a)
    decreases ps, 0
  {
    if ps != [] {
      var next := JoinTypes(last, ExprType(G, ps[0]));
      JoinAllIsSome(G, ps[1..], next);
      LabelIsBelow(L, G, ps[0], s, a);
      JoinAllIsBelow(L, G, ps[1..], next, s, a);
    }
  }

  /** The computed label is the least one above the labels of the variables the expression reads. */
  lemma LabelIsLeastBound(L: Lattice, G: TypeMap, e: Expr, s: State, a: Label)
    requires IsLattice(L) && CallFree(e) && ExprType(G, e).Some?
    ensures L.leq(LabelIn(L, ExprType(G, e).value, s), a) <==> AllBelow(L, G, Vars(e), s, a)
  {
    if L.leq(LabelIn(L, ExprType(G, e).value, s), a) {
      forall x | x in Vars(e) ensures L.leq(LabelIn(L, NameType(G, x), s), a) {
        LabelIsAboveItsVariables(L, G, e, s, x);
      }
    } else if AllBelow(L, G, Vars(e), s, a) {
      LabelIsBelow(L, G, e, s, a);
    }
  }

  /** What reads an undeclared name may flow to the top only. */
  lemma UndeclaredIsTop(L: Lattice, G: TypeMap, e: Expr, x: Name, s: State)
    requires IsLattice(L) && CallFree(e) && ExprType(G, e).Some? && x in Vars(e) && x !in G
    ensures LabelIn(L, ExprType(G, e).value, s) == HIGH
  {
    LabelIsAboveItsVariables(L, G, e, s, x);
  }

  /** The states agree on every variable whose label, in the first of them, flows to the level. */
  ghost predicate LowAgree(L: Lattice, G: TypeMap, level: Label, s: State, t: State) {
    forall x :: L.leq(LabelIn(L, NameType(G, x), s), level) ==> Get(s, x) == Get(t, x)
  }

  /** If the computed label flows to the level, the expression cannot tell such states apart. */
  lemma ExprNoninterference(I: Interp, L: Lattice, G: TypeMap, level: Label, e: Expr, s: State, t: State)
    requires IsLattice(L) && CallFree(e) && ExprType(G, e).Some?
    requires L.leq(LabelIn(L, ExprType(G, e).value, s), level)
    requires LowAgree(L, G, level, s, t)
    ensures Eval(I, e, s) == Eval(I, e, t)
  {
    forall x | x in Vars(e)
      ensures Get(s, x) == Get(t, x)
    {
      LabelIsAboveItsVariables(L, G, e, s, x);
      assert L.leq(LabelIn(L, NameType(G, x), s), level);
    }
    EvalFrame(I, e, s, t);
  }

  /** A function call is typed at the bottom whatever its arguments, so the theorem stops there. */
  lemma CallsAreNotTracked(I: Interp, L: Lattice, G: TypeMap, level: Label, f: Name, x: Name)
    requires IsLattice(L) && NameType(G, x).Const? && !L.leq(NameType(G, x).basic, level)
    requires I.call(f, [0]) != I.call(f, [1])
    requires forall y <- G :: G[y].Const?
    ensures var e := Call(f, [Ident(x)]);
            && ExprType(G, e) == Some(BOT)
            && LowAgree(L, G, level, map[x := 0], map[x := 1])
            && Eval(I, e, map[x := 0]) != Eval(I, e, map[x := 1])
  {
    forall n: nat
      ensures Eval(I, Call(f, [Ident(x)]), map[x := n]) == I.call(f, [n])
    {
      var s: State := map[x := n];
      assert EvalAll(I, [Ident(x)][1..], s) == [];
      assert EvalAll(I, [Ident(x)], s) == [n];
    }
    forall y | L.leq(LabelIn(L, NameType(G, y), map[x := 0]), level)
      ensures Get(map[x := 0], y) == Get(map[x := 1], y)
    {
      assert y != x;
    }
  }

  // ----- simplification of joins -----

  predicate IsBottom(t: SecType) {
    match t
    case Const(l) => l == LOW
    case Index(f, x) => false
    case Join(a, b) => IsBottom(a) && IsBottom(b)
  }

  predicate HasBottom(t: SecType) {
    match t
    case Const(l) => l == LOW
    case Index(f, x) => false
    case Join(a, b) => HasBottom(a) || HasBottom(b)
  }

  predicate IsTop(t: SecType) {
    match t
    case Const(l) => l == HIGH
    case Index(f, x) => false
    case Join(a, b) => IsTop(a) || IsTop(b)
  }

  function Size(t: SecType): nat {
    match t
    case Const(l) => 1
    case Index(f, x) => 1
    case Join(a, b) => 1 + Size(a) + Size(b)
  }

  /** simplify: drop bottoms, absorb tops, collapse equal components. */
  function Simplify(t: SecType): (r: SecType)
    ensures IsBottom(r) || IsTop(r) || !HasBottom(r)
    ensures r == t || Size(r) < Size(t)
    ensures DepExprs(r) <= DepExprs(t)
    ensures IsTop(r) ==> IsTop(t)
    ensures IsBottom(r) ==> IsBottom(t)
    decreases Size(t)
  {
    match t
    case Const(l) => t
    case Index(f, x) => t
    case Join(a, b) =>
      if IsBottom(t) then BOT
      else if IsTop(t) then TOP
      else if IsBottom(a) then Simplify(b)
      else if IsBottom(b) then Simplify(a)
      else if HasBottom(a) || HasBottom(b) then
        var a' := if HasBottom(a) then Simplify(a) else a;
        var b' := if HasBottom(b) then Simplify(b) else b;
        Simplify(Join(a', b'))
      else if a == b then a
      else t
  }

  lemma {:induction false} BottomAndTop(L: Lattice, t: SecType, s: State)
    requires IsLattice(L)
    ensures IsBottom(t) ==> LabelIn(L, t, s) == LOW
    ensures IsTop(t) ==> LabelIn(L, t, s) == HIGH
  {
    if t.Join? {
      BottomAndTop(L, t.comp1, s);
      BottomAndTop(L, t.comp2, s);
      JoinIsLeast(L, LabelIn(L, t.comp1, s), LabelIn(L, t.comp2, s));
    }
  }

  /** What a join is when one side is below the other. */
  lemma JoinIsLeast(L: Lattice, a: Label, b: Label)
    requires IsLattice(L)
    ensures L.leq(a, b) ==> L.join(a, b) == b
    ensures L.leq(b, a) ==> L.join(a, b) == a
  {
    JoinIsUpper(L, a, b);
    if L.leq(a, b) { assert L.leq(b, b); }
    if L.leq(b, a) { assert L.leq(a, a); }
  }

  /** Simplification never changes a label. */
  lemma {:induction false} SimplifyKeepsLabels(L: Lattice, t: SecType, s: State)
    requires IsLattice(L)
    ensures LabelIn(L, Simplify(t), s) == LabelIn(L, t, s)
    decreases Size(t)
  {
    if t.Join? {
      var a, b := t.comp1, t.comp2;
      BottomAndTop(L, t, s);
      BottomAndTop(L, a, s);
      BottomAndTop(L, b, s);
      JoinIsLeast(L, LabelIn(L, a, s), LabelIn(L, b, s));
      SimplifyKeepsLabels(L, a, s);
      SimplifyKeepsLabels(L, b, s);
      if !IsBottom(t) && !IsTop(t) && !IsBottom(a) && !IsBottom(b) && (HasBottom(a) || HasBottom(b)) {
        SimplifyKeepsLabels(L, Join(if HasBottom(a) then Simplify(a) else a, if HasBottom(b) then Simplify(b)
                else b), s);
      }
    }
  }
}
