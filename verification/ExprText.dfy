/**
 * The text expressions print as, as a sequence of word codes, and the set intersection that
 * compares expressions by that text.
 */
module ExprText {
  import opened PExpr

  const NOT: nat := 0
  const LPAREN: nat := 1
  const RPAREN: nat := 2
  const EQUALS: nat := 3
  const AT_MOST: nat := 4
  const OR: nat := 5
  const AND: nat := 6
  const QUESTION: nat := 7
  const COLON: nat := 8
  const LBRACE: nat := 9
  const RBRACE: nat := 10
  const COMMA: nat := 11

  function NameWord(x: Name): nat { 12 + 4 * x }
  function NumberWord(n: nat): nat { 13 + 4 * n }
  function UnaryWord(c: nat): nat { 14 + 4 * c }
  function BinaryWord(c: nat): nat { 15 + 4 * c }

  /**
   * The printed form of e, followed by rest: prefix for the operators the solver reads, infix for
   * the others.
   */
  function Print(e: Expr, rest: seq<nat>): seq<nat>
    decreases e, 0
  {
    match e
    case Ident(x) => [NameWord(x)] + rest
    case Number(n) => [NumberWord(n)] + rest
    case Unary(op, a) => [match op case Nor => NOT case OtherUn(c) => UnaryWord(c)] + Paren(a, rest)
    case Binary(op, l, r) =>
      (match op
       case Eq => [EQUALS] + Print(l, Print(r, rest))
       case Or => [OR] + Paren(l, Paren(r, rest))
       case And => [AND] + Paren(l, Paren(r, rest))
       case Le => [AT_MOST] + Paren(l, Paren(r, rest))
       case Ne => [NOT] + ([LPAREN] + ([EQUALS] + Print(l, Print(r, [RPAREN] + rest))))
       case OtherBin(c) => Paren(l, [BinaryWord(c)] + Paren(r, rest)))
    case Ternary(c, t, f) => Paren(c, [QUESTION] + Paren(t, [COLON] + Paren(f, rest)))
    case Concat(rep, ps) =>
      (match rep
       case None => [LBRACE] + PrintAll(ps, [RBRACE] + rest)
       case Some(r) => [LBRACE] + Print(r, [LBRACE] + PrintAll(ps, [RBRACE, RBRACE] + rest)))
    case Call(f, xs) => [NameWord(f), LPAREN] + PrintAll(xs, [RPAREN] + rest)
  }

  function Paren(e: Expr, rest: seq<nat>): seq<nat>
    decreases e, 1
  {
    [LPAREN] + Print(e, [RPAREN] + rest)
  }

  function PrintAll(es: seq<Expr>, rest: seq<nat>): seq<nat>
    decreases es, 0
  {
    if es == [] then rest
    else if |es| == 1 then Print(es[0], rest)
    else Print(es[0], [COMMA] + PrintAll(es[1..], rest))
  }

  function Dump(e: Expr): seq<nat> {
    Print(e, [])
  }

  // ----- one text, one meaning -----

  /** 'l != r' prints like 'not (l == r)'; this form makes them one expression. */
  function Canon(e: Expr): (r: Expr)
    requires Plain(e)
    ensures Plain(r) && NeFree(r)
  {
    match e
    case Ident(x) => e
    case Number(n) => e
    case Unary(op, a) => Unary(op, Canon(a))
    case Binary(op, l, r) =>
      if op == Ne then Unary(Nor, Binary(Eq, Canon(l), Canon(r))) else Binary(op, Canon(l), Canon(r))
  }

  predicate NeFree(e: Expr) {
    match e
    case Unary(op, a) => NeFree(a)
    case Binary(op, l, r) => op != Ne && NeFree(l) && NeFree(r)
    case _ => true
  }

  lemma {:induction false} CanonKeepsMeaning(I: Interp, e: Expr, s: State)
    requires Plain(e)
    ensures Eval(I, Canon(e), s) == Eval(I, e, s)
  {
    match e
    case Ident(x) =>
    case Number(n) =>
    case Unary(op, a) => CanonKeepsMeaning(I, a, s);
    case Binary(op, l, r) =>
      CanonKeepsMeaning(I, l, s);
      CanonKeepsMeaning(I, r, s);
      if op == Ne {
        var c := Binary(Eq, Canon(l), Canon(r));
        assert Eval(I, c, s) == Truth(Eval(I, l, s) == Eval(I, r, s));
      }
  }

  lemma {:induction false} CanonKeepsText(e: Expr, rest: seq<nat>)
    requires Plain(e)
    ensures Print(Canon(e), rest) == Print(e, rest)
  {
    match e
    case Ident(x) =>
    case Number(n) =>
    case Unary(op, a) => CanonKeepsText(a, [RPAREN] + rest);
    case Binary(op, l, r) =>
      if op == Ne {
        var c := Binary(Eq, Canon(l), Canon(r));
        var k := [RPAREN] + rest;
        CanonKeepsText(r, k);
        CanonKeepsText(l, Print(r, k));
        assert Print(c, k) == [EQUALS] + Print(l, Print(r, k));
      } else if op == Eq {
        CanonKeepsText(r, rest);
        CanonKeepsText(l, Print(r, rest));
      } else {
        CanonKeepsText(r, [RPAREN] + rest);
        var k := if op.OtherBin? then [BinaryWord(op.code)] + Paren(r, rest) else Paren(r, rest);
        CanonKeepsText(l, [RPAREN] + k);
      }
  }

  lemma Peel(a: seq<nat>, b: seq<nat>, u: nat, v: nat)
    requires [u] + a == [v] + b
    ensures u == v && a == b
  {
    var x := [u] + a;
    assert x[0] == u == v && a == x[1..] == b;
  }

  /** Which words open the text of an expression. */
  function Opening(e: Expr): nat
    requires Plain(e) && NeFree(e)
  {
    match e
    case Ident(x) => NameWord(x)
    case Number(n) => NumberWord(n)
    case Unary(op, a) => (match op case Nor => NOT case OtherUn(c) => UnaryWord(c))
    case Binary(op, l, r) =>
      match op case Eq => EQUALS case Or => OR case And => AND case Le => AT_MOST case OtherBin(c) => LPAREN
  }

  lemma SameOpening(e: Expr, u: seq<nat>, f: Expr, v: seq<nat>)
    requires Plain(e) && NeFree(e) && Plain(f) && NeFree(f)
    requires Print(e, u) == Print(f, v)
    ensures Opening(e) == Opening(f)
  {
    assert Print(e, u)[0] == Opening(e);
    assert Print(f, v)[0] == Opening(f);
  }

  /** Equal texts, whatever follows them, come from equal expressions. */
  lemma {:induction false} UniqueReading(e: Expr, u: seq<nat>, f: Expr, v: seq<nat>)
    requires Plain(e) && NeFree(e) && Plain(f) && NeFree(f)
    requires Print(e, u) == Print(f, v)
    ensures e == f && u == v
    decreases e, 0
  {
    SameOpening(e, u, f, v);
    match e
    case Ident(n) => Peel(u, v, NameWord(n), NameWord(f.name));
    case Number(n) => Peel(u, v, NumberWord(n), NumberWord(f.value));
    case Unary(op, a) =>
      Peel(Paren(a, u), Paren(f.arg, v), Opening(e), Opening(f));
      UniqueParen(a, u, f.arg, v);
    case Binary(op, l, r) =>
      if op == Eq {
        Peel(Print(l, Print(r, u)), Print(f.left, Print(f.right, v)), EQUALS, EQUALS);
        UniqueReading(l, Print(r, u), f.left, Print(f.right, v));
        UniqueReading(r, u, f.right, v);
      } else if op.OtherBin? {
        var p, q := [BinaryWord(op.code)] + Paren(r, u), [BinaryWord(f.bop.code)] + Paren(f.right, v);
        UniqueParen(l, p, f.left, q);
        Peel(Paren(r, u), Paren(f.right, v), BinaryWord(op.code), BinaryWord(f.bop.code));
        UniqueParen(r, u, f.right, v);
      } else {
        Peel(Paren(l, Paren(r, u)), Paren(f.left, Paren(f.right, v)), Opening(e), Opening(f));
        UniqueParen(l, Paren(r, u), f.left, Paren(f.right, v));
        UniqueParen(r, u, f.right, v);
      }
  }

  lemma {:induction false} UniqueParen(e: Expr, u: seq<nat>, f: Expr, v: seq<nat>)
    requires Plain(e) && NeFree(e) && Plain(f) && NeFree(f)
    requires Paren(e, u) == Paren(f, v)
    ensures e == f && u == v
    decreases e, 1
  {
    var p, q := [RPAREN] + u, [RPAREN] + v;
    Peel(Print(e, p), Print(f, q), LPAREN, LPAREN);
    UniqueReading(e, p, f, q);
    Peel(u, v, RPAREN, RPAREN);
  }

  lemma SameTextSameCanon(e: Expr, f: Expr)
    requires Plain(e) && Plain(f) && Dump(e) == Dump(f)
    ensures Canon(e) == Canon(f)
  {
    CanonKeepsText(e, []);
    CanonKeepsText(f, []);
    UniqueReading(Canon(e), [], Canon(f), []);
  }

  /** Hypotheses are told apart by their printed text alone; that is safe, as equal texts mean the same. */
  lemma SameTextSameMeaning(I: Interp, e: Expr, f: Expr, s: State)
    requires Plain(e) && Plain(f)
    requires Dump(e) == Dump(f)
    ensures Eval(I, e, s) == Eval(I, f, s)
  {
    CanonKeepsMeaning(I, e, s);
    CanonKeepsMeaning(I, f, s);
    SameTextSameCanon(e, f);
  }

  lemma {:induction false} CanonKeepsNames(e: Expr, n: Name)
    requires Plain(e)
    ensures Contains(Canon(e), n) <==> Contains(e, n)
  {
    match e
    case Ident(x) =>
    case Number(v) =>
    case Unary(op, a) => CanonKeepsNames(a, n);
    case Binary(op, l, r) =>
      CanonKeepsNames(l, n);
      CanonKeepsNames(r, n);
  }

  /** Equal texts mention the same names. */
  lemma SameTextSameNames(e: Expr, f: Expr, n: Name)
    requires Plain(e) && Plain(f) && Dump(e) == Dump(f)
    ensures Contains(e, n) <==> Contains(f, n)
  {
    SameTextSameCanon(e, f);
    CanonKeepsNames(e, n);
    CanonKeepsNames(f, n);
  }

  // ----- ordered intersection -----

  /** strcmp order. */
  predicate Less(a: seq<nat>, b: seq<nat>) {
    if b == [] then false
    else if a == [] then true
    else a[0] < b[0] || (a[0] == b[0] && Less(a[1..], b[1..]))
  }

  lemma {:induction false} LessTotal(a: seq<nat>, b: seq<nat>)
    requires !Less(a, b) && !Less(b, a)
    ensures a == b
  {
    if a != [] && b != [] {
      LessTotal(a[1..], b[1..]);
      assert a == [a[0]] + a[1..] && b == [b[0]] + b[1..];
    }
  }

  lemma {:induction false} LessTransitive(a: seq<nat>, b: seq<nat>, c: seq<nat>)
    requires Less(a, b) && Less(b, c)
    ensures Less(a, c)
  {
    if a != [] && a[0] == b[0] && b[0] == c[0] {
      LessTransitive(a[1..], b[1..], c[1..]);
    }
  }

  lemma {:induction false} LessIrreflexive(a: seq<nat>)
    ensures !Less(a, a)
  {
    if a != [] { LessIrreflexive(a[1..]); }
  }

  /** std::set_intersection: walk both ranges, keeping from the first what the second also has. */
  function Intersection<T>(a: seq<T>, b: seq<T>, key: T -> seq<nat>): seq<T>
    decreases |a| + |b|
  {
    if a == [] || b == [] then []
    else if Less(key(a[0]), key(b[0])) then Intersection(a[1..], b, key)
    else if Less(key(b[0]), key(a[0])) then Intersection(a, b[1..], key)
    else [a[0]] + Intersection(a[1..], b[1..], key)
  }

  predicate HasKey<T>(b: seq<T>, k: seq<nat>, key: T -> seq<nat>) {
    exists i | 0 <= i < |b| :: key(b[i]) == k
  }

  /** Whatever the order of the ranges, all that is kept is in both, up to its text. */
  lemma {:induction false} IntersectionInBoth<T>(a: seq<T>, b: seq<T>, key: T -> seq<nat>)
    ensures forall h <- Intersection(a, b, key) :: h in a && HasKey(b, key(h), key)
    decreases |a| + |b|
  {
    if a == [] || b == [] {
    } else if Less(key(a[0]), key(b[0])) {
      IntersectionInBoth(a[1..], b, key);
    } else if Less(key(b[0]), key(a[0])) {
      IntersectionInBoth(a, b[1..], key);
      HasKeyTail(b, key);
    } else {
      LessTotal(key(a[0]), key(b[0]));
      IntersectionInBoth(a[1..], b[1..], key);
      HasKeyTail(b, key);
      assert HasKey(b, key(a[0]), key);
    }
  }

  lemma HasKeyTail<T>(b: seq<T>, key: T -> seq<nat>)
    requires b != []
    ensures forall k :: HasKey(b[1..], k, key) ==> HasKey(b, k, key)
    ensures forall k :: HasKey(b, k, key) && key(b[0]) != k ==> HasKey(b[1..], k, key)
  {
    forall k | HasKey(b[1..], k, key) ensures HasKey(b, k, key) {
      var i :| 0 <= i < |b[1..]| && key(b[1..][i]) == k;
      assert key(b[i + 1]) == k;
    }
    forall k | HasKey(b, k, key) && key(b[0]) != k ensures HasKey(b[1..], k, key) {
      var i :| 0 <= i < |b| && key(b[i]) == k;
      assert key(b[1..][i - 1]) == k;
    }
  }

  predicate Sorted<T>(a: seq<T>, key: T -> seq<nat>) {
    forall i, j | 0 <= i < j < |a| :: Less(key(a[i]), key(a[j]))
  }

  /** On ranges sorted by the comparator, nothing common is lost. */
  lemma {:induction false} IntersectionOfSortedIsExact<T>(a: seq<T>, b: seq<T>, key: T -> seq<nat>)
    requires Sorted(a, key) && Sorted(b, key)
    ensures forall h :: h in Intersection(a, b, key) <==> h in a && HasKey(b, key(h), key)
    decreases |a| + |b|
  {
    IntersectionInBoth(a, b, key);
    if a == [] || b == [] {
    } else if Less(key(a[0]), key(b[0])) {
      IntersectionOfSortedIsExact(a[1..], b, key);
      if HasKey(b, key(a[0]), key) {
        var i :| 0 <= i < |b| && key(b[i]) == key(a[0]);
        if i > 0 { LessTransitive(key(a[0]), key(b[0]), key(b[i])); }
        LessIrreflexive(key(a[0]));
      }
    } else {
      forall h | h in a && HasKey(b, key(h), key)
        ensures h in Intersection(a, b, key)
      {
        var i :| 0 <= i < |a| && a[i] == h;
        HasKeyTail(b, key);
        if Less(key(b[0]), key(a[0])) {
          IntersectionOfSortedIsExact(a, b[1..], key);
          if i > 0 { LessTransitive(key(b[0]), key(a[0]), key(h)); }
          LessIrreflexive(key(h));
        } else {
          LessTotal(key(a[0]), key(b[0]));
          IntersectionOfSortedIsExact(a[1..], b[1..], key);
          if i > 0 {
            LessIrreflexive(key(h));
            assert h in a[1..];
          }
        }
      }
    }
  }
}
