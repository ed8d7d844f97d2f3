/** Folding additions in place: the nodes replace their operand pointers. */
module FoldAddInPlace {
  import opened Prelude
  import opened Verinum
  import opened VerinumArith
  import opened FoldAdd

  /** An operand pointer: a signal, a constant, or another addition. */
  datatype Operand = SignalRef(id: nat) | ConstRef(value: Verinum) | AddRef(node: NetEBAdd)

  class NetEBAdd {
    const minus: bool
    var left: Operand
    var right: Operand
    ghost var Repr: set<object>

    constructor (minus: bool, left: Operand, right: Operand, ghost below: set<object>)
      requires ValidOperand(left, below) && ValidOperand(right, below) && Apart(left, right)
      ensures Valid() && fresh(Repr - below)
      ensures Tree() == AddSub(minus, TreeOf(left, below), TreeOf(right, below))
    {
      this.minus, this.left, this.right := minus, left, right;
      Repr := below + {this};
    }

    /** The node and everything below it; the operands share nothing. */
    ghost predicate Valid()
      reads this, Repr
      decreases Repr, 0
    {
      && this in Repr
      && ValidOperand(left, Repr - {this}) && ValidOperand(right, Repr - {this})
      && Apart(left, right)
    }

    /** The expression the node stands for. */
    ghost function Tree(): (e: Expr)
      requires Valid()
      reads this, Repr
      ensures e.AddSub? && Wellformed(e)
      decreases Repr, 0
    {
      AddSub(minus, TreeOf(left, Repr - {this}), TreeOf(right, Repr - {this}))
    }

    /**
     * Folds the operands, then this node: a constant result is returned for the caller to put in the
     * node's place, otherwise the node has been rewritten.
     */
    method EvalTree(w: nat, prune: int) returns (r: Option<Verinum>)
      requires Valid() && w > 0
      modifies Repr
      ensures r.Some? ==> Const(r.value) == Fold(old(Tree()), w, prune)
      ensures r.None? ==> Valid() && Repr <= old(Repr) && Tree() == Fold(old(Tree()), w, prune)
      decreases Repr, 1
    {
      EvalLeft(w, prune);
      EvalRight(w, prune);
      r := FoldNode(w, prune);
    }

    /** Folds what one pointer holds; the other is not touched. */
    method EvalLeft(w: nat, prune: int)
      requires Valid() && w > 0
      modifies Repr
      ensures Valid() && Repr == old(Repr)
      ensures Tree() == AddSub(minus, Fold(old(Tree()).left, w, prune), old(Tree()).right)
      decreases Repr, 0
    {
      ghost var below := Repr - {this};
      ghost var kept := TreeOf(right, below);
      ghost var node := if right.AddRef? then right.node.Tree() else kept;
      left := EvalExpr(left, below, w, prune);
      assert right.AddRef? ==> right.node.Valid() && right.node.Tree() == node;
      assert ValidOperand(right, below) && TreeOf(right, below) == kept;
      assert Apart(left, right);
    }

    method EvalRight(w: nat, prune: int)
      requires Valid() && w > 0
      modifies Repr
      ensures Valid() && Repr == old(Repr)
      ensures Tree() == AddSub(minus, old(Tree()).left, Fold(old(Tree()).right, w, prune))
      decreases Repr, 0
    {
      ghost var below := Repr - {this};
      ghost var kept := TreeOf(left, below);
      ghost var node := if left.AddRef? then left.node.Tree() else kept;
      right := EvalExpr(right, below, w, prune);
      assert left.AddRef? ==> left.node.Valid() && left.node.Tree() == node;
      assert ValidOperand(left, below) && TreeOf(left, below) == kept;
      assert Apart(left, right);
    }

    /** This node, once its operands are folded. */
    method FoldNode(w: nat, prune: int) returns (r: Option<Verinum>)
      requires Valid() && w > 0
      modifies this
      ensures var f := Rewrite(minus, old(Tree()).left, old(Tree()).right, w, prune);
              if r.Some? then f == Const(r.value) else Valid() && Repr == old(Repr) && Tree() == f
    {
      if left.ConstRef? && right.ConstRef? {
        return Some(FoldConstants(minus, left.value, right.value, prune));
      }
      assert left.AddRef? ==> left.node.Valid() && TreeOf(left, Repr - {this}) == left.node.Tree();
      assert left.AddRef? ==> (left.node.Tree().right.Const? <==> left.node.right.ConstRef?);
      if right.ConstRef? && left.AddRef? && left.node.right.ConstRef? {
        MergeConstants(w, prune);
      }
      return None;
    }

    /** (a op' l) op r: take a from the sub-expression, and the two constants as one. */
    method MergeConstants(w: nat, prune: int)
      requires Valid() && w > 0
      requires right.ConstRef? && left.AddRef? && left.node.Valid() && left.node.right.ConstRef?
      modifies this
      ensures Valid() && Repr == old(Repr)
      ensures Tree() == Rewrite(minus, old(Tree()).left, old(Tree()).right, w, prune)
    {
      SubExpression(this);
      var se := left.node;
      ghost var l, r, t := Tree().left, Tree().right, TreeOf(se.left, Repr - {this});
      var val := Merge(minus == se.minus, se.right.value, right.value, w);
      MergedRewrite(minus, l, r, w, prune, t, val);
      Replace(se.left, val);
    }

    /** Operands taken over from below, and a constant. */
    method Replace(x: Operand, val: Verinum)
      requires Valid() && ValidOperand(x, Repr - {this}) && IsNumber(val)
      modifies this
      ensures Valid() && Repr == old(Repr)
      ensures Tree() == AddSub(minus, old(TreeOf(x, Repr - {this})), Const(val))
    {
      ghost var below := Repr - {this};
      ghost var t := TreeOf(x, below);
      left := x;
      right := ConstRef(val);
      assert ValidOperand(left, below) && TreeOf(left, below) == t;
    }
  }

  /** What a sum of a sub-expression that ends in a constant, and another constant, stands for. */
  lemma SubExpression(n: NetEBAdd)
    requires n.Valid() && n.right.ConstRef? && n.left.AddRef? && n.left.node.Valid() && n.left.node.right.ConstRef?
    ensures var se, below := n.left.node, n.Repr - {n};
            && ValidOperand(se.left, below) && IsNumber(se.right.value)
            && n.Tree().left == AddSub(se.minus, TreeOf(se.left, below), Const(se.right.value))
            && n.Tree().right == Const(n.right.value)
  {
    var se, below := n.left.node, n.Repr - {n};
    var inner := se.Repr - {se};
    assert n.Tree() == AddSub(n.minus, TreeOf(n.left, below), TreeOf(n.right, below));
    assert se.Tree() == AddSub(se.minus, TreeOf(se.left, inner), TreeOf(se.right, inner));
    assert ValidOperand(se.right, inner) && TreeOf(se.left, inner) == TreeOf(se.left, below);
  }

  lemma MergedRewrite(minus: bool, l: Expr, r: Expr, w: nat, prune: int, t: Expr, val: Verinum)
    requires Wellformed(l) && Wellformed(r) && w > 0
    requires l.AddSub? && l.right.Const? && r.Const? && l.left == t
    requires Wellformed(l.right) && val == Merge(minus == l.minus, l.right.value, r.value, w)
    ensures Rewrite(minus, l, r, w, prune) == AddSub(minus, t, Const(val))
  {
  }

  ghost predicate ValidOperand(x: Operand, below: set<object>)
    reads below
    decreases below, 1
  {
    match x
    case SignalRef(_) => true
    case ConstRef(v) => v.bits != [] && Defined(v.bits) && !v.isString
    case AddRef(n) => n in below && n.Repr <= below && n.Valid()
  }

  ghost function TreeOf(x: Operand, below: set<object>): (e: Expr)
    requires ValidOperand(x, below)
    reads below
    ensures Wellformed(e)
    decreases below, 1
  {
    match x
    case SignalRef(id) => Signal(id)
    case ConstRef(v) => Const(v)
    case AddRef(n) => n.Tree()
  }

  ghost function Footprint(x: Operand): set<object>
    reads if x.AddRef? then {x.node} else {}
  {
    if x.AddRef? then x.node.Repr else {}
  }

  /** Folds the expression behind a pointer and returns what the pointer holds next. */
  method EvalExpr(x: Operand, ghost below: set<object>, w: nat, prune: int) returns (y: Operand)
    requires ValidOperand(x, below) && w > 0
    modifies Footprint(x)
    ensures ValidOperand(y, below) && Footprint(y) <= old(Footprint(x))
    ensures TreeOf(y, below) == Fold(old(TreeOf(x, below)), w, prune)
    decreases below, 2
  {
    y := x;
    if x.ConstRef? {
      if prune <= 0 || x.value.hasLen || prune <= |x.value.bits| {
        return;
      }
      PadKeepsValue(x.value, prune);
      y := ConstRef(PadToWidth(x.value, prune));
    } else if x.AddRef? {
      var val := x.node.EvalTree(w, prune);
      if val.Some? {
        y := ConstRef(val.value);
      }
    }
  }

  ghost predicate Apart(x: Operand, y: Operand)
    reads if x.AddRef? then {x.node} else {}, if y.AddRef? then {y.node} else {}
  {
    x.AddRef? && y.AddRef? ==> x.node.Repr !! y.node.Repr
  }
}
