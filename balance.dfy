/**
 * The rebalancing step of the AVL layer (`AVL.balancear`, `rotacionarDireita`,
 * `rotacionarEsquerda`) on tree values, and what it guarantees.
 */
module Balancing {
  import opened Trees

  /**
   * `rotacionarDireita(p)`: the left child `u` becomes the root, `u`'s right subtree becomes
   * `p`'s left subtree, and `p` becomes `u`'s right child; `p`'s height is recomputed, then `u`'s.
   */
  function RotateRight<V>(p: Tree<V>): (r: Tree<V>)
    requires p.Node? && p.left.Node?
    ensures r.Node? && r.key == p.left.key && r.item == p.left.item && r.right.Node?
    ensures Pairs(r) == Pairs(p)
    ensures PositiveHeights(p.left) && PositiveHeights(p.right) ==> PositiveHeights(r)
  {
    var u := p.left;
    var lowered := WithHeight(p.(left := u.right));
    WithHeight(u.(right := lowered))
  }

  /** `rotacionarEsquerda(p)`: the mirror image of RotateRight. */
  function RotateLeft<V>(p: Tree<V>): (r: Tree<V>)
    requires p.Node? && p.right.Node?
    ensures r.Node? && r.key == p.right.key && r.item == p.right.item && r.left.Node?
    ensures Pairs(r) == Pairs(p)
    ensures PositiveHeights(p.left) && PositiveHeights(p.right) ==> PositiveHeights(r)
  {
    var z := p.right;
    var lowered := WithHeight(p.(right := z.left));
    WithHeight(z.(left := lowered))
  }

  /**
   * What `balancear` needs so that it never follows an absent child: cached heights of the
   * children are positive (then a factor of 2 means a left child of height at least 2, and a
   * left child with factor -1 has a right child, and symmetrically).
   */
  predicate CanBalance<V>(t: Tree<V>)
  {
    t.Node? ==> PositiveHeights(t.left) && PositiveHeights(t.right)
  }

  /**
   * `balancear`: a factor of +2 rotates right (after rotating the left child left when its
   * factor is -1), -2 rotates left (after rotating the right child right when its factor is
   * +1), and any other factor only recomputes the node's cached height.
   */
  function Balance<V>(t: Tree<V>): (r: Tree<V>)
    requires CanBalance(t)
    ensures Pairs(r) == Pairs(t) && PositiveHeights(r)
    ensures t.Nil? <==> r.Nil?
  {
    if t.Nil? then Nil
    else
      BalanceDereferencesSafe(t);
      if Factor(t) == 2 then
      var l := if Factor(t.left) == -1 then RotateLeft(t.left) else t.left;
      RotateRight(t.(left := l))
    else if Factor(t) == -2 then
      var r := if Factor(t.right) == 1 then RotateRight(t.right) else t.right;
      RotateLeft(t.(right := r))
    else WithHeight(t)
  }

  // ---------------------------------------------------------------- lemmas

  lemma PositiveChildren<V>(t: Tree<V>)
    requires PositiveHeights(t)
    ensures Height(t) >= 0
    ensures t.Node? ==> PositiveHeights(t.left) && PositiveHeights(t.right) && Height(t) >= 1
  {
  }

  /** The child dereferences of `balancear` are safe: a factor of ±2 implies the child exists. */
  lemma BalanceDereferencesSafe<V>(t: Tree<V>)
    requires t.Node? && CanBalance(t)
    ensures Factor(t) == 2 ==> t.left.Node? && (Factor(t.left) == -1 ==> t.left.right.Node?)
    ensures Factor(t) == -2 ==> t.right.Node? && (Factor(t.right) == 1 ==> t.right.left.Node?)
  {
    PositiveChildren(t.left);
    PositiveChildren(t.right);
    if t.left.Node? { PositiveChildren(t.left.left); }
    if t.right.Node? { PositiveChildren(t.right.right); }
  }

  /** Both nodes a rotation moves get a correct cached height, so correct heights stay correct. */
  lemma RotateRightHeights<V>(p: Tree<V>)
    requires p.Node? && p.left.Node?
    requires HeightsOk(p.left.left) && HeightsOk(p.left.right) && HeightsOk(p.right)
    ensures HeightsOk(RotateRight(p))
  {
  }

  lemma RotateLeftHeights<V>(p: Tree<V>)
    requires p.Node? && p.right.Node?
    requires HeightsOk(p.right.left) && HeightsOk(p.right.right) && HeightsOk(p.left)
    ensures HeightsOk(RotateLeft(p))
  {
  }

  /** A node whose children are AVL trees and whose factor is within -1..1 only gets its height recomputed. */
  lemma BalanceKeepsAvl<V>(t: Tree<V>)
    requires Avl(t)
    ensures CanBalance(t) && Balance(t) == t
  {
    if t.Node? {
      HeightsOkPositive(t.left);
      HeightsOkPositive(t.right);
    }
  }

  /** Left-heavy case of BalanceRestoresAvl, single rotation. */
  lemma BalanceLeftSingle<V>(t: Tree<V>)
    requires t.Node? && Avl(t.left) && Avl(t.right) && Factor(t) == 2
    requires t.left.Node? && Factor(t.left) != -1
    ensures CanBalance(t) && Balance(t) == RotateRight(t)
    ensures Avl(RotateRight(t))
    ensures Height(t.left) <= Height(RotateRight(t)) <= Height(t.left) + 1
  {
    var l := t.left;
    assert HeightsOk(l.left) && HeightsOk(l.right) && Balanced(l.left) && Balanced(l.right);
    HeightsOkPositive(t.left);
    HeightsOkPositive(t.right);
    RotateRightHeights(t);
  }

  /** Left-heavy case of BalanceRestoresAvl, double rotation. */
  lemma BalanceLeftDouble<V>(t: Tree<V>)
    requires t.Node? && Avl(t.left) && Avl(t.right) && Factor(t) == 2
    requires t.left.Node? && Factor(t.left) == -1 && t.left.right.Node?
    ensures CanBalance(t) && Balance(t) == RotateRight(t.(left := RotateLeft(t.left)))
    ensures Avl(Balance(t))
    ensures Height(Balance(t)) == Height(t.left)
  {
    var l := t.left;
    assert HeightsOk(l.left) && HeightsOk(l.right) && Balanced(l.left) && Balanced(l.right);
    var m := l.right;
    assert HeightsOk(m.left) && HeightsOk(m.right) && Balanced(m.left) && Balanced(m.right);
    HeightsOkPositive(t.left);
    HeightsOkPositive(t.right);
    var l' := RotateLeft(l);
    RotateLeftHeights(l);
    var p := t.(left := l');
    RotateRightHeights(p);
  }

  /** Right-heavy case of BalanceRestoresAvl, single rotation. */
  lemma BalanceRightSingle<V>(t: Tree<V>)
    requires t.Node? && Avl(t.left) && Avl(t.right) && Factor(t) == -2
    requires t.right.Node? && Factor(t.right) != 1
    ensures CanBalance(t) && Balance(t) == RotateLeft(t)
    ensures Avl(RotateLeft(t))
    ensures Height(t.right) <= Height(RotateLeft(t)) <= Height(t.right) + 1
  {
    var r := t.right;
    assert HeightsOk(r.left) && HeightsOk(r.right) && Balanced(r.left) && Balanced(r.right);
    HeightsOkPositive(t.left);
    HeightsOkPositive(t.right);
    RotateLeftHeights(t);
  }

  /** Right-heavy case of BalanceRestoresAvl, double rotation. */
  lemma BalanceRightDouble<V>(t: Tree<V>)
    requires t.Node? && Avl(t.left) && Avl(t.right) && Factor(t) == -2
    requires t.right.Node? && Factor(t.right) == 1 && t.right.left.Node?
    ensures CanBalance(t) && Balance(t) == RotateLeft(t.(right := RotateRight(t.right)))
    ensures Avl(Balance(t))
    ensures Height(Balance(t)) == Height(t.right)
  {
    var r := t.right;
    assert HeightsOk(r.left) && HeightsOk(r.right) && Balanced(r.left) && Balanced(r.right);
    var m := r.left;
    assert HeightsOk(m.left) && HeightsOk(m.right) && Balanced(m.left) && Balanced(m.right);
    HeightsOkPositive(t.left);
    HeightsOkPositive(t.right);
    var r' := RotateRight(r);
    RotateRightHeights(r);
    var p := t.(right := r');
    RotateLeftHeights(p);
  }

  /**
   * `balancear` restores the AVL invariant: when both children are AVL trees with correct
   * heights and the root's factor is within -2..2, the result is an AVL tree with correct
   * heights. Its height is 1 + the larger child height when no rotation happens, and either
   * the larger child height or one more after a rotation.
   */
  lemma BalanceRestoresAvl<V>(t: Tree<V>)
    requires t.Node? && Avl(t.left) && Avl(t.right) && -2 <= Factor(t) <= 2
    ensures CanBalance(t)
    ensures Avl(Balance(t))
    ensures -1 <= Factor(t) <= 1 ==> Height(Balance(t)) == 1 + Max(Height(t.left), Height(t.right))
    ensures Max(Height(t.left), Height(t.right)) <= Height(Balance(t)) <= 1 + Max(Height(t.left), Height(t.right))
  {
    HeightsOkPositive(t.left);
    HeightsOkPositive(t.right);
    BalanceDereferencesSafe(t);
    if Factor(t) == 2 {
      if Factor(t.left) == -1 { BalanceLeftDouble(t); } else { BalanceLeftSingle(t); }
    } else if Factor(t) == -2 {
      if Factor(t.right) == 1 { BalanceRightDouble(t); } else { BalanceRightSingle(t); }
    }
  }
}
