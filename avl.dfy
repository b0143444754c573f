/**
 * The AVL subclass's promise: because `inserir`, `remover` and `removerNoAntecessor` pass
 * every subtree they return through `balancear`, an AVL tree with correct cached heights
 * stays one after every insert and every removal, and the height changes by at most one on
 * each level, which is what lets the parent's `balancear` repair it with one (single or
 * double) rotation. The key-to-item effect is the one `SearchTrees` proves for both kinds.
 */
module AvlTrees {
  import opened Outcomes
  import opened Trees
  import opened Balancing
  import opened SearchTrees

  /**
   * Relinking a rebalanced child under a node: when both children are AVL trees whose heights
   * differ by at most two, the rebalanced node is an AVL tree whose height is between the
   * larger child height and one more.
   */
  lemma Rejoin<V>(l: Tree<V>, x: int, w: V, r: Tree<V>, h: int)
    requires Avl(l) && Avl(r) && -2 <= Height(l) - Height(r) <= 2
    ensures CanBalance(Node(l, x, w, r, h)) && Avl(Fix(true, Node(l, x, w, r, h)))
    ensures var b := Height(Fix(true, Node(l, x, w, r, h)));
      Max(Height(l), Height(r)) <= b <= 1 + Max(Height(l), Height(r)) &&
      (-1 <= Height(l) - Height(r) <= 1 ==> b == 1 + Max(Height(l), Height(r)))
  {
    BalanceRestoresAvl(Node(l, x, w, r, h));
  }

  /** The children of an AVL node are AVL trees whose heights differ by at most one. */
  lemma AvlChildren<V>(t: Tree<V>)
    requires t.Node? && Avl(t)
    ensures Avl(t.left) && Avl(t.right) && PositiveHeights(t)
    ensures -1 <= Height(t.left) - Height(t.right) <= 1
    ensures Height(t) == 1 + Max(Height(t.left), Height(t.right))
  {
    HeightsOkPositive(t);
  }

  /**
   * The AVL `inserir` keeps the AVL invariant with correct heights, and the tree grows by at
   * most one level.
   */
  lemma {:induction false} InsertKeepsAvl<V>(t: Tree<V>, k: int, v: V)
    requires Avl(t) && PositiveHeights(t)
    ensures Insert(true, t, k, v).Ok? ==>
      var t' := Insert(true, t, k, v).value;
      Avl(t') && Height(t) <= Height(t') <= Height(t) + 1
  {
    match t
    case Nil =>
      BalanceKeepsAvl(Node(Nil, k, v, Nil, 1));
    case Node(l, x, w, r, h) =>
      AvlChildren(t);
      if k < x {
        InsertKeepsAvl(l, k, v);
        if Insert(true, l, k, v).Ok? {
          Rejoin(Insert(true, l, k, v).value, x, w, r, h);
        }
      } else if k > x {
        InsertKeepsAvl(r, k, v);
        if Insert(true, r, k, v).Ok? {
          Rejoin(l, x, w, Insert(true, r, k, v).value, h);
        }
      }
  }

  /**
   * The AVL `removerNoAntecessor` keeps the AVL invariant with correct heights, and the
   * subtree shrinks by at most one level.
   */
  lemma {:induction false} RemovePredecessorKeepsAvl<V>(t: Tree<V>)
    requires t.Node? && Avl(t) && PositiveHeights(t)
    ensures var s := RemovePredecessor(true, t);
      Avl(s.rest) && Height(t) - 1 <= Height(s.rest) <= Height(t)
  {
    var Node(l, x, w, r, h) := t;
    AvlChildren(t);
    if r.Node? {
      RemovePredecessorKeepsAvl(r);
      Rejoin(l, x, w, RemovePredecessor(true, r).rest, h);
    } else {
      BalanceKeepsAvl(l);
    }
  }

  /**
   * The AVL `remover` keeps the AVL invariant with correct heights, and the tree shrinks by at
   * most one level.
   */
  lemma {:induction false} RemoveKeepsAvl<V>(t: Tree<V>, k: int)
    requires Avl(t) && PositiveHeights(t)
    ensures Remove(true, t, k).Ok? ==>
      var t' := Remove(true, t, k).value;
      Avl(t') && Height(t) - 1 <= Height(t') <= Height(t)
  {
    match t
    case Nil =>
    case Node(l, x, w, r, h) =>
      AvlChildren(t);
      if k == x {
        if r.Nil? {
          BalanceKeepsAvl(l);
        } else if l.Nil? {
          BalanceKeepsAvl(r);
        } else {
          RemovePredecessorKeepsAvl(l);
          var s := RemovePredecessor(true, l);
          Rejoin(s.rest, s.key, s.item, r, h);
        }
      } else if k < x {
        RemoveKeepsAvl(l, k);
        if Remove(true, l, k).Ok? {
          Rejoin(Remove(true, l, k).value, x, w, r, h);
        }
      } else {
        RemoveKeepsAvl(r, k);
        if Remove(true, r, k).Ok? {
          Rejoin(l, x, w, Remove(true, r, k).value, h);
        }
      }
  }
}
