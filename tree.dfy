/**
 * The tree of `No` nodes as a value: the in-order views of a tree, the binary search tree
 * order, the cached heights and the AVL shape. Keys are integers ordered by `<`, the
 * comparator the containers are used with.
 */
module Trees {

  /** A subtree: an absent child, or a node with its key, item, children and cached height. */
  datatype Tree<V> = Nil | Node(left: Tree<V>, key: int, item: V, right: Tree<V>, height: int)

  function Max(a: int, b: int): int { if a < b then b else a }

  /** The cached height of a subtree as the balance factor reads it: an absent child counts 0. */
  function Height<V>(t: Tree<V>): int { if t.Nil? then 0 else t.height }

  /** `No.setAltura`: recompute the cached height of a node from its children's cached heights. */
  function WithHeight<V>(t: Tree<V>): (r: Tree<V>)
    requires t.Node?
    ensures r.Node? && r.left == t.left && r.key == t.key && r.item == t.item && r.right == t.right
    ensures Height(r) > Height(t.left) && Height(r) > Height(t.right)
  {
    t.(height := 1 + Max(Height(t.left), Height(t.right)))
  }

  /**
   * `No.getFatorBalanceamento`: left height minus right height. With positive heights the
   * heavier side is never an absent child.
   */
  function Factor<V>(t: Tree<V>): (f: int)
    requires t.Node?
    ensures PositiveHeights(t) ==> (f > 0 ==> t.left.Node?) && (f < 0 ==> t.right.Node?)
  {
    assert PositiveHeights(t) ==> PositiveHeights(t.left) && PositiveHeights(t.right);
    Height(t.left) - Height(t.right)
  }

  /** The (key, item) pairs in in-order (ascending position) order. */
  function Pairs<V>(t: Tree<V>): seq<(int, V)>
  {
    match t
    case Nil => []
    case Node(l, k, v, r, _) => Pairs(l) + [(k, v)] + Pairs(r)
  }

  /** The items in in-order order, as the in-order dump lists them. */
  function Items<V>(t: Tree<V>): seq<V>
  {
    match t
    case Nil => []
    case Node(l, _, v, r, _) => Items(l) + [v] + Items(r)
  }

  function Keys<V>(t: Tree<V>): set<int>
  {
    match t
    case Nil => {}
    case Node(l, k, _, r, _) => Keys(l) + {k} + Keys(r)
  }

  /** The number of nodes. */
  function Size<V>(t: Tree<V>): nat
  {
    match t
    case Nil => 0
    case Node(l, _, _, r, _) => Size(l) + 1 + Size(r)
  }

  /** The length of the longest root-to-leaf path, computed (not cached). */
  function Depth<V>(t: Tree<V>): nat
  {
    match t
    case Nil => 0
    case Node(l, _, _, r, _) => 1 + (if Depth(l) < Depth(r) then Depth(r) else Depth(l))
  }

  /** The mapping a sequence of pairs denotes; a later pair overrides an earlier one. */
  function MapOf<V>(ps: seq<(int, V)>): map<int, V>
  {
    if ps == [] then map[] else MapOf(ps[..|ps| - 1])[ps[|ps| - 1].0 := ps[|ps| - 1].1]
  }

  /** The key-to-item view of a tree (a pair on the right overrides, as in MapOf of the in-order pairs). */
  function Elements<V>(t: Tree<V>): map<int, V>
  {
    match t
    case Nil => map[]
    case Node(l, k, v, r, _) => Elements(l)[k := v] + Elements(r)
  }

  /** Every key in the left subtree is smaller, and every key in the right subtree larger, than the node's. */
  predicate Bst<V>(t: Tree<V>)
  {
    match t
    case Nil => true
    case Node(l, k, _, r, _) =>
      Bst(l) && Bst(r) && (forall x :: x in Keys(l) ==> x < k) && (forall x :: x in Keys(r) ==> k < x)
  }

  /** Strictly ascending keys. */
  predicate Ascending<V>(ps: seq<(int, V)>)
  {
    forall i, j :: 0 <= i < j < |ps| ==> ps[i].0 < ps[j].0
  }

  /** Every cached height is 1 + the larger cached height of the children. */
  predicate HeightsOk<V>(t: Tree<V>)
  {
    t.Node? ==> HeightsOk(t.left) && HeightsOk(t.right) && t.height == 1 + Max(Height(t.left), Height(t.right))
  }

  /** Every node's balance factor is -1, 0 or 1. */
  predicate Balanced<V>(t: Tree<V>)
  {
    t.Node? ==> Balanced(t.left) && Balanced(t.right) && -1 <= Factor(t) <= 1
  }

  /** The AVL invariant with correct cached heights. */
  predicate Avl<V>(t: Tree<V>)
  {
    HeightsOk(t) && Balanced(t)
  }

  /**
   * Every cached height is at least 1. A new node starts at height 1 and `setAltura` never
   * stores less, so every tree the containers build has this shape; it is what makes the
   * child dereferences of the rebalancing safe.
   */
  predicate PositiveHeights<V>(t: Tree<V>)
  {
    t.Node? ==> t.height >= 1 && PositiveHeights(t.left) && PositiveHeights(t.right)
  }

  // ---------------------------------------------------------------- lemmas about the views

  lemma {:induction false} MapOfConcat<V>(a: seq<(int, V)>, b: seq<(int, V)>)
    ensures MapOf(a + b) == MapOf(a) + MapOf(b)
    decreases |b|
  {
    if b == [] {
      assert a + b == a;
    } else {
      var b' := b[..|b| - 1];
      assert (a + b)[..|a + b| - 1] == a + b';
      MapOfConcat(a, b');
    }
  }

  /** The key-to-item view is the mapping the in-order pairs denote. */
  lemma {:induction false} ElementsArePairs<V>(t: Tree<V>)
    ensures Elements(t) == MapOf(Pairs(t))
  {
    match t
    case Nil =>
    case Node(l, k, v, r, _) =>
      ElementsArePairs(l);
      ElementsArePairs(r);
      MapOfConcat(Pairs(l) + [(k, v)], Pairs(r));
      MapOfConcat(Pairs(l), [(k, v)]);
      assert MapOf([(k, v)]) == map[k := v] by {
        assert [(k, v)][..0] == [];
      }
  }

  /** The keys of a sequence of pairs. */
  function KeySet<V>(ps: seq<(int, V)>): set<int>
  {
    set i | 0 <= i < |ps| :: ps[i].0
  }

  lemma KeySetConcat<V>(a: seq<(int, V)>, b: seq<(int, V)>)
    ensures KeySet(a + b) == KeySet(a) + KeySet(b)
  {
    var s := a + b;
    forall x | x in KeySet(s) ensures x in KeySet(a) + KeySet(b) {
      var i :| 0 <= i < |s| && s[i].0 == x;
      if i < |a| { assert a[i] == s[i]; } else { assert b[i - |a|] == s[i]; }
    }
    forall x | x in KeySet(a) + KeySet(b) ensures x in KeySet(s) {
      if x in KeySet(a) {
        var i :| 0 <= i < |a| && a[i].0 == x;
        assert s[i] == a[i];
      } else {
        var i :| 0 <= i < |b| && b[i].0 == x;
        assert s[|a| + i] == b[i];
      }
    }
  }

  /** The keys of a tree are exactly the keys of its in-order pairs. */
  lemma {:induction false} KeysArePairKeys<V>(t: Tree<V>)
    ensures Keys(t) == KeySet(Pairs(t))
  {
    match t
    case Nil =>
    case Node(l, k, v, r, _) =>
      KeysArePairKeys(l);
      KeysArePairKeys(r);
      KeySetConcat(Pairs(l) + [(k, v)], Pairs(r));
      KeySetConcat(Pairs(l), [(k, v)]);
      assert KeySet([(k, v)]) == {k} by {
        assert [(k, v)][0].0 == k;
      }
  }

  lemma {:induction false} SizeIsPairCount<V>(t: Tree<V>)
    ensures Size(t) == |Pairs(t)| == |Items(t)|
  {
    match t
    case Nil =>
    case Node(l, _, _, r, _) =>
      SizeIsPairCount(l);
      SizeIsPairCount(r);
  }

  /** The in-order items are the items of the in-order pairs. */
  lemma {:induction false} ItemsOfPairs<V>(t: Tree<V>)
    ensures |Items(t)| == |Pairs(t)|
    ensures forall i :: 0 <= i < |Items(t)| ==> Items(t)[i] == Pairs(t)[i].1
  {
    match t
    case Nil =>
    case Node(l, k, v, r, _) =>
      ItemsOfPairs(l);
      ItemsOfPairs(r);
      var il, pl := Items(l), Pairs(l);
      forall i | 0 <= i < |Items(t)| ensures Items(t)[i] == Pairs(t)[i].1 {
        if i < |il| {
          assert Items(t)[i] == il[i] && Pairs(t)[i] == pl[i];
        } else if i > |il| {
          assert Items(t)[i] == Items(r)[i - |il| - 1] && Pairs(t)[i] == Pairs(r)[i - |pl| - 1];
        }
      }
  }

  lemma AscendingConcat<V>(a: seq<(int, V)>, k: int, v: V, b: seq<(int, V)>)
    ensures Ascending(a + [(k, v)] + b) <==>
      Ascending(a) && Ascending(b) &&
      (forall i :: 0 <= i < |a| ==> a[i].0 < k) && (forall j :: 0 <= j < |b| ==> k < b[j].0)
  {
    var s := a + [(k, v)] + b;
    if Ascending(s) {
      forall i, j | 0 <= i < j < |a| ensures a[i].0 < a[j].0 { assert s[i] == a[i] && s[j] == a[j]; }
      forall i, j | 0 <= i < j < |b| ensures b[i].0 < b[j].0 {
        assert s[|a| + 1 + i] == b[i] && s[|a| + 1 + j] == b[j];
      }
      forall i | 0 <= i < |a| ensures a[i].0 < k { assert s[i] == a[i] && s[|a|] == (k, v); }
      forall j | 0 <= j < |b| ensures k < b[j].0 { assert s[|a| + 1 + j] == b[j] && s[|a|] == (k, v); }
    }
  }

  /** A tree is a binary search tree exactly when its in-order keys ascend strictly. */
  lemma {:induction false} BstIffAscending<V>(t: Tree<V>)
    ensures Bst(t) <==> Ascending(Pairs(t))
  {
    match t
    case Nil =>
    case Node(l, k, v, r, _) =>
      BstIffAscending(l);
      BstIffAscending(r);
      KeysArePairKeys(l);
      KeysArePairKeys(r);
      AscendingConcat(Pairs(l), k, v, Pairs(r));
      var pl, pr := Pairs(l), Pairs(r);
      if Ascending(Pairs(t)) {
        forall x | x in Keys(l) ensures x < k {
          assert x in KeySet(pl);
          var i :| 0 <= i < |pl| && pl[i].0 == x;
        }
        forall x | x in Keys(r) ensures k < x {
          assert x in KeySet(pr);
          var i :| 0 <= i < |pr| && pr[i].0 == x;
        }
      }
      if Bst(t) {
        forall i | 0 <= i < |pl| ensures pl[i].0 < k { assert pl[i].0 in KeySet(pl); }
        forall j | 0 <= j < |pr| ensures k < pr[j].0 { assert pr[j].0 in KeySet(pr); }
      }
  }

  /** In a search tree distinct positions carry distinct keys, so the size is the number of keys. */
  lemma {:induction false} SizeIsKeyCount<V>(t: Tree<V>)
    requires Bst(t)
    ensures Size(t) == |Keys(t)|
  {
    match t
    case Nil =>
    case Node(l, k, _, r, _) =>
      SizeIsKeyCount(l);
      SizeIsKeyCount(r);
      assert Keys(l) !! Keys(r) by {
        forall x | x in Keys(l) ensures x !in Keys(r) { }
      }
      assert k !in Keys(l) + Keys(r);
      assert |Keys(l) + Keys(r)| == |Keys(l)| + |Keys(r)|;
  }

  /** The mapping a sequence of pairs denotes has exactly the keys of the pairs. */
  lemma {:induction false} MapOfKeys<V>(ps: seq<(int, V)>)
    ensures MapOf(ps).Keys == KeySet(ps)
    decreases |ps|
  {
    if ps != [] {
      var ps' := ps[..|ps| - 1];
      MapOfKeys(ps');
      assert ps == ps' + [ps[|ps| - 1]];
      KeySetConcat(ps', [ps[|ps| - 1]]);
      assert KeySet([ps[|ps| - 1]]) == {ps[|ps| - 1].0} by {
        assert [ps[|ps| - 1]][0] == ps[|ps| - 1];
      }
    }
  }

  /** The key-to-item view has the tree's keys as its domain. */
  lemma {:induction false} ElementsKeys<V>(t: Tree<V>)
    ensures Elements(t).Keys == Keys(t)
  {
    ElementsArePairs(t);
    MapOfKeys(Pairs(t));
    KeysArePairKeys(t);
  }

  /** Two trees with the same in-order pairs agree on keys, size, search order and mapping. */
  lemma SamePairs<V>(s: Tree<V>, t: Tree<V>)
    requires Pairs(s) == Pairs(t)
    ensures Keys(s) == Keys(t) && Size(s) == Size(t) && Items(s) == Items(t)
    ensures Elements(s) == Elements(t) && (Bst(s) <==> Bst(t))
  {
    KeysArePairKeys(s);
    KeysArePairKeys(t);
    SizeIsPairCount(s);
    SizeIsPairCount(t);
    ItemsOfPairs(s);
    ItemsOfPairs(t);
    BstIffAscending(s);
    BstIffAscending(t);
    ElementsArePairs(s);
    ElementsArePairs(t);
  }

  /** Correct cached heights pin every cached height to the computed depth. */
  lemma {:induction false} HeightIsDepth<V>(t: Tree<V>)
    requires HeightsOk(t)
    ensures Height(t) == Depth(t)
  {
    if t.Node? {
      HeightIsDepth(t.left);
      HeightIsDepth(t.right);
    }
  }

  /** Correct cached heights are all positive. */
  lemma {:induction false} HeightsOkPositive<V>(t: Tree<V>)
    requires HeightsOk(t)
    ensures PositiveHeights(t) && Height(t) >= 0
  {
    if t.Node? {
      HeightsOkPositive(t.left);
      HeightsOkPositive(t.right);
    }
  }
}
