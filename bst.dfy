/**
 * The recursive operations of `ABB` on tree values: search with its call count, insert,
 * remove with the in-order predecessor splice, and the pruned range cut. The flag `avl`
 * selects the `AVL` subclass: its overrides of `inserir`, `remover` and
 * `removerNoAntecessor` pass every subtree they return through `balancear`, and because
 * the recursive calls dispatch on the object, that happens at every level on the way up.
 */
module SearchTrees {
  import opened Outcomes
  import opened Trees
  import opened Balancing

  /** What one top-level search yields: the item, if found, and the number of recursive calls made. */
  datatype SearchResult<V> = SearchResult(found: Option<V>, calls: nat)

  /** The in-order predecessor splice: the subtree without its maximum, and that maximum's key and item. */
  datatype Spliced<V> = Spliced(rest: Tree<V>, key: int, item: V)

  /** The hook the AVL subclass adds after each structural step. */
  function Fix<V>(avl: bool, t: Tree<V>): (r: Tree<V>)
    requires CanBalance(t)
    ensures Pairs(r) == Pairs(t) && (t.Nil? <==> r.Nil?)
    ensures PositiveHeights(t) ==> PositiveHeights(r)
  {
    if avl then Balance(t) else t
  }

  /**
   * The private `pesquisar(raizArvore, procurado)`: every call, including the one that reaches
   * an absent child, counts one comparison. The count is at most the tree's depth plus one,
   * and at most its depth when the key is found.
   */
  function Search<V>(t: Tree<V>, k: int): (r: SearchResult<V>)
    ensures 1 <= r.calls <= Depth(t) + 1
    ensures r.found.Some? ==> r.calls <= Depth(t)
  {
    match t
    case Nil => SearchResult(None, 1)
    case Node(l, x, w, rt, _) =>
      if k == x then SearchResult(Some(w), 1)
      else if k < x then var s := Search(l, k); s.(calls := s.calls + 1)
      else var s := Search(rt, k); s.(calls := s.calls + 1)
  }

  /** The protected `inserir(raizArvore, chave, item)`; a key already present fails and nothing is relinked. */
  function Insert<V>(avl: bool, t: Tree<V>, k: int, v: V): (r: Result<Tree<V>>)
    requires PositiveHeights(t)
    ensures r.Ok? ==> PositiveHeights(r.value) && r.value.Node?
  {
    match t
    case Nil => Ok(Fix(avl, Node(Nil, k, v, Nil, 1)))
    case Node(l, x, w, rt, h) =>
      if k < x then
        match Insert(avl, l, k, v)
        case Err(e) => Err(e)
        case Ok(l') => Ok(Fix(avl, Node(l', x, w, rt, h)))
      else if k > x then
        match Insert(avl, rt, k, v)
        case Err(e) => Err(e)
        case Ok(r') => Ok(Fix(avl, Node(l, x, w, r', h)))
      else Err(DuplicateKey)
  }

  /**
   * The protected `removerNoAntecessor(itemRetirar, raizArvore)`: walk right to the maximum,
   * hand its key and item to the node being removed, and replace it by its left child.
   */
  function RemovePredecessor<V>(avl: bool, t: Tree<V>): (r: Spliced<V>)
    requires t.Node? && PositiveHeights(t)
    ensures PositiveHeights(r.rest)
  {
    if t.right.Node? then
      var s := RemovePredecessor(avl, t.right);
      Spliced(Fix(avl, t.(right := s.rest)), s.key, s.item)
    else
      PositiveChildren(t.left);
      Spliced(Fix(avl, t.left), t.key, t.item)
  }

  /**
   * The protected `remover(raizArvore, chaveRemover)`: a node without a right child is
   * replaced by its left child, one without a left child by its right child, and a node with
   * both keeps its place and takes its in-order predecessor's key and item.
   */
  function Remove<V>(avl: bool, t: Tree<V>, k: int): (r: Result<Tree<V>>)
    requires PositiveHeights(t)
    ensures r.Ok? ==> PositiveHeights(r.value)
  {
    match t
    case Nil => Err(NotFound)
    case Node(l, x, w, rt, h) =>
      if k == x then
        PositiveChildren(l);
        PositiveChildren(rt);
        if rt.Nil? then Ok(Fix(avl, l))
        else if l.Nil? then Ok(Fix(avl, rt))
        else
          var s := RemovePredecessor(avl, l);
          Ok(Fix(avl, Node(s.rest, s.key, s.item, rt, h)))
      else if k < x then
        match Remove(avl, l, k)
        case Err(e) => Err(e)
        case Ok(l') => Ok(Fix(avl, Node(l', x, w, rt, h)))
      else
        match Remove(avl, rt, k)
        case Err(e) => Err(e)
        case Ok(r') => Ok(Fix(avl, Node(l, x, w, r', h)))
  }

  /**
   * The private `recortar(no, inicio, fim, lista)`: go left only when the node's key is above
   * `lo`, keep the node's item when its key is within [lo, hi], go right only when its key is
   * below `hi`.
   */
  function Cut<V>(t: Tree<V>, lo: int, hi: int): (r: seq<V>)
    ensures |r| <= Size(t)
  {
    match t
    case Nil => []
    case Node(l, x, w, r, _) =>
      (if x > lo then Cut(l, lo, hi) else [])
      + (if lo <= x <= hi then [w] else [])
      + (if x < hi then Cut(r, lo, hi) else [])
  }

  /** The reference the range cut is measured against: the items of the pairs whose key is in [lo, hi], in order. */
  function Select<V>(ps: seq<(int, V)>, lo: int, hi: int): seq<V>
  {
    if ps == [] then []
    else (if lo <= ps[0].0 <= hi then [ps[0].1] else []) + Select(ps[1..], lo, hi)
  }

  // ---------------------------------------------------------------- lemmas

  /** The AVL hook changes neither the contents nor the order of a subtree. */
  lemma FixKeepsContents<V>(avl: bool, t: Tree<V>)
    requires CanBalance(t)
    ensures Keys(Fix(avl, t)) == Keys(t) && Size(Fix(avl, t)) == Size(t) && Items(Fix(avl, t)) == Items(t)
    ensures Elements(Fix(avl, t)) == Elements(t) && (Bst(Fix(avl, t)) <==> Bst(t))
  {
    SamePairs(Fix(avl, t), t);
  }

  /**
   * `pesquisar` returns the item stored under the key, and reports a miss exactly when the
   * key is absent.
   */
  lemma {:induction false} SearchFinds<V>(t: Tree<V>, k: int)
    requires Bst(t)
    ensures Search(t, k).found == if k in Elements(t) then Some(Elements(t)[k]) else None
  {
    match t
    case Nil =>
    case Node(l, x, w, r, h) =>
      ElementsKeys(l);
      ElementsKeys(r);
      if k < x {
        SearchFinds(l, k);
      } else if k > x {
        SearchFinds(r, k);
      }
  }

  /**
   * Relinking a node over a new subtree and passing it through the AVL hook: the result is a
   * search tree whose contents are the node's pair together with those of its children.
   */
  lemma Relink<V>(avl: bool, l: Tree<V>, x: int, w: V, r: Tree<V>, h: int)
    requires Bst(l) && Bst(r) && (forall y :: y in Keys(l) ==> y < x) && (forall y :: y in Keys(r) ==> x < y)
    requires PositiveHeights(l) && PositiveHeights(r)
    ensures var n := Fix(avl, Node(l, x, w, r, h));
      Bst(n) && Keys(n) == Keys(l) + {x} + Keys(r) && Size(n) == Size(l) + 1 + Size(r) &&
      Elements(n) == Elements(l)[x := w] + Elements(r)
  {
    FixKeepsContents(avl, Node(l, x, w, r, h));
  }

  /**
   * Insert of an absent key adds exactly that pair, keeps the search order and grows the size
   * by one; insert of a present key fails with DuplicateKey. Both kinds of tree.
   */
  lemma {:induction false} InsertSpec<V>(avl: bool, t: Tree<V>, k: int, v: V)
    requires Bst(t) && PositiveHeights(t)
    ensures Insert(avl, t, k, v).Ok? <==> k !in Keys(t)
    ensures Insert(avl, t, k, v).Err? ==> Insert(avl, t, k, v).error == DuplicateKey
    ensures Insert(avl, t, k, v).Ok? ==>
      var t' := Insert(avl, t, k, v).value;
      Bst(t') && Elements(t') == Elements(t)[k := v] && Keys(t') == Keys(t) + {k} && Size(t') == Size(t) + 1
    decreases t, 1
  {
    match t
    case Nil =>
      Relink(avl, Nil, k, v, Nil, 1);
    case Node(l, x, w, r, h) =>
      if k < x {
        InsertLeft(avl, l, x, w, r, h, k, v);
      } else if k > x {
        InsertRight(avl, l, x, w, r, h, k, v);
      }
  }

  /** Overriding a key of the left part commutes with merging a right part that lacks it. */
  lemma MapUpdateCommutes<V>(el: map<int, V>, er: map<int, V>, x: int, w: V, k: int, v: V)
    requires k != x && k !in er
    ensures el[k := v][x := w] + er == (el[x := w] + er)[k := v]
  {
  }

  /** Overriding a key of the right part of a merge overrides it in the merge. */
  lemma MapMergeUpdate<V>(a: map<int, V>, b: map<int, V>, k: int, v: V)
    ensures a + b[k := v] == (a + b)[k := v]
  {
  }

  /** Removing a key the left part lacks commutes with merging. */
  lemma MapRemoveMerge<V>(a: map<int, V>, b: map<int, V>, k: int)
    requires k !in a
    ensures a + (b - {k}) == (a + b) - {k}
  {
  }

  lemma InsertLeft<V>(avl: bool, l: Tree<V>, x: int, w: V, r: Tree<V>, h: int, k: int, v: V)
    requires Bst(Node(l, x, w, r, h)) && PositiveHeights(Node(l, x, w, r, h)) && k < x
    ensures var t := Node(l, x, w, r, h);
      (Insert(avl, t, k, v).Ok? <==> k !in Keys(t)) &&
      (Insert(avl, t, k, v).Err? ==> Insert(avl, t, k, v).error == DuplicateKey) &&
      (Insert(avl, t, k, v).Ok? ==>
        var t' := Insert(avl, t, k, v).value;
        Bst(t') && Elements(t') == Elements(t)[k := v] && Keys(t') == Keys(t) + {k} && Size(t') == Size(t) + 1)
    decreases Node(l, x, w, r, h), 0
  {
    var t := Node(l, x, w, r, h);
    InsertSpec(avl, l, k, v);
    assert k !in Keys(r);
    if Insert(avl, l, k, v).Ok? {
      var l' := Insert(avl, l, k, v).value;
      assert Insert(avl, t, k, v) == Ok(Fix(avl, Node(l', x, w, r, h)));
      Relink(avl, l', x, w, r, h);
      AddKeyLeft(Keys(l), Keys(r), x, k);
      InsertedLeftPairs(t, k, v, l', Fix(avl, Node(l', x, w, r, h)));
    } else {
      assert Insert(avl, t, k, v) == Err(Insert(avl, l, k, v).error);
    }
  }

  lemma InsertRight<V>(avl: bool, l: Tree<V>, x: int, w: V, r: Tree<V>, h: int, k: int, v: V)
    requires Bst(Node(l, x, w, r, h)) && PositiveHeights(Node(l, x, w, r, h)) && k > x
    ensures var t := Node(l, x, w, r, h);
      (Insert(avl, t, k, v).Ok? <==> k !in Keys(t)) &&
      (Insert(avl, t, k, v).Err? ==> Insert(avl, t, k, v).error == DuplicateKey) &&
      (Insert(avl, t, k, v).Ok? ==>
        var t' := Insert(avl, t, k, v).value;
        Bst(t') && Elements(t') == Elements(t)[k := v] && Keys(t') == Keys(t) + {k} && Size(t') == Size(t) + 1)
    decreases Node(l, x, w, r, h), 0
  {
    var t := Node(l, x, w, r, h);
    InsertSpec(avl, r, k, v);
    assert k !in Keys(l);
    if Insert(avl, r, k, v).Ok? {
      var r' := Insert(avl, r, k, v).value;
      assert Insert(avl, t, k, v) == Ok(Fix(avl, Node(l, x, w, r', h)));
      Relink(avl, l, x, w, r', h);
      AddKeyRight(Keys(l), Keys(r), x, k);
      InsertedRightPairs(t, k, v, r', Fix(avl, Node(l, x, w, r', h)));
    } else {
      assert Insert(avl, t, k, v) == Err(Insert(avl, r, k, v).error);
    }
  }

  /** The left subtree took a new key: the relinked tree holds the old pairs and the new one. */
  lemma InsertedLeftPairs<V>(t: Tree<V>, k: int, v: V, l': Tree<V>, n: Tree<V>)
    requires t.Node? && Bst(t) && k < t.key
    requires Elements(l') == Elements(t.left)[k := v]
    requires Elements(n) == Elements(l')[t.key := t.item] + Elements(t.right)
    ensures Elements(n) == Elements(t)[k := v]
  {
    assert k !in Keys(t.right);
    ElementsKeys(t.right);
    MapUpdateCommutes(Elements(t.left), Elements(t.right), t.key, t.item, k, v);
  }

  /** The right subtree took a new key: the relinked tree holds the old pairs and the new one. */
  lemma InsertedRightPairs<V>(t: Tree<V>, k: int, v: V, r': Tree<V>, n: Tree<V>)
    requires t.Node? && Bst(t) && k > t.key
    requires Elements(r') == Elements(t.right)[k := v]
    requires Elements(n) == Elements(t.left)[t.key := t.item] + Elements(r')
    ensures Elements(n) == Elements(t)[k := v]
  {
    assert k !in Keys(t.left);
    ElementsKeys(t.left);
    MapMergeUpdate(Elements(t.left)[t.key := t.item], Elements(t.right), k, v);
  }

  /** Adding a key to the left part of a key set adds it to the whole. */
  lemma AddKeyLeft(kl: set<int>, kr: set<int>, x: int, k: int)
    ensures kl + {k} + {x} + kr == kl + {x} + kr + {k}
  {
  }

  /** Adding a key to the right part of a key set adds it to the whole. */
  lemma AddKeyRight(kl: set<int>, kr: set<int>, x: int, k: int)
    ensures kl + {x} + (kr + {k}) == kl + {x} + kr + {k}
  {
  }

  /**
   * The predecessor splice takes the largest pair of a (non-empty) subtree: the in-order pairs
   * of the subtree are those of the remainder followed by the taken pair.
   */
  lemma {:induction false} RemovePredecessorSpec<V>(avl: bool, t: Tree<V>)
    requires t.Node? && PositiveHeights(t)
    ensures var s := RemovePredecessor(avl, t); Pairs(t) == Pairs(s.rest) + [(s.key, s.item)]
  {
    if t.right.Node? {
      var s := RemovePredecessor(avl, t.right);
      RemovePredecessorSpec(avl, t.right);
    } else {
      PositiveChildren(t.left);
    }
  }

  /**
   * Consequences of the splice on a search tree: the taken key is the largest key, its item is
   * the one stored under it, and the remainder is a search tree holding every other pair.
   */
  /** The facts RemovePredecessorTakesMaximum states, for a splice result `s` of `t`. */
  ghost predicate TakesMaximum<V>(t: Tree<V>, s: Spliced<V>)
  {
    s.key in Elements(t) && Elements(t)[s.key] == s.item && (forall y :: y in Keys(t) ==> y <= s.key) &&
    Bst(s.rest) && Keys(s.rest) == Keys(t) - {s.key} && Elements(s.rest) == Elements(t) - {s.key} &&
    Size(s.rest) + 1 == Size(t)
  }

  /** The step of RemovePredecessorTakesMaximum that goes right: relinking over the spliced right subtree. */
  lemma TakesMaximumRight<V>(t: Tree<V>, s': Spliced<V>, n: Tree<V>)
    requires t.Node? && Bst(t) && TakesMaximum(t.right, s')
    requires Bst(n) && Keys(n) == Keys(t.left) + {t.key} + Keys(s'.rest) && Size(n) == Size(t.left) + 1 + Size(s'.rest)
    requires Elements(n) == Elements(t.left)[t.key := t.item] + Elements(s'.rest)
    ensures TakesMaximum(t, Spliced(n, s'.key, s'.item))
  {
    ElementsKeys(t.left);
    var el := Elements(t.left)[t.key := t.item];
    assert s'.key !in el;
    MapRemoveMerge(el, Elements(t.right), s'.key);
  }

  lemma {:induction false} RemovePredecessorTakesMaximum<V>(avl: bool, t: Tree<V>)
    requires t.Node? && PositiveHeights(t) && Bst(t)
    ensures TakesMaximum(t, RemovePredecessor(avl, t))
  {
    var Node(l, x, w, r, h) := t;
    PositiveChildren(l);
    if r.Node? {
      var s' := RemovePredecessor(avl, r);
      RemovePredecessorTakesMaximum(avl, r);
      Relink(avl, l, x, w, s'.rest, h);
      TakesMaximumRight(t, s', Fix(avl, Node(l, x, w, s'.rest, h)));
    } else {
      FixKeepsContents(avl, l);
      TakesMaximumHere(t, Fix(avl, l));
    }
  }

  /** The step of RemovePredecessorTakesMaximum at the maximum: the node gives way to its left child. */
  lemma TakesMaximumHere<V>(t: Tree<V>, n: Tree<V>)
    requires t.Node? && t.right.Nil? && forall y :: y in Keys(t.left) ==> y < t.key
    requires Bst(n) && Keys(n) == Keys(t.left) && Elements(n) == Elements(t.left) && Size(n) == Size(t.left)
    ensures TakesMaximum(t, Spliced(n, t.key, t.item))
  {
    var l := t.left;
    assert t == Node(l, t.key, t.item, Nil, t.height);
    ElementsKeys(l);
    assert Keys(t) == Keys(l) + {t.key};
    assert Elements(t) == Elements(l)[t.key := t.item];
    assert Size(t) == Size(l) + 1;
    DropFresh(Keys(l), Elements(l), t.key, t.item, Keys(t), Elements(t));
  }

  /**
   * Adding a fresh key `k` to a map whose domain is `kc` and dropping it again gives the map back;
   * the added pair is found under `k`.
   */
  lemma DropFresh<V>(kc: set<int>, ec: map<int, V>, k: int, v: V, kt: set<int>, et: map<int, V>)
    requires ec.Keys == kc && k !in kc
    requires kt == kc + {k} && (et == ec[k := v] || et == map[k := v] + ec)
    ensures k in et && et[k] == v
    ensures kc == kt - {k} && ec == et - {k}
  {
  }

  /** The facts RemoveSpec states about removing `k` from `t`. */
  ghost predicate RemoveMeetsSpec<V>(t: Tree<V>, k: int, r: Result<Tree<V>>)
  {
    (r.Ok? <==> k in Keys(t)) &&
    (r.Err? ==> r.error == NotFound) &&
    (r.Ok? ==>
      Bst(r.value) && Elements(r.value) == Elements(t) - {k} && Keys(r.value) == Keys(t) - {k} &&
      Size(r.value) + 1 == Size(t))
  }

  /**
   * Remove of a present key deletes exactly that key, keeps the search order and shrinks the
   * size by one; remove of an absent key fails with NotFound. Both kinds of tree.
   */
  lemma {:induction false} RemoveSpec<V>(avl: bool, t: Tree<V>, k: int)
    requires Bst(t) && PositiveHeights(t)
    ensures RemoveMeetsSpec(t, k, Remove(avl, t, k))
    decreases t, 1
  {
    match t
    case Nil =>
    case Node(l, x, w, r, h) =>
      if k == x {
        RemoveHere(avl, t);
      } else if k < x {
        RemoveLeft(avl, t, k);
      } else {
        RemoveRight(avl, t, k);
      }
  }

  /** RemoveSpec when the key is at the root of the subtree. */
  lemma RemoveHere<V>(avl: bool, t: Tree<V>)
    requires t.Node? && Bst(t) && PositiveHeights(t)
    ensures RemoveMeetsSpec(t, t.key, Remove(avl, t, t.key))
  {
    var Node(l, x, w, r, h) := t;
    PositiveChildren(l);
    PositiveChildren(r);
    if r.Nil? {
      FixKeepsContents(avl, l);
      OnlyLeftContents(t, Fix(avl, l));
    } else if l.Nil? {
      FixKeepsContents(avl, r);
      OnlyRightContents(t, Fix(avl, r));
    } else {
      RemoveTwoChildren(avl, t);
    }
  }

  /** A node without a right child gives way to its left child. */
  lemma OnlyLeftContents<V>(t: Tree<V>, n: Tree<V>)
    requires t.Node? && t.right.Nil? && t.key !in Keys(t.left)
    requires Bst(n) && Keys(n) == Keys(t.left) && Elements(n) == Elements(t.left) && Size(n) == Size(t.left)
    ensures RemoveMeetsSpec(t, t.key, Ok(n))
  {
    var l := t.left;
    assert t == Node(l, t.key, t.item, Nil, t.height);
    ElementsKeys(l);
    assert Keys(t) == Keys(l) + {t.key};
    assert Elements(t) == Elements(l)[t.key := t.item];
    assert Size(t) == Size(l) + 1;
    DropFresh(Keys(l), Elements(l), t.key, t.item, Keys(t), Elements(t));
  }

  /** A node without a left child gives way to its right child. */
  lemma OnlyRightContents<V>(t: Tree<V>, n: Tree<V>)
    requires t.Node? && t.left.Nil? && t.key !in Keys(t.right)
    requires Bst(n) && Keys(n) == Keys(t.right) && Elements(n) == Elements(t.right) && Size(n) == Size(t.right)
    ensures RemoveMeetsSpec(t, t.key, Ok(n))
  {
    ElementsKeys(t.right);
    assert Keys(t) == {} + {t.key} + Keys(t.right);
    assert Elements(t) == map[][t.key := t.item] + Elements(t.right);
    DropFresh(Keys(t.right), Elements(t.right), t.key, t.item, Keys(t), Elements(t));
  }

  lemma RemoveTwoChildren<V>(avl: bool, t: Tree<V>)
    requires t.Node? && Bst(t) && PositiveHeights(t) && t.left.Node? && t.right.Node?
    ensures RemoveMeetsSpec(t, t.key, Remove(avl, t, t.key))
  {
    var s := RemovePredecessor(avl, t.left);
    assert Remove(avl, t, t.key) == Ok(Fix(avl, Node(s.rest, s.key, s.item, t.right, t.height)));
    SpliceRelinks(avl, t, s);
  }

  /** The two-child case once the predecessor is spliced out of the left subtree. */
  lemma SpliceRelinks<V>(avl: bool, t: Tree<V>, s: Spliced<V>)
    requires t.Node? && Bst(t) && PositiveHeights(t) && t.left.Node? && t.right.Node?
    requires s == RemovePredecessor(avl, t.left)
    ensures RemoveMeetsSpec(t, t.key, Ok(Fix(avl, Node(s.rest, s.key, s.item, t.right, t.height))))
  {
    var Node(l, x, w, r, h) := t;
    PositiveChildren(l);
    PositiveChildren(r);
    RemovePredecessorTakesMaximum(avl, l);
    var n := Fix(avl, Node(s.rest, s.key, s.item, r, h));
    assert s.key in Keys(l) && x !in Keys(l) && x !in Keys(r) by {
      ElementsKeys(l);
    }
    BelowMaximum(Keys(l), Keys(s.rest), s.key);
    assert forall y :: y in Keys(r) ==> s.key < y;
    Relink(avl, s.rest, s.key, s.item, r, h);
    TwoChildrenContents(t, s, n);
  }

  /** Without its maximum, every key of a set lies strictly below that maximum. */
  lemma BelowMaximum(ks: set<int>, rest: set<int>, m: int)
    requires (forall y :: y in ks ==> y <= m) && rest == ks - {m}
    ensures forall y :: y in rest ==> y < m
  {
  }

  lemma TwoChildrenContents<V>(t: Tree<V>, s: Spliced<V>, n: Tree<V>)
    requires t.Node? && t.key !in Keys(t.left) && t.key !in Keys(t.right) && TakesMaximum(t.left, s)
    requires Bst(n) && Keys(n) == Keys(s.rest) + {s.key} + Keys(t.right) && Size(n) == Size(s.rest) + 1 + Size(t.right)
    requires Elements(n) == Elements(s.rest)[s.key := s.item] + Elements(t.right)
    ensures RemoveMeetsSpec(t, t.key, Ok(n))
  {
    ElementsKeys(t.left);
    ElementsKeys(t.right);
    RemoveHereMaps(Elements(t.left), Elements(t.right), t.key, t.item, s.key, s.item);
    RemoveHereSets(Keys(t.left), Keys(t.right), Keys(s.rest), t.key, s.key);
  }

  /** The set algebra of the two-child case. */
  lemma RemoveHereSets(kl: set<int>, kr: set<int>, krest: set<int>, x: int, pk: int)
    requires krest == kl - {pk} && pk in kl && x !in kl && x !in kr
    ensures krest + {pk} + kr == (kl + {x} + kr) - {x}
  {
  }

  /** The map algebra of the two-child case: the predecessor's pair replaces the removed one. */
  lemma RemoveHereMaps<V>(el: map<int, V>, er: map<int, V>, x: int, w: V, pk: int, pv: V)
    requires pk in el && el[pk] == pv && x !in el && x !in er
    ensures (el - {pk})[pk := pv] + er == (el[x := w] + er) - {x}
  {
  }

  lemma MapRemoveUpdate<V>(el: map<int, V>, er: map<int, V>, x: int, w: V, k: int)
    requires k != x && k !in er
    ensures (el - {k})[x := w] + er == (el[x := w] + er) - {k}
  {
  }

  lemma RemoveLeft<V>(avl: bool, t: Tree<V>, k: int)
    requires t.Node? && Bst(t) && PositiveHeights(t) && k < t.key
    ensures RemoveMeetsSpec(t, k, Remove(avl, t, k))
    decreases t, 0
  {
    var Node(l, x, w, r, h) := t;
    RemoveSpec(avl, l, k);
    assert k !in Keys(r);
    if Remove(avl, l, k).Ok? {
      var l' := Remove(avl, l, k).value;
      assert Remove(avl, t, k) == Ok(Fix(avl, Node(l', x, w, r, h)));
      Relink(avl, l', x, w, r, h);
      ElementsKeys(r);
      MapRemoveUpdate(Elements(l), Elements(r), x, w, k);
    } else {
      assert Remove(avl, t, k) == Err(Remove(avl, l, k).error);
    }
  }

  lemma RemoveRight<V>(avl: bool, t: Tree<V>, k: int)
    requires t.Node? && Bst(t) && PositiveHeights(t) && k > t.key
    ensures RemoveMeetsSpec(t, k, Remove(avl, t, k))
    decreases t, 0
  {
    var Node(l, x, w, r, h) := t;
    RemoveSpec(avl, r, k);
    assert k !in Keys(l);
    if Remove(avl, r, k).Ok? {
      var r' := Remove(avl, r, k).value;
      assert Remove(avl, t, k) == Ok(Fix(avl, Node(l, x, w, r', h)));
      Relink(avl, l, x, w, r', h);
      ElementsKeys(l);
      MapRemoveMerge(Elements(l)[x := w], Elements(r), k);
    } else {
      assert Remove(avl, t, k) == Err(Remove(avl, r, k).error);
    }
  }

  /** Removing a key just inserted restores the mapping and the size, and yields the inserted item. */
  lemma InsertThenRemove<V>(avl: bool, t: Tree<V>, k: int, v: V)
    requires Bst(t) && PositiveHeights(t) && k !in Keys(t)
    ensures Insert(avl, t, k, v).Ok?
    ensures var t' := Insert(avl, t, k, v).value;
      Search(t', k).found == Some(v) &&
      Remove(avl, t', k).Ok? && Elements(Remove(avl, t', k).value) == Elements(t) &&
      Size(Remove(avl, t', k).value) == Size(t)
  {
    InsertSpec(avl, t, k, v);
    var t' := Insert(avl, t, k, v).value;
    SearchFinds(t', k);
    RemoveSpec(avl, t', k);
    ElementsKeys(t);
    assert Elements(t)[k := v] - {k} == Elements(t);
  }

  lemma {:induction false} SelectConcat<V>(a: seq<(int, V)>, b: seq<(int, V)>, lo: int, hi: int)
    ensures Select(a + b, lo, hi) == Select(a, lo, hi) + Select(b, lo, hi)
    decreases |a|
  {
    if a != [] {
      assert (a + b)[1..] == a[1..] + b;
      SelectConcat(a[1..], b, lo, hi);
    } else {
      assert a + b == b;
    }
  }

  /** Nothing is selected from pairs whose keys all lie outside the interval. */
  lemma {:induction false} SelectNone<V>(ps: seq<(int, V)>, lo: int, hi: int)
    requires forall i :: 0 <= i < |ps| ==> ps[i].0 < lo || hi < ps[i].0
    ensures Select(ps, lo, hi) == []
    decreases |ps|
  {
    if ps != [] {
      SelectNone(ps[1..], lo, hi);
    }
  }

  /**
   * The pruned walk of `recortar` yields exactly the items whose keys are in [lo, hi], in
   * in-order (ascending key) order: pruning never skips a qualifying node.
   */
  lemma {:induction false} CutSelects<V>(t: Tree<V>, lo: int, hi: int)
    requires Bst(t)
    ensures Cut(t, lo, hi) == Select(Pairs(t), lo, hi)
  {
    match t
    case Nil =>
    case Node(l, x, w, r, _) =>
      var pl, pr := Pairs(l), Pairs(r);
      SelectConcat(pl + [(x, w)], pr, lo, hi);
      SelectConcat(pl, [(x, w)], lo, hi);
      assert Select([(x, w)], lo, hi) == if lo <= x <= hi then [w] else [] by {
        assert [(x, w)][1..] == [];
      }
      KeysArePairKeys(l);
      KeysArePairKeys(r);
      if x > lo {
        CutSelects(l, lo, hi);
      } else {
        forall i | 0 <= i < |pl| ensures pl[i].0 < lo || hi < pl[i].0 {
          assert pl[i].0 in KeySet(pl);
        }
        SelectNone(pl, lo, hi);
      }
      if x < hi {
        CutSelects(r, lo, hi);
      } else {
        forall i | 0 <= i < |pr| ensures pr[i].0 < lo || hi < pr[i].0 {
          assert pr[i].0 in KeySet(pr);
        }
        SelectNone(pr, lo, hi);
      }
  }
}
