/**
 * The node and list classes the trees are built from. `No` and `Lista` are modelled by
 * minimal stand-ins, not from their source, with the behaviour the trees rely on: a node
 * holds its key, item, two children and a cached height, `setAltura` stores one more than the
 * larger child height (an absent child counts 0), and a list appends at its end.
 */
module Nodes {
  import opened Trees

  /** A tree node. `Repr` is the ghost footprint: the node and every node below it. */
  class No<V> {
    var chave: int
    var item: V
    var esquerda: No?<V>
    var direita: No?<V>
    var altura: int
    ghost var Repr: set<No<V>>

    /** The links form a tree: the children's footprints are disjoint and exclude this node. */
    ghost predicate Valid()
      reads this, Repr
      decreases Repr
    {
      this in Repr &&
      (esquerda != null ==>
        esquerda in Repr && esquerda.Repr <= Repr && this !in esquerda.Repr && esquerda.Valid()) &&
      (direita != null ==>
        direita in Repr && direita.Repr <= Repr && this !in direita.Repr && direita.Valid()) &&
      (esquerda != null && direita != null ==> esquerda.Repr !! direita.Repr)
    }

    /** The subtree rooted here, as a value. */
    ghost function TreeValue(): Tree<V>
      reads this, Repr
      requires Valid()
      decreases Repr, 0
    {
      Node(TreeOf(esquerda), chave, item, TreeOf(direita), altura)
    }

    /** `new No<>(chave, item)`: a leaf of height 1. */
    constructor (k: int, v: V)
      ensures Valid() && fresh(Repr) && TreeValue() == Node(Nil, k, v, Nil, 1)
    {
      chave, item, esquerda, direita, altura := k, v, null, null, 1;
      Repr := {this};
    }

    /** `getFatorBalanceamento`: the balance factor of the subtree rooted here. */
    function FatorBalanceamento(): (f: int)
      reads this, Repr
      requires Valid()
      ensures f == Factor(TreeValue())
    {
      AlturaDe(esquerda) - AlturaDe(direita)
    }

    /**
     * `setEsquerda`: relink the left child; the ghost footprint follows the new link. The
     * ghost preconditions say the two children are separate trees below this node.
     */
    method SetEsquerda(e: No?<V>)
      requires NodeValid(e) && NodeValid(direita)
      requires this !in Footprint(e) && this !in Footprint(direita) && Footprint(e) !! Footprint(direita)
      modifies this
      ensures esquerda == e && direita == old(direita)
      ensures chave == old(chave) && item == old(item) && altura == old(altura)
      ensures Valid() && Repr == {this} + Footprint(e) + Footprint(direita)
      ensures TreeValue() == Node(old(TreeOf(e)), chave, item, old(TreeOf(direita)), altura)
    {
      esquerda := e;
      Repr := {this} + Footprint(e) + Footprint(direita);
    }

    /** `setDireita`: the mirror image of SetEsquerda. */
    method SetDireita(d: No?<V>)
      requires NodeValid(esquerda) && NodeValid(d)
      requires this !in Footprint(esquerda) && this !in Footprint(d) && Footprint(esquerda) !! Footprint(d)
      modifies this
      ensures direita == d && esquerda == old(esquerda)
      ensures chave == old(chave) && item == old(item) && altura == old(altura)
      ensures Valid() && Repr == {this} + Footprint(esquerda) + Footprint(d)
      ensures TreeValue() == Node(old(TreeOf(esquerda)), chave, item, old(TreeOf(d)), altura)
    {
      direita := d;
      Repr := {this} + Footprint(esquerda) + Footprint(d);
    }

    /** `setAltura`: cache one more than the larger child height. */
    method SetAltura()
      requires Valid()
      modifies this`altura
      ensures Valid() && TreeValue() == WithHeight(old(TreeValue()))
    {
      altura := 1 + Max(AlturaDe(esquerda), AlturaDe(direita));
    }
  }

  /** The footprint of a possibly absent subtree. */
  ghost function Footprint<V>(n: No?<V>): set<No<V>>
    reads n
  {
    if n == null then {} else n.Repr
  }

  /** The cached height of a possibly absent subtree: an absent child counts 0. */
  function AlturaDe<V>(n: No?<V>): int
    reads n
  {
    if n == null then 0 else n.altura
  }

  /** A possibly absent subtree whose links form a tree. */
  ghost predicate NodeValid<V>(n: No?<V>)
    reads n, Footprint(n)
  {
    n != null ==> n.Valid()
  }

  /** The value of a possibly absent subtree. */
  ghost function TreeOf<V>(n: No?<V>): (t: Tree<V>)
    reads n, Footprint(n)
    requires NodeValid(n)
    ensures Height(t) == AlturaDe(n) && (t.Nil? <==> n == null)
    decreases Footprint(n), 1
  {
    if n == null then Nil else n.TreeValue()
  }

  /** One level of a valid node: its children are valid, separate trees below it. */
  lemma Unfold<V>(n: No<V>)
    requires n.Valid()
    ensures NodeValid(n.esquerda) && NodeValid(n.direita)
    ensures n !in Footprint(n.esquerda) && n !in Footprint(n.direita)
    ensures Footprint(n.esquerda) !! Footprint(n.direita)
    ensures Footprint(n.esquerda) <= n.Repr && Footprint(n.direita) <= n.Repr
    ensures TreeOf(n) == n.TreeValue() == Node(TreeOf(n.esquerda), n.chave, n.item, TreeOf(n.direita), n.altura)
  {
  }

  /** The result list of `recortar` (`Lista`): items appended in order. */
  class Lista<V> {
    var itens: seq<V>

    constructor ()
      ensures itens == []
    {
      itens := [];
    }

    /** `inserir`: append at the end. */
    method Inserir(x: V)
      modifies this
      ensures itens == old(itens) + [x]
    {
      itens := itens + [x];
    }
  }
}
