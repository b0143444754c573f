/**
 * The classes `ABB` and `AVL` over linked `No` nodes. One class models both: `avl` is fixed
 * by the constructor, and where `AVL` overrides `inserir`, `remover` and
 * `removerNoAntecessor` with `balancear(super...)`, the recursive methods here run
 * `Balancear` on the subtree they return when `avl` holds. Each recursive method is proved
 * against the function on tree values that `SearchTrees` and `Balancing` define and reason
 * about.
 */
module TreeMaps {
  import opened Outcomes
  import opened Trees
  import opened Balancing
  import opened SearchTrees
  import opened AvlTrees
  import opened Nodes

  /** What `caminhamentoEmOrdem` yields: the empty-tree message, or the items one per line. */
  datatype Dump<V> = EmptyTree | Lines(items: seq<V>)

  /** Regrouping four appended pieces, stated once so the walk's proofs do not rediscover it. */
  lemma Regroup<T>(a: seq<T>, b: seq<T>, c: seq<T>, d: seq<T>)
    ensures a + b + c + d == a + (b + c + d)
  {
  }

  /**
   * What every `ABB` keeps about its tree: search order, positive cached heights, for an
   * `AVL` object balance with correct heights, and `tamanho` equal to the number of pairs.
   */
  ghost predicate MapInv<V>(avl: bool, t: Tree<V>, tamanho: int)
  {
    Bst(t) && PositiveHeights(t) && (avl ==> Avl(t)) && tamanho == Size(t)
  }

  /** `inserir` keeps the invariant: a new key adds its pair and one to the size; a present key fails. */
  lemma InsertKeepsInv<V>(avl: bool, t: Tree<V>, n: int, k: int, v: V)
    requires MapInv(avl, t, n)
    ensures var r := Insert(avl, t, k, v);
      (r.Ok? <==> k !in Elements(t)) && (r.Err? ==> r.error == DuplicateKey) &&
      (r.Ok? ==> MapInv(avl, r.value, n + 1) && Elements(r.value) == Elements(t)[k := v])
  {
    InsertSpec(avl, t, k, v);
    ElementsKeys(t);
    if avl {
      InsertKeepsAvl(t, k, v);
    }
  }

  /** `remover` keeps the invariant: a present key loses its pair and one from the size; an absent key fails. */
  lemma RemoveKeepsInv<V>(avl: bool, t: Tree<V>, n: int, k: int)
    requires MapInv(avl, t, n)
    ensures var r := Remove(avl, t, k);
      (r.Ok? <==> k in Elements(t)) && (r.Err? ==> r.error == NotFound) &&
      (r.Ok? ==> MapInv(avl, r.value, n - 1) && Elements(r.value) == Elements(t) - {k})
  {
    RemoveSpec(avl, t, k);
    ElementsKeys(t);
    if avl {
      RemoveKeepsAvl(t, k);
    }
  }

  class ABB<V> {
    var raiz: No?<V>
    var tamanho: int
    var comparacoes: int
    /** True for an `AVL` object. */
    const avl: bool
    ghost var Repr: set<object>

    /**
     * The object invariant: the nodes form a binary search tree with positive cached heights,
     * an `AVL` object's tree is balanced with correct heights, and `tamanho` counts its pairs.
     */
    ghost predicate Valid()
      reads this, Repr
    {
      this in Repr && (raiz != null ==> raiz in Repr && raiz.Repr <= Repr) && NodeValid(raiz) &&
      MapInv(avl, TreeOf(raiz), tamanho)
    }

    /** The tree as a value. */
    ghost function TreeValue(): Tree<V>
      reads this, Repr
      requires Valid()
    {
      TreeOf(raiz)
    }

    /** The key-to-item mapping the tree stores. */
    ghost function Contents(): map<int, V>
      reads this, Repr
      requires Valid()
    {
      Elements(TreeOf(raiz))
    }

    /** `new ABB<>()`: an empty unbalanced tree. */
    constructor ()
      ensures Valid() && fresh(Repr) && !avl && Contents() == map[] && tamanho == 0 && comparacoes == 0
    {
      raiz, tamanho, comparacoes, avl := null, 0, 0, false;
      Repr := {this};
    }

    /** `new AVL<>()`: an empty AVL tree. */
    constructor AVL()
      ensures Valid() && fresh(Repr) && avl && Contents() == map[] && tamanho == 0 && comparacoes == 0
    {
      raiz, tamanho, comparacoes, avl := null, 0, 0, true;
      Repr := {this};
    }

    /** `vazia()`: the root is absent exactly when no pair is stored. */
    function Vazia(): (b: bool)
      reads this, Repr
      requires Valid()
      ensures b <==> Contents() == map[]
      ensures b <==> tamanho == 0
    {
      ElementsKeys(TreeOf(raiz));
      raiz == null
    }

    /** `tamanho()`: the number of stored pairs. */
    function Tamanho(): (n: int)
      reads this, Repr
      requires Valid()
      ensures n == |Contents()|
    {
      SizeIsKeyCount(TreeOf(raiz));
      ElementsKeys(TreeOf(raiz));
      tamanho
    }

    /** `getComparacoes()`: the comparisons counted by the last search. */
    function GetComparacoes(): (c: int)
      reads this
      ensures c == comparacoes
    {
      comparacoes
    }

    /**
     * `inserir(chave, item)`: a new key adds exactly its pair, keeps the search order (and, for
     * an `AVL` object, the balance with correct heights) and returns the new size; a key
     * already present fails with DuplicateKey and changes nothing.
     */
    method Inserir(k: int, v: V) returns (r: Result<int>)
      requires Valid()
      modifies Repr
      ensures Valid() && fresh(Repr - old(Repr)) && comparacoes == old(comparacoes)
      ensures r.Ok? <==> k !in old(Contents())
      ensures r.Ok? ==> Contents() == old(Contents())[k := v] && tamanho == old(tamanho) + 1 && r.value == tamanho
      ensures r.Err? ==> r.error == DuplicateKey && TreeValue() == old(TreeValue()) && tamanho == old(tamanho)
    {
      ghost var t := TreeOf(raiz);
      InsertKeepsInv(avl, t, tamanho, k, v);
      var novo, ok := InserirNo(raiz, k, v);
      if !ok {
        return Err(DuplicateKey);
      }
      ghost var t' := TreeOf(novo);
      raiz, tamanho := novo, tamanho + 1;
      Repr := Repr + Footprint(raiz);
      assert NodeValid(raiz) && TreeOf(raiz) == t';
      r := Ok(tamanho);
    }

    /**
     * `pesquisar(chave)`: the item stored under the key, or NotFound; the comparison count is
     * reset and ends as the number of recursive calls the search made.
     */
    method Pesquisar(k: int) returns (r: Result<V>)
      requires Valid()
      modifies this`comparacoes
      ensures Valid()
      ensures r == if k in Contents() then Ok(Contents()[k]) else Err(NotFound)
      ensures comparacoes == Search(TreeValue(), k).calls
    {
      comparacoes := 0;
      var found := PesquisarNo(raiz, k);
      SearchFinds(TreeOf(raiz), k);
      r := if found.Some? then Ok(found.value) else Err(NotFound);
    }

    /** The private `pesquisar(raizArvore, procurado)`: one comparison counted per call. */
    method PesquisarNo(n: No?<V>, k: int) returns (found: Option<V>)
      requires NodeValid(n)
      modifies this`comparacoes
      ensures found == Search(TreeOf(n), k).found
      ensures comparacoes == old(comparacoes) + Search(TreeOf(n), k).calls
      decreases Footprint(n)
    {
      comparacoes := comparacoes + 1;
      if n == null {
        return None;
      }
      Unfold(n);
      if k == n.chave {
        found := Some(n.item);
      } else if k < n.chave {
        found := PesquisarNo(n.esquerda, k);
      } else {
        found := PesquisarNo(n.direita, k);
      }
    }

    /**
     * `remover(chave)`: the preliminary search sets the comparison count and fails with
     * NotFound on an absent key, changing nothing else; a present key is deleted with its
     * pair alone, its item is returned and the size shrinks by one.
     */
    method Remover(k: int) returns (r: Result<V>)
      requires Valid()
      modifies Repr
      ensures Valid() && Repr == old(Repr)
      ensures comparacoes == Search(old(TreeValue()), k).calls
      ensures r == if k in old(Contents()) then Ok(old(Contents())[k]) else Err(NotFound)
      ensures r.Ok? ==> Contents() == old(Contents()) - {k} && tamanho == old(tamanho) - 1
      ensures r.Err? ==> TreeValue() == old(TreeValue()) && tamanho == old(tamanho)
    {
      r := Pesquisar(k);
      if r.Err? {
        return;
      }
      ghost var t := TreeOf(raiz);
      RemoveKeepsInv(avl, t, tamanho, k);
      var novo, ok := RemoverNo(raiz, k);
      ghost var t' := TreeOf(novo);
      raiz, tamanho := novo, tamanho - 1;
      assert NodeValid(raiz) && TreeOf(raiz) == t';
    }

    /**
     * `recortar(chaveDeOnde, chaveAteOnde)`: a new list of the items whose keys lie in
     * [lo, hi], in ascending key order.
     */
    method Recortar(lo: int, hi: int) returns (lista: Lista<V>)
      requires Valid()
      ensures fresh(lista)
      ensures lista.itens == Select(Pairs(TreeValue()), lo, hi)
    {
      lista := new Lista();
      RecortarNo(raiz, TreeOf(raiz), lo, hi, lista);
      CutSelects(TreeOf(raiz), lo, hi);
    }

    /**
     * The private `recortar(no, inicio, fim, lista)`: appends the pruned in-order walk of the
     * subtree to the list.
     */
    method RecortarNo(n: No?<V>, ghost t: Tree<V>, lo: int, hi: int, lista: Lista<V>)
      requires NodeValid(n) && t == TreeOf(n)
      modifies lista
      ensures lista.itens == old(lista.itens) + Cut(t, lo, hi)
      decreases Footprint(n)
    {
      if n != null {
        Unfold(n);
        ghost var start := lista.itens;
        ghost var before := if n.chave > lo then Cut(t.left, lo, hi) else [];
        ghost var here := if lo <= n.chave <= hi then [n.item] else [];
        ghost var after := if n.chave < hi then Cut(t.right, lo, hi) else [];
        assert Cut(t, lo, hi) == before + here + after;
        if n.chave > lo {
          RecortarNo(n.esquerda, t.left, lo, hi, lista);
        }
        assert lista.itens == start + before;
        if lo <= n.chave && n.chave <= hi {
          lista.Inserir(n.item);
        }
        assert lista.itens == start + before + here;
        if n.chave < hi {
          RecortarNo(n.direita, t.right, lo, hi, lista);
        }
        Regroup(start, before, here, after);
      }
    }

    /**
     * `caminhamentoEmOrdem()`: the empty-tree message for an empty tree, otherwise every
     * item in ascending key order.
     */
    function CaminhamentoEmOrdem(): (d: Dump<V>)
      reads this, Repr
      requires Valid()
      ensures d.EmptyTree? <==> Contents() == map[]
      ensures d.Lines? ==> d.items == Items(TreeValue()) && Ascending(Pairs(TreeValue()))
    {
      ElementsKeys(TreeOf(raiz));
      BstIffAscending(TreeOf(raiz));
      if raiz == null then EmptyTree else Lines(CaminhamentoNo(raiz))
    }

    /** The private `caminhamentoEmOrdem(raizArvore)`: left subtree, the node's item, right subtree. */
    function CaminhamentoNo(n: No?<V>): (items: seq<V>)
      reads n, Footprint(n)
      requires NodeValid(n)
      ensures items == Items(TreeOf(n))
      decreases Footprint(n)
    {
      if n == null then []
      else
        Unfold(n);
        CaminhamentoNo(n.esquerda) + [n.item] + CaminhamentoNo(n.direita)
    }

    /**
     * `rotacionarDireita(p)`: `p`'s left child `u` becomes the root of the subtree, `u`'s
     * right subtree moves under `p`, and `p` moves under `u`; the same nodes are reused, and
     * `p`'s height is recomputed before `u`'s. (Recomputing `p`'s height before linking it
     * under `u` gives the same nodes as the source's order, which links first: `p`'s height
     * depends only on `p`'s own children.)
     */
    method RotacionarDireita(p: No<V>) returns (u: No<V>)
      requires p.Valid() && p.esquerda != null
      modifies p, p.esquerda
      ensures u == old(p.esquerda) && u.Valid() && u.Repr <= old(p.Repr)
      ensures u.TreeValue() == RotateRight(old(p.TreeValue()))
    {
      u := p.esquerda;
      var f, g := u.direita, u.esquerda;
      ghost var before := p.TreeValue();
      assert TreeOf(u) == u.TreeValue();
      ghost var inner := u.TreeValue();
      ghost var kept := TreeOf(g);
      assert before.left == inner && inner.left == kept;
      ghost var whole, below, moved, right := p.Repr, Footprint(g), Footprint(f), Footprint(p.direita);
      assert u in whole && below <= whole && moved <= whole && right <= whole;
      p.SetEsquerda(f);
      p.SetAltura();
      assert p.Repr == {p} + moved + right;
      ghost var lowered := p.TreeValue();
      assert lowered == WithHeight(before.(left := inner.right));
      assert TreeOf(p) == lowered;
      assert TreeOf(g) == kept;
      u.SetDireita(p);
      ghost var raised := Node(kept, inner.key, inner.item, lowered, inner.height);
      assert u.TreeValue() == raised;
      assert u.Repr == {u} + below + ({p} + moved + right) <= whole;
      assert WithHeight(raised) == RotateRight(before);
      u.SetAltura();
    }

    /** `rotacionarEsquerda(p)`: the mirror image of RotacionarDireita. */
    method RotacionarEsquerda(p: No<V>) returns (z: No<V>)
      requires p.Valid() && p.direita != null
      modifies p, p.direita
      ensures z == old(p.direita) && z.Valid() && z.Repr <= old(p.Repr)
      ensures z.TreeValue() == RotateLeft(old(p.TreeValue()))
    {
      z := p.direita;
      var f, g := z.esquerda, z.direita;
      ghost var before := p.TreeValue();
      assert TreeOf(z) == z.TreeValue();
      ghost var inner := z.TreeValue();
      ghost var kept := TreeOf(g);
      assert before.right == inner && inner.right == kept;
      ghost var whole, below, moved, left := p.Repr, Footprint(g), Footprint(f), Footprint(p.esquerda);
      assert z in whole && below <= whole && moved <= whole && left <= whole;
      p.SetDireita(f);
      p.SetAltura();
      assert p.Repr == {p} + left + moved;
      ghost var lowered := p.TreeValue();
      assert lowered == WithHeight(before.(right := inner.left));
      assert TreeOf(p) == lowered;
      assert TreeOf(g) == kept;
      z.SetEsquerda(p);
      ghost var raised := Node(lowered, inner.key, inner.item, kept, inner.height);
      assert z.TreeValue() == raised;
      assert z.Repr == {z} + ({p} + left + moved) + below <= whole;
      assert WithHeight(raised) == RotateLeft(before);
      z.SetAltura();
    }

    /**
     * `balancear(raizArvore)`: a factor of +2 rotates right, after rotating the left child
     * left when its factor is -1; -2 is the mirror image; any other factor only recomputes
     * the cached height. An absent subtree is returned as it is.
     */
    method Balancear(n: No?<V>) returns (r: No?<V>)
      requires NodeValid(n) && CanBalance(TreeOf(n))
      modifies Footprint(n)
      ensures NodeValid(r) && Footprint(r) <= old(Footprint(n))
      ensures TreeOf(r) == Balance(old(TreeOf(n)))
    {
      if n == null {
        return null;
      }
      Unfold(n);
      var fator := n.FatorBalanceamento();
      if fator == 2 {
        r := BalancearEsquerda(n);
      } else if fator == -2 {
        r := BalancearDireita(n);
      } else {
        n.SetAltura();
        r := n;
      }
    }

    /** The +2 branch of `balancear`: a double rotation when the left child leans right. */
    method BalancearEsquerda(n: No<V>) returns (r: No<V>)
      requires n.Valid() && CanBalance(n.TreeValue()) && Factor(n.TreeValue()) == 2
      modifies n.Repr
      ensures r.Valid() && r.Repr <= old(n.Repr)
      ensures r.TreeValue() == Balance(old(n.TreeValue()))
    {
      ghost var t, whole := n.TreeValue(), n.Repr;
      Unfold(n);
      BalanceDereferencesSafe(t);
      var e := n.esquerda;
      Unfold(e);
      if e.FatorBalanceamento() == -1 {
        var e' := RotacionarEsquerda(e);
        n.SetEsquerda(e');
        assert n.TreeValue() == t.(left := RotateLeft(t.left)) && n.Repr <= whole;
      }
      r := RotacionarDireita(n);
    }

    /** The -2 branch of `balancear`: the mirror image of BalancearEsquerda. */
    method BalancearDireita(n: No<V>) returns (r: No<V>)
      requires n.Valid() && CanBalance(n.TreeValue()) && Factor(n.TreeValue()) == -2
      modifies n.Repr
      ensures r.Valid() && r.Repr <= old(n.Repr)
      ensures r.TreeValue() == Balance(old(n.TreeValue()))
    {
      ghost var t, whole := n.TreeValue(), n.Repr;
      Unfold(n);
      BalanceDereferencesSafe(t);
      var d := n.direita;
      Unfold(d);
      if d.FatorBalanceamento() == 1 {
        var d' := RotacionarDireita(d);
        n.SetDireita(d');
        assert n.TreeValue() == t.(right := RotateRight(t.right)) && n.Repr <= whole;
      }
      r := RotacionarEsquerda(n);
    }

    /**
     * The step the `AVL` overrides add: `balancear` on the subtree a recursive mutator
     * returns, for an `AVL` object; an `ABB` object returns the subtree as it is.
     */
    method Fixup(n: No?<V>) returns (r: No?<V>)
      requires NodeValid(n) && CanBalance(TreeOf(n))
      modifies Footprint(n)
      ensures NodeValid(r) && Footprint(r) <= old(Footprint(n))
      ensures TreeOf(r) == Fix(avl, old(TreeOf(n)))
    {
      if avl {
        r := Balancear(n);
      } else {
        r := n;
      }
    }

    /**
     * `inserir(raizArvore, chave, item)`: a new leaf where the search ends, relinked on the
     * way back up; a key already present fails before anything is relinked.
     */
    method InserirNo(n: No?<V>, k: int, v: V) returns (r: No?<V>, ok: bool)
      requires NodeValid(n) && PositiveHeights(TreeOf(n))
      modifies Footprint(n)
      ensures NodeValid(r)
      ensures ok == Insert(avl, old(TreeOf(n)), k, v).Ok?
      ensures ok ==> TreeOf(r) == Insert(avl, old(TreeOf(n)), k, v).value && fresh(Footprint(r) - old(Footprint(n)))
      ensures !ok ==> r == n && unchanged(old(Footprint(n)))
      decreases Footprint(n), 1
    {
      if n == null {
        var folha := new No(k, v);
        r := Fixup(folha);
        ok := true;
      } else if k < n.chave {
        r, ok := InserirEsquerda(n, k, v);
      } else if k > n.chave {
        r, ok := InserirDireita(n, k, v);
      } else {
        r, ok := n, false;
      }
    }

    /** The `comparacao < 0` branch of `inserir`: insert into the left subtree and relink it. */
    method InserirEsquerda(n: No<V>, k: int, v: V) returns (r: No?<V>, ok: bool)
      requires n.Valid() && PositiveHeights(n.TreeValue()) && k < n.chave
      modifies n.Repr
      ensures NodeValid(r)
      ensures ok == Insert(avl, old(n.TreeValue()), k, v).Ok?
      ensures ok ==> TreeOf(r) == Insert(avl, old(n.TreeValue()), k, v).value && fresh(Footprint(r) - old(n.Repr))
      ensures !ok ==> r == n && unchanged(old(n.Repr))
      decreases n.Repr, 0
    {
      Unfold(n);
      var e;
      e, ok := InserirNo(n.esquerda, k, v);
      if !ok {
        r := n;
        return;
      }
      n.SetEsquerda(e);
      r := Fixup(n);
    }

    /** The `comparacao > 0` branch of `inserir`: the mirror image of InserirEsquerda. */
    method InserirDireita(n: No<V>, k: int, v: V) returns (r: No?<V>, ok: bool)
      requires n.Valid() && PositiveHeights(n.TreeValue()) && k > n.chave
      modifies n.Repr
      ensures NodeValid(r)
      ensures ok == Insert(avl, old(n.TreeValue()), k, v).Ok?
      ensures ok ==> TreeOf(r) == Insert(avl, old(n.TreeValue()), k, v).value && fresh(Footprint(r) - old(n.Repr))
      ensures !ok ==> r == n && unchanged(old(n.Repr))
      decreases n.Repr, 0
    {
      Unfold(n);
      var d;
      d, ok := InserirNo(n.direita, k, v);
      if !ok {
        r := n;
        return;
      }
      n.SetDireita(d);
      r := Fixup(n);
    }

    /**
     * `remover(raizArvore, chaveRemover)`: an absent key fails where the descent reaches an
     * absent child; otherwise the subtrees are relinked on the way back up.
     */
    method RemoverNo(n: No?<V>, k: int) returns (r: No?<V>, ok: bool)
      requires NodeValid(n) && PositiveHeights(TreeOf(n))
      modifies Footprint(n)
      ensures NodeValid(r) && Footprint(r) <= old(Footprint(n))
      ensures ok == Remove(avl, old(TreeOf(n)), k).Ok?
      ensures ok ==> TreeOf(r) == Remove(avl, old(TreeOf(n)), k).value
      ensures !ok ==> r == n && unchanged(old(Footprint(n)))
      decreases Footprint(n), 1
    {
      if n == null {
        r, ok := null, false;
      } else if k == n.chave {
        r := RemoverAqui(n);
        ok := true;
      } else if k < n.chave {
        r, ok := RemoverEsquerda(n, k);
      } else {
        r, ok := RemoverDireita(n, k);
      }
    }

    /**
     * The `comparacao == 0` branch of `remover`: a node without a right child gives way to its
     * left child, one without a left child to its right child, and a node with both takes its
     * in-order predecessor's key and item and keeps its place.
     */
    method RemoverAqui(n: No<V>) returns (r: No?<V>)
      requires n.Valid() && PositiveHeights(n.TreeValue())
      modifies n.Repr
      ensures NodeValid(r) && Footprint(r) <= old(n.Repr)
      ensures Remove(avl, old(n.TreeValue()), old(n.chave)).Ok?
      ensures TreeOf(r) == Remove(avl, old(n.TreeValue()), old(n.chave)).value
    {
      ghost var t := n.TreeValue();
      Unfold(n);
      PositiveChildren(t.left);
      PositiveChildren(t.right);
      if n.direita == null {
        r := Fixup(n.esquerda);
      } else if n.esquerda == null {
        r := Fixup(n.direita);
      } else {
        var e := RemoverNoAntecessor(n, n.esquerda);
        n.SetEsquerda(e);
        r := Fixup(n);
      }
    }

    /** The `comparacao < 0` branch of `remover`: remove from the left subtree and relink it. */
    method RemoverEsquerda(n: No<V>, k: int) returns (r: No?<V>, ok: bool)
      requires n.Valid() && PositiveHeights(n.TreeValue()) && k < n.chave
      modifies n.Repr
      ensures NodeValid(r) && Footprint(r) <= old(n.Repr)
      ensures ok == Remove(avl, old(n.TreeValue()), k).Ok?
      ensures ok ==> TreeOf(r) == Remove(avl, old(n.TreeValue()), k).value
      ensures !ok ==> r == n && unchanged(old(n.Repr))
      decreases n.Repr, 0
    {
      Unfold(n);
      var e;
      e, ok := RemoverNo(n.esquerda, k);
      if !ok {
        r := n;
        return;
      }
      n.SetEsquerda(e);
      r := Fixup(n);
    }

    /** The `comparacao > 0` branch of `remover`: the mirror image of RemoverEsquerda. */
    method RemoverDireita(n: No<V>, k: int) returns (r: No?<V>, ok: bool)
      requires n.Valid() && PositiveHeights(n.TreeValue()) && k > n.chave
      modifies n.Repr
      ensures NodeValid(r) && Footprint(r) <= old(n.Repr)
      ensures ok == Remove(avl, old(n.TreeValue()), k).Ok?
      ensures ok ==> TreeOf(r) == Remove(avl, old(n.TreeValue()), k).value
      ensures !ok ==> r == n && unchanged(old(n.Repr))
      decreases n.Repr, 0
    {
      Unfold(n);
      var d;
      d, ok := RemoverNo(n.direita, k);
      if !ok {
        r := n;
        return;
      }
      n.SetDireita(d);
      r := Fixup(n);
    }

    /**
     * `removerNoAntecessor(itemRetirar, raizArvore)`: walk right to the maximum of the subtree,
     * copy its key and item into `alvo`, and replace it by its left child.
     */
    method RemoverNoAntecessor(alvo: No<V>, n: No<V>) returns (r: No?<V>)
      requires n.Valid() && PositiveHeights(n.TreeValue()) && alvo !in n.Repr
      modifies n.Repr, alvo`chave, alvo`item
      ensures NodeValid(r) && Footprint(r) <= old(n.Repr)
      ensures var s := RemovePredecessor(avl, old(n.TreeValue()));
        TreeOf(r) == s.rest && alvo.chave == s.key && alvo.item == s.item
      decreases n.Repr
    {
      ghost var t := n.TreeValue();
      Unfold(n);
      PositiveChildren(t.left);
      if n.direita != null {
        ghost var s' := RemovePredecessor(avl, t.right);
        var d := RemoverNoAntecessor(alvo, n.direita);
        assert TreeOf(d) == s'.rest && alvo.chave == s'.key && alvo.item == s'.item;
        n.SetDireita(d);
        assert n.TreeValue() == t.(right := s'.rest);
        r := Fixup(n);
      } else {
        alvo.chave := n.chave;
        alvo.item := n.item;
        r := Fixup(n.esquerda);
      }
    }
  }
}
