/**
 * `TabelaHash`: a map from keys to items in a fixed array of slots with linear probing.
 * `inserir` overwrites the value of a key already stored, or stores a new key in the first
 * empty slot probing from its home slot, and fails when the probe wraps around a full table;
 * `pesquisar` walks the same probe; removal is not supported. Keys are compared with their
 * equality and placed by a 32-bit hash code, both given to the constructor.
 */
module HashTables {
  import opened Outcomes
  import opened HashSlots

  class TabelaHash<K(==), V> {
    const capacidade: int
    const tabela: array<Slot<K, V>>
    var tamanho: int
    /** `chave.hashCode()`. */
    const hashCode: K -> int32

    /**
     * The object invariant: the array has `capacidade` slots, the probe invariant holds, and
     * `tamanho` counts the occupied slots.
     */
    ghost predicate Valid()
      reads this, tabela
    {
      tabela.Length == capacidade > 0 && ProbeInv(tabela[..], hashCode) && tamanho == Count(tabela[..])
    }

    /** The key-to-item mapping the table stores. */
    ghost function Contents(): map<K, V>
      reads this, tabela
    {
      SlotMap(tabela[..])
    }

    /** `new TabelaHash<>(capacidade)`: every slot empty. */
    constructor (capacidade: int, hashCode: K -> int32)
      requires capacidade > 0
      ensures Valid() && fresh(tabela) && this.capacidade == capacidade && this.hashCode == hashCode
      ensures forall i :: 0 <= i < tabela.Length ==> tabela[i].None?
      ensures Contents() == map[] && tamanho == 0
    {
      this.capacidade := capacidade;
      this.hashCode := hashCode;
      tabela := new Slot<K, V>[capacidade](_ => None);
      tamanho := 0;
      new;
      EmptyTable(tabela[..], hashCode);
    }

    /** `hash(chave)`, with the absolute value taken without wrap-around. */
    function IndiceHash(k: K): (i: int)
      reads this
      requires capacidade > 0
      ensures 0 <= i < capacidade
      ensures hashCode(k) != -0x8000_0000 ==> i == JavaHash(hashCode(k), capacidade)
    {
      Hash(hashCode(k), capacidade)
    }

    /**
     * `inserir(chave, item)`: a stored key gets the new item in its own slot, a new key goes
     * to the first empty slot on its probe path and the size grows by one; either way the
     * slot index is returned and no other slot changes. A new key with every slot occupied
     * fails with TableFull and changes nothing.
     */
    method Inserir(k: K, v: V) returns (r: Result<int>)
      requires Valid()
      modifies this, tabela
      ensures Valid()
      ensures r.Err? <==> k !in old(Contents()) && old(tamanho) == capacidade
      ensures r.Ok? ==>
        0 <= r.value < capacidade && !Probe(old(tabela[..]), IndiceHash(k), k, 0).Full? &&
        r.value == Probe(old(tabela[..]), IndiceHash(k), k, 0).pos &&
        tabela[..] == old(tabela[..])[r.value := Some(Entrada(k, v))] &&
        Contents() == old(Contents())[k := v] &&
        tamanho == old(tamanho) + (if k in old(Contents()) then 0 else 1)
      ensures r.Err? ==> r.error == TableFull && tabela[..] == old(tabela[..]) && tamanho == old(tamanho)
    {
      ghost var s := tabela[..];
      ghost var h := IndiceHash(k);
      ProbeFinds(s, hashCode, k);
      var posicao := IndiceHash(k);
      var posInicial := posicao;
      ghost var j := 0;
      while tabela[posicao].Some?
        invariant 0 <= j < capacidade && posicao == Pos(h, j, capacidade) && posInicial == h
        invariant tabela[..] == s && tamanho == old(tamanho)
        invariant Probe(s, h, k, j) == Probe(s, h, k, 0)
        decreases capacidade - j
      {
        if tabela[posicao].value.chave == k {
          assert Probe(s, h, k, j) == Hit(posicao);
          StoreKeeps(s, hashCode, k, v);
          tabela[posicao] := Some(Entrada(k, v));
          return Ok(posicao);
        }
        Advance(h, j, capacidade);
        posicao := (posicao + 1) % capacidade;
        j := j + 1;
        if posicao == posInicial {
          return Err(TableFull);
        }
      }
      assert Probe(s, h, k, j) == Free(posicao);
      StoreKeeps(s, hashCode, k, v);
      tabela[posicao] := Some(Entrada(k, v));
      tamanho := tamanho + 1;
      return Ok(posicao);
    }

    /**
     * `pesquisar(chave)`: the item stored under the key, or NotFound once the probe reaches an
     * empty slot or wraps around.
     */
    method Pesquisar(k: K) returns (r: Result<V>)
      requires Valid()
      ensures r == if k in Contents() then Ok(Contents()[k]) else Err(NotFound)
    {
      ghost var s := tabela[..];
      ghost var h := IndiceHash(k);
      ProbeFinds(s, hashCode, k);
      var posicao := IndiceHash(k);
      var posInicial := posicao;
      ghost var j := 0;
      while tabela[posicao].Some?
        invariant 0 <= j < capacidade && posicao == Pos(h, j, capacidade) && posInicial == h
        invariant Probe(s, h, k, j) == Probe(s, h, k, 0)
        decreases capacidade - j
      {
        if tabela[posicao].value.chave == k {
          return Ok(tabela[posicao].value.valor);
        }
        Advance(h, j, capacidade);
        posicao := (posicao + 1) % capacidade;
        j := j + 1;
        if posicao == posInicial {
          break;
        }
      }
      return Err(NotFound);
    }

    /** `remover(chave)`: always unsupported; nothing changes. */
    function Remover(k: K): (r: Result<V>)
      ensures r.Err? && r.error == Unsupported
    {
      Err(Unsupported)
    }

    /** `tamanho()`: the number of stored pairs, never more than the capacity. */
    function Tamanho(): (n: int)
      reads this, tabela
      requires Valid()
      ensures n == |Contents()| && 0 <= n <= capacidade
    {
      SlotMapSize(tabela[..]);
      tamanho
    }

    /** `getComparacoes()`: this table does not count comparisons. */
    function GetComparacoes(): (c: int)
      ensures c == 0
    {
      0
    }

    /** `getTempo()`: this table does not time its operations. */
    function GetTempo(): (t: real)
      ensures t == 0.0
    {
      0.0
    }

    /** `percorrer()`: every stored entry, in increasing slot order, skipping empty slots. */
    method Percorrer() returns (entradas: seq<Entrada<K, V>>)
      requires Valid()
      ensures entradas == Occupied(tabela[..])
      ensures |entradas| == tamanho
      ensures forall e :: e in entradas <==> e.chave in Contents() && Contents()[e.chave] == e.valor
    {
      entradas := [];
      for i := 0 to tabela.Length
        invariant entradas == Occupied(tabela[..i])
      {
        assert tabela[..i + 1][..i] == tabela[..i];
        if tabela[i].Some? {
          entradas := entradas + [tabela[i].value];
        }
      }
      assert tabela[..tabela.Length] == tabela[..];
      ListsContents(tabela[..]);
    }
  }

  /** The listing holds one entry per occupied slot and exactly the stored pairs. */
  lemma ListsContents<K, V>(s: seq<Slot<K, V>>)
    requires DistinctKeys(s)
    ensures |Occupied(s)| == Count(s)
    ensures forall e :: e in Occupied(s) <==> e.chave in SlotMap(s) && SlotMap(s)[e.chave] == e.valor
  {
    forall e
      ensures e in Occupied(s) <==> e.chave in SlotMap(s) && SlotMap(s)[e.chave] == e.valor
    {
      OccupiedEntries(s, e);
      SlotMapKeys(s, e.chave);
      if Some(e) in s {
        var i :| 0 <= i < |s| && s[i] == Some(e);
        SlotMapValue(s, i);
      }
      if e.chave in SlotMap(s) && SlotMap(s)[e.chave] == e.valor {
        var i :| 0 <= i < |s| && s[i].Some? && s[i].value.chave == e.chave;
        SlotMapValue(s, i);
        assert s[i] == Some(e);
      }
    }
    OccupiedCount(s);
  }
}
