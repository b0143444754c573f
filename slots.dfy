/**
 * The value-level model of `TabelaHash`'s slot array: a sequence of optional entries, the
 * hash of a key's 32-bit hash code, the linear probe that `inserir` and `pesquisar` both walk,
 * and the invariant that makes the probe find every stored key: keys are pairwise distinct and
 * no empty slot lies between a key's home slot and the slot that holds it.
 */
module HashSlots {
  import opened Outcomes

  /** Java's `int`. */
  newtype int32 = x: int | -0x8000_0000 <= x < 0x8000_0000

  /** A stored pair (`Entrada`). `setValor` is modelled by storing a new pair with the same key. */
  datatype Entrada<K, V> = Entrada(chave: K, valor: V)

  type Slot<K, V> = Option<Entrada<K, V>>

  // ---------------------------------------------------------------------------------------
  // The hash index

  /** Java's `Math.abs` on an `int`: the negation wraps, so the smallest `int` maps to itself. */
  function JavaAbs(x: int32): (a: int32)
    ensures x != -0x8000_0000 ==> a as int == if x < 0 then -(x as int) else x as int
    ensures x == -0x8000_0000 ==> a == x
  {
    if x >= 0 then x else if x == -0x8000_0000 then x else -x
  }

  /** Java's `%` on `int`: the remainder truncates toward zero and takes the dividend's sign. */
  function JavaRem(a: int, b: int): (r: int)
    requires b > 0
    ensures a >= 0 ==> 0 <= r < b
    ensures a < 0 ==> -b < r <= 0
  {
    if a >= 0 then a % b else -((-a) % b)
  }

  /** The index `hash` computes as written: `Math.abs(chave.hashCode()) % capacidade`. */
  function JavaHash(code: int32, capacidade: int): (i: int)
    requires capacidade > 0
    ensures code != -0x8000_0000 ==> 0 <= i < capacidade
  {
    JavaRem(JavaAbs(code) as int, capacidade)
  }

  /** The hash code -2^31 with capacity 3 gives the index -2, outside the array. */
  lemma JavaHashLeavesTable()
    ensures JavaHash(-0x8000_0000, 3) == -2
  {
    assert JavaAbs(-0x8000_0000) == -0x8000_0000;
    assert 0x8000_0000 % 3 == 2;
  }

  /**
   * The index `hash` is evidently meant to compute: the absolute value taken without
   * wrap-around, then reduced by the capacity. It is always a slot of the table, and it is
   * the index the Java code computes for every hash code but -2^31.
   */
  function Hash(code: int32, capacidade: int): (i: int)
    requires capacidade > 0
    ensures 0 <= i < capacidade
    ensures code != -0x8000_0000 ==> i == JavaHash(code, capacidade)
  {
    (if code < 0 then -(code as int) else code as int) % capacidade
  }

  // ---------------------------------------------------------------------------------------
  // Probe positions

  /** The slot visited after `j` steps of `(posicao + 1) % capacidade` starting from `h`. */
  function Pos(h: int, j: int, n: int): (p: int)
    requires 0 <= h < n && 0 <= j < n
    ensures 0 <= p < n
  {
    if h + j < n then h + j else h + j - n
  }

  /** How many steps the probe from `h` takes to reach slot `p`. */
  function Dist(h: int, p: int, n: int): (d: int)
    requires 0 <= h < n && 0 <= p < n
    ensures 0 <= d < n && Pos(h, d, n) == p
  {
    if p >= h then p - h else p - h + n
  }

  /** Every position is reached by exactly one step count. */
  lemma DistPos(h: int, j: int, n: int)
    requires 0 <= h < n && 0 <= j < n
    ensures Dist(h, Pos(h, j, n), n) == j
  {
  }

  /** One step of the Java probe: it moves to the next position, or back to the start after `n` steps. */
  lemma Advance(h: int, j: int, n: int)
    requires 0 <= h < n && 0 <= j < n
    ensures (Pos(h, j, n) + 1) % n == if j + 1 < n then Pos(h, j + 1, n) else h
    ensures j + 1 < n ==> Pos(h, j + 1, n) != h
  {
    var x := Pos(h, j, n) + 1;
    if x < n {
      assert x % n == x;
    } else {
      assert x == n;
      assert x % n == 0;
    }
  }

  // ---------------------------------------------------------------------------------------
  // What the slots store

  /** The number of occupied slots. */
  function Count<K, V>(s: seq<Slot<K, V>>): (c: nat)
    ensures c <= |s|
  {
    if s == [] then 0 else Count(s[..|s| - 1]) + (if s[|s| - 1].Some? then 1 else 0)
  }

  /** The key-to-value mapping the slots store. */
  function SlotMap<K, V>(s: seq<Slot<K, V>>): map<K, V>
  {
    if s == [] then map[]
    else
      var m := SlotMap(s[..|s| - 1]);
      match s[|s| - 1]
      case None => m
      case Some(e) => m[e.chave := e.valor]
  }

  /** The occupied slots' entries in increasing slot order (what `percorrer` lists). */
  function Occupied<K, V>(s: seq<Slot<K, V>>): (es: seq<Entrada<K, V>>)
    ensures |es| <= |s|
  {
    if s == [] then []
    else Occupied(s[..|s| - 1]) + (if s[|s| - 1].Some? then [s[|s| - 1].value] else [])
  }

  /** No key is stored in two slots. */
  ghost predicate DistinctKeys<K, V>(s: seq<Slot<K, V>>)
  {
    forall i, j :: 0 <= i < j < |s| && s[i].Some? && s[j].Some? ==> s[i].value.chave != s[j].value.chave
  }

  /** The home slot of a key in a table of `|s|` slots. */
  function Home<K>(code: K -> int32, k: K, n: int): (h: int)
    requires n > 0
    ensures 0 <= h < n
  {
    Hash(code(k), n)
  }

  /** Every slot from a stored key's home slot up to (not including) its own slot is occupied. */
  ghost predicate NoGap<K, V>(s: seq<Slot<K, V>>, code: K -> int32)
    requires |s| > 0
  {
    forall i, j :: 0 <= i < |s| && s[i].Some? && 0 <= j < Dist(Home(code, s[i].value.chave, |s|), i, |s|) ==>
      s[Pos(Home(code, s[i].value.chave, |s|), j, |s|)].Some?
  }

  /** The probe invariant of the table. */
  ghost predicate ProbeInv<K, V>(s: seq<Slot<K, V>>, code: K -> int32)
  {
    |s| > 0 && DistinctKeys(s) && NoGap(s, code)
  }

  // ---------------------------------------------------------------------------------------
  // The probe

  /** Where a probe ends: at the slot holding the key, at the first empty slot, or after a full wrap. */
  datatype Probed = Hit(pos: int) | Free(pos: int) | Full

  /**
   * The loop shared by `inserir` and `pesquisar`, from its `j`-th step on: stop at an empty
   * slot or at the key, advance otherwise, and give up when the position returns to the start.
   */
  function Probe<K(==), V>(s: seq<Slot<K, V>>, h: int, k: K, j: int): (r: Probed)
    requires 0 <= h < |s| && 0 <= j <= |s|
    ensures r.Hit? ==> 0 <= r.pos < |s| && s[r.pos].Some? && s[r.pos].value.chave == k
    ensures r.Free? ==> 0 <= r.pos < |s| && s[r.pos].None?
    decreases |s| - j
  {
    if j == |s| then Full
    else
      var p := Pos(h, j, |s|);
      if s[p].None? then Free(p)
      else if s[p].value.chave == k then Hit(p)
      else Probe(s, h, k, j + 1)
  }

  /** The probe from `h` passes steps [a, b) over occupied slots whose keys differ from `k`. */
  ghost predicate Passes<K, V>(s: seq<Slot<K, V>>, h: int, k: K, a: int, b: int)
    requires 0 <= h < |s|
  {
    forall j :: a <= j < b && 0 <= j < |s| ==> s[Pos(h, j, |s|)].Some? && s[Pos(h, j, |s|)].value.chave != k
  }

  /** Every slot the probe stepped over before it stopped was occupied by another key. */
  lemma {:induction false} ProbeShape<K, V>(s: seq<Slot<K, V>>, h: int, k: K, j: int)
    requires 0 <= h < |s| && 0 <= j <= |s|
    ensures match Probe(s, h, k, j)
      case Hit(p) => j <= Dist(h, p, |s|) && Passes(s, h, k, j, Dist(h, p, |s|))
      case Free(p) => j <= Dist(h, p, |s|) && Passes(s, h, k, j, Dist(h, p, |s|))
      case Full => Passes(s, h, k, j, |s|)
    decreases |s| - j
  {
    if j < |s| {
      var p := Pos(h, j, |s|);
      DistPos(h, j, |s|);
      if s[p].Some? && s[p].value.chave != k {
        ProbeShape(s, h, k, j + 1);
      }
    }
  }

  // ---------------------------------------------------------------------------------------
  // Properties of the stored mapping

  /** The mapping's keys are exactly the stored keys. */
  lemma {:induction false} SlotMapKeys<K, V>(s: seq<Slot<K, V>>, k: K)
    ensures k in SlotMap(s) <==> exists i :: 0 <= i < |s| && s[i].Some? && s[i].value.chave == k
    decreases |s|
  {
    if s != [] {
      var pre := s[..|s| - 1];
      SlotMapKeys(pre, k);
      if k in SlotMap(s) && !(s[|s| - 1].Some? && s[|s| - 1].value.chave == k) {
        var i :| 0 <= i < |pre| && pre[i].Some? && pre[i].value.chave == k;
        assert s[i] == pre[i];
      }
      if exists i :: 0 <= i < |s| && s[i].Some? && s[i].value.chave == k {
        var i :| 0 <= i < |s| && s[i].Some? && s[i].value.chave == k;
        if i < |pre| {
          assert pre[i] == s[i];
        }
      }
    }
  }

  /** With distinct keys, each stored key maps to the value of its own slot. */
  lemma {:induction false} SlotMapValue<K, V>(s: seq<Slot<K, V>>, i: int)
    requires DistinctKeys(s) && 0 <= i < |s| && s[i].Some?
    ensures s[i].value.chave in SlotMap(s) && SlotMap(s)[s[i].value.chave] == s[i].value.valor
    decreases |s|
  {
    var pre := s[..|s| - 1];
    assert DistinctKeys(pre) by {
      forall a, b | 0 <= a < b < |pre| && pre[a].Some? && pre[b].Some?
        ensures pre[a].value.chave != pre[b].value.chave
      {
        assert pre[a] == s[a] && pre[b] == s[b];
      }
    }
    if i < |pre| {
      assert pre[i] == s[i];
      SlotMapValue(pre, i);
    }
  }

  /** With distinct keys, the mapping has one key per occupied slot. */
  lemma {:induction false} SlotMapSize<K, V>(s: seq<Slot<K, V>>)
    requires DistinctKeys(s)
    ensures |SlotMap(s)| == Count(s)
    decreases |s|
  {
    if s != [] {
      var pre := s[..|s| - 1];
      assert DistinctKeys(pre) by {
        forall a, b | 0 <= a < b < |pre| && pre[a].Some? && pre[b].Some?
          ensures pre[a].value.chave != pre[b].value.chave
        {
          assert pre[a] == s[a] && pre[b] == s[b];
        }
      }
      SlotMapSize(pre);
      if s[|s| - 1].Some? {
        SlotMapKeys(pre, s[|s| - 1].value.chave);
      }
    }
  }

  /** A table whose every slot is occupied counts all of them, and only such a table does. */
  lemma {:induction false} CountFull<K, V>(s: seq<Slot<K, V>>)
    ensures Count(s) == |s| <==> forall i :: 0 <= i < |s| ==> s[i].Some?
    decreases |s|
  {
    if s != [] {
      var pre := s[..|s| - 1];
      CountFull(pre);
      if forall i :: 0 <= i < |s| ==> s[i].Some? {
        forall i | 0 <= i < |pre|
          ensures pre[i].Some?
        {
          assert pre[i] == s[i];
        }
      }
      if Count(s) == |s| {
        forall i | 0 <= i < |s|
          ensures s[i].Some?
        {
          if i < |pre| {
            assert s[i] == pre[i];
          }
        }
      }
    }
  }

  /** Filling an empty slot adds one to the count; overwriting an occupied one does not change it. */
  lemma {:induction false} CountUpdate<K, V>(s: seq<Slot<K, V>>, p: int, e: Entrada<K, V>)
    requires 0 <= p < |s|
    ensures Count(s[p := Some(e)]) == Count(s) + (if s[p].None? then 1 else 0)
    decreases |s|
  {
    var s' := s[p := Some(e)];
    var pre, pre' := s[..|s| - 1], s'[..|s'| - 1];
    if p == |s| - 1 {
      assert pre' == pre;
    } else {
      assert pre' == pre[p := Some(e)];
      CountUpdate(pre, p, e);
    }
  }

  /** An empty table of any positive size satisfies the probe invariant and stores nothing. */
  lemma {:induction false} EmptyTable<K, V>(s: seq<Slot<K, V>>, code: K -> int32)
    requires |s| > 0 && forall i :: 0 <= i < |s| ==> s[i].None?
    ensures ProbeInv(s, code) && Count(s) == 0 && SlotMap(s) == map[] && Occupied(s) == []
    decreases |s|
  {
    if |s| > 1 {
      var pre := s[..|s| - 1];
      EmptyTable(pre, code);
    }
  }

  /** `percorrer` lists one entry per occupied slot. */
  lemma {:induction false} OccupiedCount<K, V>(s: seq<Slot<K, V>>)
    ensures |Occupied(s)| == Count(s)
    decreases |s|
  {
    if s != [] {
      OccupiedCount(s[..|s| - 1]);
    }
  }

  /** `percorrer` lists exactly the entries of the occupied slots. */
  lemma {:induction false} OccupiedEntries<K, V>(s: seq<Slot<K, V>>, e: Entrada<K, V>)
    ensures e in Occupied(s) <==> Some(e) in s
    decreases |s|
  {
    if s != [] {
      var pre := s[..|s| - 1];
      OccupiedEntries(pre, e);
      assert s == pre + [s[|s| - 1]];
    }
  }

  // ---------------------------------------------------------------------------------------
  // The probe against the invariant

  /**
   * Under the probe invariant, the probe from a key's home slot hits exactly when the key is
   * stored, and then at the slot giving its value; it runs off the full wrap exactly when the
   * key is absent and every slot is occupied.
   */
  lemma ProbeFinds<K, V>(s: seq<Slot<K, V>>, code: K -> int32, k: K)
    requires ProbeInv(s, code)
    ensures var r := Probe(s, Home(code, k, |s|), k, 0);
      (r.Hit? <==> k in SlotMap(s)) &&
      (r.Hit? ==> SlotMap(s)[k] == s[r.pos].value.valor) &&
      (r.Full? <==> k !in SlotMap(s) && Count(s) == |s|)
  {
    var n, h := |s|, Home(code, k, |s|);
    var r := Probe(s, h, k, 0);
    SlotMapKeys(s, k);
    CountFull(s);
    if k in SlotMap(s) {
      var i :| 0 <= i < n && s[i].Some? && s[i].value.chave == k;
      ProbeReachesKey(s, code, i);
      SlotMapValue(s, i);
    }
    if r.Full? {
      ProbeShape(s, h, k, 0);
      forall i | 0 <= i < n
        ensures s[i].Some?
      {
        assert s[Pos(h, Dist(h, i, n), n)].Some?;
      }
    }
  }

  /** Under the probe invariant, the probe for a stored key ends at the slot holding it. */
  lemma ProbeReachesKey<K, V>(s: seq<Slot<K, V>>, code: K -> int32, i: int)
    requires ProbeInv(s, code) && 0 <= i < |s| && s[i].Some?
    ensures var k := s[i].value.chave; Probe(s, Home(code, k, |s|), k, 0) == Hit(i)
  {
    var n, k := |s|, s[i].value.chave;
    var h := Home(code, k, n);
    var d := Dist(h, i, n);
    ProbeShape(s, h, k, 0);
  }

  /** Where a pair may be stored without duplicating its key: its key's own slot, or an empty slot when the key is absent. */
  ghost predicate Storable<K, V>(s: seq<Slot<K, V>>, p: int, e: Entrada<K, V>)
  {
    0 <= p < |s| &&
    ((s[p].Some? && s[p].value.chave == e.chave) || (s[p].None? && e.chave !in SlotMap(s)))
  }

  /** Storing a pair where it may be stored keeps the keys distinct. */
  lemma StoreDistinct<K, V>(s: seq<Slot<K, V>>, p: int, e: Entrada<K, V>)
    requires DistinctKeys(s) && Storable(s, p, e)
    ensures DistinctKeys(s[p := Some(e)])
  {
    var s' := s[p := Some(e)];
    forall a, b | 0 <= a < b < |s| && s'[a].Some? && s'[b].Some?
      ensures s'[a].value.chave != s'[b].value.chave
    {
      if a == p || b == p {
        var o := if a == p then b else a;
        SlotMapKeys(s, e.chave);
        assert s'[o] == s[o];
      }
    }
  }

  /** Storing a pair at the end of an occupied path from its home slot keeps every probe path gap-free. */
  lemma StoreNoGap<K, V>(s: seq<Slot<K, V>>, code: K -> int32, p: int, e: Entrada<K, V>)
    requires |s| > 0 && NoGap(s, code) && 0 <= p < |s|
    requires var h := Home(code, e.chave, |s|);
      forall j :: 0 <= j < Dist(h, p, |s|) ==> s[Pos(h, j, |s|)].Some?
    ensures NoGap(s[p := Some(e)], code)
  {
    var n, s' := |s|, s[p := Some(e)];
    forall i, j | 0 <= i < n && s'[i].Some? && 0 <= j < Dist(Home(code, s'[i].value.chave, n), i, n)
      ensures s'[Pos(Home(code, s'[i].value.chave, n), j, n)].Some?
    {
      if i != p {
        assert s'[i] == s[i];
      }
    }
  }

  /** Storing a pair where it may be stored maps its key to its value and leaves every other key alone. */
  lemma StoreMap<K, V>(s: seq<Slot<K, V>>, p: int, e: Entrada<K, V>)
    requires DistinctKeys(s) && Storable(s, p, e)
    ensures SlotMap(s[p := Some(e)]) == SlotMap(s)[e.chave := e.valor]
  {
    var s' := s[p := Some(e)];
    var m, m' := SlotMap(s), SlotMap(s');
    StoreDistinct(s, p, e);
    forall x
      ensures x in m' <==> x in m[e.chave := e.valor]
    {
      SlotMapKeys(s, x);
      SlotMapKeys(s', x);
      if x == e.chave {
        assert s'[p].Some? && s'[p].value.chave == x;
      } else if x in m {
        var i :| 0 <= i < |s| && s[i].Some? && s[i].value.chave == x;
        assert s'[i] == s[i];
      }
    }
    forall x | x in m'
      ensures x in m[e.chave := e.valor] && m'[x] == m[e.chave := e.valor][x]
    {
      SlotMapKeys(s', x);
      var i :| 0 <= i < |s| && s'[i].Some? && s'[i].value.chave == x;
      SlotMapValue(s', i);
      if i != p {
        assert s'[i] == s[i];
        SlotMapValue(s, i);
      }
    }
    SameMaps(m', m[e.chave := e.valor]);
  }

  /** Two maps with the same keys and the same value at each key are equal. */
  lemma SameMaps<K, V>(a: map<K, V>, b: map<K, V>)
    requires forall x :: x in a <==> x in b
    requires forall x :: x in a ==> a[x] == b[x]
    ensures a == b
  {
  }

  /**
   * Storing `(k, v)` where the probe for `k` stopped (the key's own slot, or the first empty
   * one) keeps the probe invariant and maps `k` to `v` with every other key untouched.
   */
  lemma StoreKeeps<K, V>(s: seq<Slot<K, V>>, code: K -> int32, k: K, v: V)
    requires ProbeInv(s, code)
    requires !Probe(s, Home(code, k, |s|), k, 0).Full?
    ensures var p := Probe(s, Home(code, k, |s|), k, 0).pos;
      var s' := s[p := Some(Entrada(k, v))];
      ProbeInv(s', code) && SlotMap(s') == SlotMap(s)[k := v] &&
      Count(s') == Count(s) + (if s[p].None? then 1 else 0)
  {
    var h := Home(code, k, |s|);
    var p := Probe(s, h, k, 0).pos;
    ProbeShape(s, h, k, 0);
    ProbeFinds(s, code, k);
    assert Storable(s, p, Entrada(k, v));
    CountUpdate(s, p, Entrada(k, v));
    StoreDistinct(s, p, Entrada(k, v));
    StoreNoGap(s, code, p, Entrada(k, v));
    StoreMap(s, p, Entrada(k, v));
  }
}
