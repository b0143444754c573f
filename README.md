# Search-tree and hash-table maps

This project models three key-to-item map implementations and proves properties about them:

- `ABB` is an unbalanced binary search tree. Its parts are:
  - recursive insertion that rejects duplicate keys;
  - search that counts its recursive calls in `comparacoes`;
  - removal that lifts a lone child, or copies the in-order predecessor into a node with two children;
  - a pruned range cut (`recortar`);
  - an in-order dump.
- `AVL` extends `ABB`. It overrides the three protected recursive mutators, so every subtree they return passes through `balancear`. That step performs single or double rotations and then recomputes the cached height.
- `TabelaHash` is a fixed-capacity array of entries with linear probing. An insert of a stored key overwrites its value. An insert into a full table fails. Removal is not supported.

The model has three layers.

- **Tree values.** Module `Trees` defines the value type `Tree<V>` and its views: in-order pairs, key set, key-to-item map, size, cached and computed heights. Module `Balancing` holds the rotations and `balancear`. Module `SearchTrees` holds search, insertion, predecessor splice, removal and the range cut, all as functions. A flag `avl` selects whether the AVL hook runs after each structural step. The lemmas there state each operation's effect on the key-to-item map, on BST order and on the size. Module `AvlTrees` proves that the AVL operations keep the AVL invariant with correct cached heights.
- **The heap tree.** Module `Nodes` has the node class `No`, with its links and cached height, a ghost footprint holding the node and every node below it, and the result list `Lista`. In module `TreeMaps`, class `ABB` holds `raiz`, `tamanho` and `comparacoes`. Its recursive methods relink nodes in place. Each is proved equal to the corresponding tree function: the new subtree equals the function applied to the old subtree value. `const avl`, set by the `AVL()` constructor, plays the part of virtual dispatch to the subclass's overrides.
- **The hash table.** Module `HashSlots` models the slot array as a sequence of optional entries: the probe walk as a function, the probe invariant (distinct keys, no empty slot on any key's probe path) and the key-to-item view. Module `HashTables` holds class `TabelaHash` over an `array`. Its methods `Inserir` and `Pesquisar` keep the source's `while` loops, with their `posInicial` wrap test.

Tree keys are `int`, ordered as integers; they stand in for the comparator. Hash-table keys are any type with equality. Their `hashCode` is a function into 32-bit integers, passed to the constructor. Thrown exceptions become `Err` results: `DuplicateKey`, `NotFound`, `TableFull` and `Unsupported`.

## Model

| member | source | states |
|---|---|---|
| Balancing.RotateRight | src/AVL.java:51-65 | A right rotation returns the former left child as the new root and keeps the in-order (key, item) sequence. |
| Balancing.RotateLeft | src/AVL.java:67-81 | A left rotation returns the former right child as the new root and keeps the in-order (key, item) sequence. |
| Balancing.RotateRightHeights | src/AVL.java:58-62 | Recomputing the lowered node before the new root leaves both moved nodes with correct cached heights. |
| Balancing.RotateLeftHeights | src/AVL.java:74-78 | The mirror case of RotateRightHeights. |
| Balancing.Balance | src/AVL.java:28-49 | `balancear` keeps the in-order pairs, turns an absent subtree into an absent subtree, and leaves every cached height positive. |
| Balancing.BalanceDereferencesSafe | src/AVL.java:35-44 | A factor of +2 implies a left child, and with a child factor of -1 it also implies that child's right child. The mirror holds for -2. So every dereference in `balancear` is safe. |
| Balancing.BalanceKeepsAvl | src/AVL.java:45-46 | On an AVL node, `balancear` changes nothing beyond recomputing the root's height. |
| Balancing.BalanceLeftSingle | src/AVL.java:35-39 | At factor +2 with a left child whose factor is not -1, a single right rotation yields an AVL tree whose height is the left height or one more. |
| Balancing.BalanceLeftDouble | src/AVL.java:35-39 | At factor +2 with a left child whose factor is -1, the left rotation of the child and then the right rotation of the root yield an AVL tree of the left child's height. |
| Balancing.BalanceRightSingle | src/AVL.java:40-44 | The mirror case of BalanceLeftSingle, at factor -2. |
| Balancing.BalanceRightDouble | src/AVL.java:40-44 | The mirror case of BalanceLeftDouble, at factor -2. |
| Balancing.BalanceRestoresAvl | src/AVL.java:28-49 | Two AVL children and a root factor in [-2, 2] give an AVL result. Its height is within one of the taller child's height plus one, and exactly that when no rotation was needed. |
| Trees.BstIffAscending | src/ABB.java:117-126 | A tree is ordered exactly when its in-order keys ascend strictly. |
| Trees.ElementsArePairs | src/ABB.java:117-126 | The key-to-item view is the mapping denoted by the in-order pairs. |
| Trees.SizeIsKeyCount | src/ABB.java:209-212 | In an ordered tree the node count equals the number of distinct keys. |
| Trees.HeightIsDepth | src/AVL.java:45-46 | Correct cached heights equal the computed depth of every subtree. |
| Trees.SamePairs | src/AVL.java:51-81 | Trees with the same in-order pairs agree on keys, size, in-order items, key-to-item view and ordering. |
| Trees.WithHeight | src/AVL.java:45-46 | `setAltura` keeps the node's key, item and children, and stores a height above both children's heights. HeightIsDepth and RotateRightHeights build on it. |
| Trees.Factor | src/AVL.java:33-36 | The balance factor is positive only when a left child exists, and negative only when a right child exists, provided the heights are positive. |
| SearchTrees.Search | src/ABB.java:59-73 | A search makes between 1 and depth+1 recursive calls, and at most depth calls when it finds the key. |
| SearchTrees.SearchFinds | src/ABB.java:59-73 | In an ordered tree a search finds exactly the item stored under the key, and nothing when the key is absent. |
| SearchTrees.Fix | src/AVL.java:14-26 | The hook each override applies to the returned subtree keeps the in-order pairs and positive heights, and keeps an absent subtree absent. FixKeepsContents derives the map-level facts. |
| SearchTrees.Insert | src/ABB.java:82-98 | A successful insertion yields a non-empty tree with positive heights. InsertSpec proves its effect on the map, order and size; InsertKeepsAvl proves its effect on balance. |
| SearchTrees.RemovePredecessor | src/ABB.java:160-169 | The splice leaves a tree with positive heights. RemovePredecessorSpec and RemovePredecessorTakesMaximum prove that it takes out exactly the maximum. |
| SearchTrees.Remove | src/ABB.java:136-158 | A successful removal leaves a tree with positive heights. RemoveSpec proves its effect on the map, order and size; RemoveKeepsAvl proves its effect on balance. |
| SearchTrees.Cut | src/ABB.java:185-207 | The cut lists at most one item per node. CutSelects proves that it lists exactly the items in [lo, hi], in key order. |
| SearchTrees.FixKeepsContents | src/AVL.java:14-26 | The AVL hook keeps keys, size, in-order items, the key-to-item view and ordering. |
| SearchTrees.InsertSpec | src/ABB.java:82-98 | Insertion succeeds exactly when the key is absent, and fails otherwise with DuplicateKey. On success the tree is still ordered, the map gains exactly (key, item), the key set gains the key and the size grows by one. |
| SearchTrees.RemovePredecessorSpec | src/ABB.java:160-169 | The predecessor splice returns the subtree's in-order pairs minus the last one, which is the pair it hands back. |
| SearchTrees.RemovePredecessorTakesMaximum | src/ABB.java:160-169 | The spliced key is the subtree's maximum. The rest is ordered and holds every other key with its item, with one node fewer. |
| SearchTrees.RemoveSpec | src/ABB.java:136-158 | Removal succeeds exactly when the key is present, failing otherwise with NotFound. On success the tree is still ordered, the map loses exactly that key, the key set loses it and the size shrinks by one. |
| SearchTrees.RemoveHere | src/ABB.java:144-151 | Removing the root key of a subtree meets RemoveSpec across the lone-child cases and the two-child case. |
| SearchTrees.RemoveTwoChildren | src/ABB.java:149-151 | Copying the predecessor into a node with two children removes exactly the node's own key. |
| SearchTrees.InsertThenRemove | src/ABB.java:82-158 | After a key absent from the tree is inserted, a search finds its item, and removing it again gives back the original map and size. |
| SearchTrees.CutSelects | src/ABB.java:185-207 | The pruned range cut lists the items of exactly the pairs whose key lies in [lo, hi], in ascending key order. |
| AvlTrees.Rejoin | src/AVL.java:14-26 | Relinking two AVL children whose heights differ by at most two and rebalancing gives an AVL tree. Its height lies between the taller child's height and one more. |
| AvlTrees.InsertKeepsAvl | src/AVL.java:14-16 | An AVL insertion keeps the AVL invariant with correct heights and grows the height by at most one. |
| AvlTrees.RemovePredecessorKeepsAvl | src/AVL.java:19-21 | The AVL predecessor splice keeps the AVL invariant and lowers the height by at most one. |
| AvlTrees.RemoveKeepsAvl | src/AVL.java:24-26 | An AVL removal keeps the AVL invariant with correct heights and lowers the height by at most one. |
| Nodes.No.constructor | src/ABB.java:85-86 | A new node is a leaf of height 1 with the given key and item. |
| Nodes.No.FatorBalanceamento | src/AVL.java:33 | The heap node's balance factor is the value-level Factor of the subtree rooted there, so with positive heights a positive factor means a real left child and a negative one a real right child. |
| Nodes.No.SetEsquerda | src/ABB.java:91 | Relinking the left child leaves the node's own fields and its right child unchanged. |
| Nodes.No.SetDireita | src/ABB.java:93 | Relinking the right child leaves the node's own fields and its left child unchanged. |
| Nodes.No.SetAltura | src/AVL.java:46 | The cached height becomes one more than the larger child height; nothing else changes. |
| Nodes.Lista.constructor | src/ABB.java:177 | A new result list is empty. |
| Nodes.Lista.Inserir | src/ABB.java:198 | The item is appended at the end. |
| TreeMaps.InsertKeepsInv | src/ABB.java:75-98 | Insertion keeps order, positive heights, the AVL invariant when the tree is an AVL, and `tamanho` equal to the size. It succeeds exactly on an absent key. |
| TreeMaps.RemoveKeepsInv | src/ABB.java:128-169 | Removal keeps the same invariant with `tamanho` one lower. It succeeds exactly on a present key. |
| TreeMaps.ABB.constructor | src/ABB.java:14-23 | A new `ABB` is empty, with size 0 and no AVL balancing. |
| TreeMaps.ABB.AVL | src/AVL.java:5-7 | A new `AVL` is empty, with size 0 and balancing on. |
| TreeMaps.ABB.Vazia | src/ABB.java:46-48 | True exactly when the map is empty, which is exactly when `tamanho` is 0. |
| TreeMaps.ABB.Pesquisar | src/ABB.java:50-57 | Returns the stored item, or NotFound. `comparacoes` is reset and set to the number of recursive calls; the tree is unchanged. |
| TreeMaps.ABB.PesquisarNo | src/ABB.java:59-73 | The recursive search over the heap nodes finds what the tree search finds and adds its call count to `comparacoes`. |
| TreeMaps.ABB.Inserir | src/ABB.java:75-80 | A new key adds exactly (key, item), raises `tamanho` by one and returns the new size. A present key fails with DuplicateKey, with the tree and `tamanho` unchanged. |
| TreeMaps.ABB.InserirNo | src/ABB.java:82-98 | The recursive insertion over heap nodes produces the tree insertion's result, AVL hook included. On failure no node changes. |
| TreeMaps.ABB.InserirEsquerda | src/ABB.java:90-91 | The left-descent branch of InserirNo has the same contract. |
| TreeMaps.ABB.InserirDireita | src/ABB.java:92-93 | The right-descent branch of InserirNo has the same contract. |
| TreeMaps.ABB.CaminhamentoEmOrdem | src/ABB.java:105-115 | The empty-tree message is returned exactly when the map is empty; otherwise the in-order items, whose keys ascend strictly. |
| TreeMaps.ABB.CaminhamentoNo | src/ABB.java:117-126 | The recursive dump lists the subtree's items in order. |
| TreeMaps.ABB.Remover | src/ABB.java:128-134 | A present key returns its item, removes exactly that key and lowers `tamanho` by one. An absent key fails with NotFound and changes nothing. Either way `comparacoes` counts the preliminary search. |
| TreeMaps.ABB.RemoverNo | src/ABB.java:136-158 | The recursive removal over heap nodes produces the tree removal's result, AVL hook included. On failure no node changes. |
| TreeMaps.ABB.RemoverAqui | src/ABB.java:144-151 | Removing the node that holds the key gives the tree removal's result. |
| TreeMaps.ABB.RemoverEsquerda | src/ABB.java:152-153 | The left-descent branch of RemoverNo has the same contract. |
| TreeMaps.ABB.RemoverDireita | src/ABB.java:154-155 | The right-descent branch of RemoverNo has the same contract. |
| TreeMaps.ABB.RemoverNoAntecessor | src/ABB.java:160-169 | The target node receives the subtree maximum's key and item, and the subtree becomes the splice result. |
| TreeMaps.ABB.Recortar | src/ABB.java:176-180 | The returned list holds exactly the items whose keys lie in [lo, hi], in ascending key order. |
| TreeMaps.ABB.RecortarNo | src/ABB.java:185-207 | The recursive cut appends the pruned range cut of the subtree to the list. |
| TreeMaps.ABB.Tamanho | src/ABB.java:209-212 | `tamanho` is the number of stored keys. |
| TreeMaps.ABB.GetComparacoes | src/ABB.java:214-217 | Returns the comparison counter of the last search. |
| TreeMaps.ABB.RotacionarDireita | src/AVL.java:51-65 | The in-place right rotation leaves the subtree equal to the rotated tree value, rooted at the former left child. |
| TreeMaps.ABB.RotacionarEsquerda | src/AVL.java:67-81 | The in-place left rotation leaves the subtree equal to the rotated tree value, rooted at the former right child. |
| TreeMaps.ABB.Balancear | src/AVL.java:28-49 | The in-place `balancear` leaves the subtree equal to the value-level Balance. |
| TreeMaps.ABB.BalancearEsquerda | src/AVL.java:35-39 | The left-heavy branch satisfies the same contract as Balancear. |
| TreeMaps.ABB.BalancearDireita | src/AVL.java:40-44 | The right-heavy branch satisfies the same contract as Balancear. |
| TreeMaps.ABB.Fixup | src/AVL.java:14-26 | The subclass hook: balance when this is an AVL, leave the subtree alone otherwise. |
| HashSlots.JavaAbs | src/TabelaHash.java:17 | `Math.abs` on 32-bit integers: the absolute value, except that the minimum value maps to itself. |
| HashSlots.JavaRem | src/TabelaHash.java:17 | Java's truncating `%`: the remainder of a non-negative operand is in [0, b), that of a negative operand is in (-b, 0]. |
| HashSlots.JavaHash | src/TabelaHash.java:16-18 | `hash` as written yields an index in [0, capacidade) for every hash code except the 32-bit minimum. |
| HashSlots.JavaHashLeavesTable | src/TabelaHash.java:17 | As written, hash code -2^31 with capacity 3 gives index -2. |
| HashSlots.Hash | src/TabelaHash.java:16-18 | The corrected hash is always in [0, capacidade) and agrees with the source on every other hash code. |
| HashSlots.Advance | src/TabelaHash.java:30-32 | One step `(posicao + 1) % capacidade` of the probe reaches the next probe position, and returns to the home slot only after `capacidade` steps. |
| HashSlots.Probe | src/TabelaHash.java:25-35 | The probe walk stops at a slot holding the key (Hit) or at an empty slot (Free); otherwise it reports Full. |
| HashSlots.ProbeShape | src/TabelaHash.java:25-35 | Every slot the probe passes over is occupied by another key. |
| HashSlots.SlotMapKeys | src/TabelaHash.java:43-59 | A key is in the table's view exactly when some slot holds it. |
| HashSlots.SlotMapValue | src/TabelaHash.java:48-49 | With distinct keys, the view maps each stored key to the value in its slot. |
| HashSlots.SlotMapSize | src/TabelaHash.java:67-69 | With distinct keys, the view has one key per occupied slot. |
| HashSlots.CountFull | src/TabelaHash.java:30-34 | Every slot is occupied exactly when the occupied count equals the capacity. |
| HashSlots.CountUpdate | src/TabelaHash.java:37-38 | Writing an entry into a slot raises the occupied count by one exactly when the slot was empty. |
| HashSlots.Occupied | src/TabelaHash.java:84-88 | The listing is never longer than the table. OccupiedCount, OccupiedEntries and ListsContents prove that it holds exactly the stored pairs, one per occupied slot. |
| HashSlots.EmptyTable | src/TabelaHash.java:10-14 | An all-empty table satisfies the probe invariant, counts 0, and has an empty view and an empty listing. |
| HashSlots.OccupiedCount | src/TabelaHash.java:82-90 | The listing has one entry per occupied slot. |
| HashSlots.OccupiedEntries | src/TabelaHash.java:82-90 | An entry is listed exactly when some slot holds it. |
| HashSlots.ProbeFinds | src/TabelaHash.java:43-59 | Under the probe invariant, the probe from a key's home slot hits exactly when the key is stored, and then at its value's slot. It reports Full exactly when the key is absent and every slot is occupied. |
| HashSlots.ProbeReachesKey | src/TabelaHash.java:47-49 | Under the probe invariant, the probe for a stored key stops at that key's slot. |
| HashSlots.StoreDistinct | src/TabelaHash.java:25-37 | Overwriting the key's own slot, or filling an empty slot with an absent key, keeps keys distinct. |
| HashSlots.StoreNoGap | src/TabelaHash.java:37 | Filling the first empty slot on a key's probe path keeps every probe path free of gaps. |
| HashSlots.StoreMap | src/TabelaHash.java:27-37 | Storing the entry updates the view at exactly that key. |
| HashSlots.StoreKeeps | src/TabelaHash.java:21-40 | Storing at the probe's stop keeps the probe invariant, sets the key to the value in the view, and raises the count exactly when the slot was empty. |
| HashTables.TabelaHash.constructor | src/TabelaHash.java:10-14 | A new table has the given capacity, every slot empty, an empty map and `tamanho` 0. |
| HashTables.TabelaHash.IndiceHash | src/TabelaHash.java:16-18 | The home slot is in [0, capacidade) and agrees with the source's `hash` except on the 32-bit minimum. |
| HashTables.TabelaHash.Inserir | src/TabelaHash.java:21-40 | Fails with TableFull exactly when the key is new and the table is full, and then nothing changes. Otherwise it writes (key, value) into the probe's stop and no other slot, and returns that index. The view gets the key set to the value, `tamanho` grows exactly when the key was new, and the probe invariant is kept. |
| HashTables.TabelaHash.Pesquisar | src/TabelaHash.java:42-59 | Returns the value stored under the key, or NotFound. |
| HashTables.TabelaHash.Remover | src/TabelaHash.java:61-64 | Always fails with Unsupported; nothing changes. |
| HashTables.TabelaHash.Tamanho | src/TabelaHash.java:66-69 | `tamanho` is the number of stored keys and never exceeds the capacity. |
| HashTables.TabelaHash.GetComparacoes | src/TabelaHash.java:71-74 | Always 0. |
| HashTables.TabelaHash.GetTempo | src/TabelaHash.java:76-79 | Always 0. |
| HashTables.TabelaHash.Percorrer | src/TabelaHash.java:81-90 | The listing holds the occupied slots' entries in increasing slot order, `tamanho` of them, and exactly the stored (key, value) pairs. |
| HashTables.ListsContents | src/TabelaHash.java:82-90 | With distinct keys, the listing has one entry per occupied slot and holds exactly the pairs of the view. |

## Left out

- `App.java` is not part of this model. It is the console driver, with its file I/O, random order generation and timing reports.
- `ABB.getTempo` and the `System.nanoTime` readings in `ABB.pesquisar` (src/ABB.java:53-55, 219-222) are left out: they depend on the clock and on floating point. `TabelaHash.getTempo` reads no clock and is modelled as returning 0.
- The copy constructor `ABB(original, funcaoChave)` and `copiarArvore` are left out. They take a foreign key function, and the constructor copies only `raiz`, leaving this object's `comparador` null and `tamanho` 0.
- The second constructors `ABB(comparador)` and `AVL(comparador)` are not modelled separately: tree keys are `int` with integer order, which stands in for any total order.
- Java `hashCode` and `equals` are abstracted: the hash code is a function given to the constructor, and key equality is the key type's equality.
- `toString` and the text built by `caminhamentoEmOrdem` and `percorrer` are modelled as the sequence of items or entries they print, not as strings.
- `No`, `Lista`, `Entrada` and `IMapeamento` are modelled by minimal stand-ins, not from their source. `Entrada` is an immutable pair, so `setValor` is modelled as writing a new pair with the same key into the slot.
- TreeMaps.ABB.Inserir: the running count `tamanho` is an unbounded integer; its 32-bit overflow is not modelled.
- TreeMaps.ABB.Pesquisar, TreeMaps.ABB.Remover: the `long` counter `comparacoes` is an unbounded integer; its 64-bit overflow is not modelled.
- HashTables.TabelaHash.constructor: requires `capacidade > 0`. With 0 the Java constructor succeeds but every later `hash` divides by zero; a negative capacity throws when the array is allocated.
- HashTables.TabelaHash.IndiceHash: uses the corrected hash (see Findings). On the hash code -2^31 the source computes a negative index, and the array access throws.
- TreeMaps.ABB.RotacionarDireita: the source relinks `u.setDireita(p)` before recomputing `p`'s height. The model recomputes `p` first. Neither step reads what the other writes, so the final state is the same.
- TreeMaps.ABB.RotacionarEsquerda: as RotacionarDireita, in mirror image.
- Concurrency is not modelled: none of the classes is thread-safe.

## Findings

| source | as written | input that shows it | evidently intended | confidence | as-written member | corrected member |
|---|---|---|---|---|---|---|
| src/TabelaHash.java:17 | `Math.abs(chave.hashCode()) % capacidade`; `Math.abs` of the 32-bit minimum is the minimum itself, and Java's `%` keeps the sign | a key whose `hashCode()` is -2147483648, with `capacidade` 3, gives index -2, so `tabela[-2]` throws | a home slot in [0, capacidade) for every key | not executed | HashSlots.JavaHashLeavesTable | HashSlots.Hash |
