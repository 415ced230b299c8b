# Word-completion tries, verified

This project models the core of a Java dictionary application that stores words in tries. It proves properties of that model.

The application has three tries:

- `TrieApp` (word completion). Nodes keep their children in a Robin Hood hash table. Nodes carry an importance counter raised by a file of words. Three collectors offer candidates to a bounded min-heap. The heap answers "the top k words".
- `TrieHashing` (benchmarking). It has the same node layout. It adds printing and a memory estimate.
- `Trie` (a companion). Every node has a fixed array of 26 child slots.

## Modules

- **`RobinHood`** (`robin_hood.dfy`) is the child table: a class over an array of optional slots.
  - Keys are characters, hashed by character code modulo the capacity.
  - Probing is circular and linear, with Robin Hood displacement.
  - Capacity follows the schedule 5, 11, 19, 29. The table grows once 10·size > 9·capacity.
  - This is the corrected table (see Findings). The tries use it through `CapacityAfterInsert` and the key-to-child map that `ChildTable.Search`/`Insert` are proved to implement.
- **`RobinHoodAsWritten`** (`robin_hood_as_written.dfy`) models the insertion and search as the source writes them, as pure functions. It exhibits the input on which the search misses a key.
- **`TriePaths`** (`trie_paths.dfy`) holds the shape shared by both tries:
  - node ids, with children numbered above their parent;
  - walks along a word;
  - the depth-first, preorder, 'a'-to-'z' traversal;
  - the filters that the collectors and printers apply to that traversal;
  - the word lengths an insertion leaves behind;
  - the exact shape an insertion leaves (`Graft`), the fact that its only new edges lie on the inserted path, that every node keeps a single parent, and that the words afterwards are the old ones and the inserted one.
- **`HashTrie`** (`hash_trie.dfy`) is the hashed trie of `TrieApp` and `TrieHashing`:
  - insertion, node search and the importance update;
  - the three collectors and printing;
  - the memory estimate.
- **`Similarity`** (`similarity.dfy`) is the character-distribution test of the approximate collector. It uses exact integer arithmetic.
- **`MinHeaps`** (`min_heap.dfy`) is the bounded min-heap: a class over two parallel arrays.
- **`QueryEngine`** (`query_engine.dfy`) is `findTopKWords`: the three collectors feed the heap.
- **`ArrayTrie`** (`array_trie.dfy`) is the fixed-alphabet `Trie`. Each node has 26 child slots.
- **`Options`** (`options.dfy`) is the option type that stands for Java's `null`.

## Model

| member | source | states |
|---|---|---|
| RobinHood.NextCapacity | TrieApp.java:63-68 | a capacity of the schedule 5, 11, 19, 29 moves to a larger one of the schedule, except 29, which stays |
| RobinHood.CapacityAfterInsert | TrieApp.java:86-87 | the capacity after one insertion stays in the schedule and never shrinks; it changes only when the table is over 90% full |
| RobinHood.CapacityFor | TrieApp.java:59-88 | the capacity of a table that received a given number of keys is on the schedule |
| RobinHood.CapacityForStep | TrieApp.java:84-88 | a fresh table has capacity 5, and one insertion moves a table from the capacity for n keys to the capacity for n + 1, so the capacity depends on the number of keys alone |
| RobinHood.Home | TrieApp.java:55-57 | the home slot of a key is a valid slot of the table |
| RobinHood.ChildTable.constructor | TrieApp.java:48-53 | a new table has capacity 5, no elements, maximum probe length 0 and maps nothing |
| RobinHood.ChildTable.Search | TrieApp.java:119-142 | the search returns the child stored under the key, and null exactly when the key is absent, despite stopping early past the maximum probe length |
| RobinHood.ChildTable.Insert | TrieApp.java:84-116 | inserting a new key (at most 26 keys) maps it to its child, keeps every other key's child, and leaves the capacity the growth rule gives; the table invariant is kept: each element lies within the maximum probe length of its home on a fully occupied path |
| RobinHood.ChildTable.Place | TrieApp.java:90-115 | the probing walk with displacement adds the key and keeps the capacity, the array and the invariant; the maximum probe length never decreases |
| RobinHood.ChildTable.Settle | TrieApp.java:112-115 | the final write into the empty slot the probe reached adds the carried key, restores the table invariant, keeps the array and the capacity, and leaves the maximum probe length no lower than before |
| RobinHood.ChildTable.Rehash | TrieApp.java:59-81 | a rehash moves to the next capacity, allocates a fresh table, and keeps the key-to-child map and the size |
| RobinHood.ChildTable.ReplayAll | TrieApp.java:76-80 | replaying every old slot, in order, into the new table rebuilds exactly the old map and size |
| RobinHood.ChildTable.Replay | TrieApp.java:77-79 | re-inserting old slot i, when it is occupied, extends the rebuilt map and size from the slots before i to the slots up to i |
| RobinHood.ChildTable.Grow | TrieApp.java:62-73 | the next capacity of the schedule, with a fresh empty table of that size, size 0 and no keys |
| RobinHood.FoundWithin | TrieApp.java:133-137 | a present key lies within the maximum probe length of its home, so the early exit of the search is safe |
| RobinHoodAsWritten.Place | TrieApp.java:90-115 | an insertion as written adds one element and never lowers the maximum probe length |
| RobinHoodAsWritten.PlaceStores | TrieApp.java:90-115 | the insertion as written stores the new key with its child: afterwards every (key, child) pair occupies as many slots as before, and the new pair one more |
| RobinHoodAsWritten.WalkKeepsPairs | TrieApp.java:96-109 | the probing walk as written neither loses nor invents a pair: the slots it leaves plus the element it still carries hold the pairs it started from |
| RobinHoodAsWritten.CountUpdate | TrieApp.java:100-104 | overwriting one slot trades the pair it held for the new one and leaves every other pair's count alone |
| RobinHoodAsWritten.Search | TrieApp.java:119-142 | whatever the search as written returns is the child of a slot holding the key |
| RobinHoodAsWritten.SearchMissesPlacedKey | TrieApp.java:96-115 | after inserting w, o, m, r, x into a fresh table of five slots, with no rehash on the way, 'r' sits four steps from home while the maximum probe length is 3, and the search for 'r' returns null |
| TriePaths.WalkExtends | TrieApp.java:294-298 | an insertion that only adds nodes keeps every existing path and its end node |
| TriePaths.DepthFull | TrieApp.java:293-300 | every character of a word already has a node exactly when the walk along it succeeds |
| TriePaths.VisitComplete | TrieHashing.java:151-162 | the traversal visits every reachable node, with its word |
| TriePaths.VisitSound | TrieHashing.java:151-162 | every visited entry is a word whose walk ends at the entry's node |
| TriePaths.VisitOrdered | TrieHashing.java:156-161 | the traversal lists words in strictly increasing order: a prefix before its extensions, siblings from 'a' to 'z' |
| TriePaths.WalkFresh | Trie.java:60-62 | a word whose path was missing ends, once inserted, at a newly created node |
| TriePaths.GraftEdges | TrieApp.java:287-301 | inserting a path below a node keeps the trie well formed and every old edge; every new edge leads to a newly created node and leaves the node that a prefix of the path reaches, under the next character of the path |
| TriePaths.GraftTree | TrieApp.java:293-298 | inserting a path keeps every node with at most one parent |
| TriePaths.TreeLink | TrieApp.java:294-297 | linking one new node under a missing character keeps every node with at most one parent |
| TriePaths.WalkInjective | TrieApp.java:287-301 | when every node has one parent, two words that reach the same node from the root are the same word |
| TriePaths.InsertedWords | TrieApp.java:287-301 | after an insertion of u that leaves a single parent per node, the words of the trie are exactly the old words and u |
| TriePaths.OneWordShape | TrieApp.java:287-301 | inserting "a" into a lone root gives exactly a root with one child under 'a' and nothing else |
| HashTrie.Trie.constructor | TrieApp.java:12-26 | a new trie is a lone root with an empty table of capacity 5, no word and importance 0 |
| HashTrie.Trie.SearchNode | TrieApp.java:493-501 | the node reached by the rest of the word, and null as soon as a character has no child |
| HashTrie.Trie.Child | TrieApp.java:293-298 | an existing child is reused and nothing changes; otherwise one new empty node is appended and linked under the character, and the table's capacity follows the growth rule |
| HashTrie.Trie.InsertFrom | TrieApp.java:287-301 | the children afterwards are exactly the old ones with the missing part of the word's path grafted below the node (`Graft`), so no other edge is added; the end node records the word's length; only the missing nodes are created, with zero importance; every table's capacity is the one the growth schedule gives for its number of children; when the path already existed, the children and capacities are unchanged |
| HashTrie.Trie.Insert | TrieHashing.java:127-145 | the same for the benchmarking trie, from the root: every old edge is kept, every new edge lies on the word's path and leads to a new node, each node keeps a single parent, and the words of the trie become the old ones and the inserted word; a word whose path already exists creates no node and changes no table capacity |
| HashTrie.Trie.UpdateImportance | TrieApp.java:455-463 | each node's importance rises by the number of non-empty words that lead to it, and only when it ends a word |
| HashTrie.HitsOnlyTerminal | TrieApp.java:459-462 | a node that ends no word is never credited |
| HashTrie.HitsRepeated | TrieApp.java:456-463 | k occurrences of a word that ends at a node credit it exactly k times |
| HashTrie.Trie.Admits | TrieApp.java:339-384 | the filter of each collector: prefix and terminal with positive importance; exact length, terminal, positive importance; length difference in [-1, 2], terminal, positive importance and similar characters (its ensures restate `Accepts`; that the collectors keep exactly what this filter accepts is proved by `HashTrie.Collected`) |
| HashTrie.Trie.Collect | TrieApp.java:333-392 | a collector returns exactly the pairs its filter keeps from the depth-first traversal, in traversal order |
| HashTrie.Trie.CollectChildren | TrieApp.java:343-349 | the children's words, from 'a' to 'z', in traversal order |
| HashTrie.Trie.CollectChild | TrieApp.java:345-347 | the words under the child for one character when the table has that child, and none otherwise |
| HashTrie.Collected | TrieApp.java:333-392 | a pair is collected exactly when its word leads to a node that passes the filter, with that node's importance |
| HashTrie.CollectedInOrder | TrieApp.java:343-349 | collected words come in traversal order and no word comes twice |
| TriePaths.SelectMember | TrieApp.java:339-341 | membership in a filtered traversal, in both directions |
| HashTrie.Trie.PrintWords | TrieHashing.java:147-162 | the printed words are exactly the words that end at a node, in traversal order |
| HashTrie.Trie.CalcMemFrom | TrieHashing.java:194-210 | the estimate of a subtree is the sum over its nodes of 4 + 12·capacity + 12 |
| HashTrie.Trie.CalcMem | TrieHashing.java:190-192 | the estimate of the trie is the sum over all reachable nodes |
| HashTrie.MemBounds | TrieHashing.java:212-224 | each node accounts for between 76 and 364 bytes, because its capacity is one of 5, 11, 19, 29 |
| HashTrie.FreshMemory | TrieHashing.java:190-224 | a fresh trie is estimated at 76 bytes |
| HashTrie.OneWordMemory | TrieHashing.java:190-224 | the trie holding only "a", with two tables of capacity 5, is estimated at 152 bytes |
| HashTrie.OneWord | TrieHashing.java:127-224 | a fresh trie into which "a" is inserted prints exactly ["a"], finds no node for "b", and is estimated at 152 bytes |
| HashTrie.LoadOneWord | TrieHashing.java:127-145 | inserting "a" into a fresh trie gives exactly a root and one child under 'a' that ends a word of length 1, with both tables at the capacity of the growth schedule |
| HashTrie.OneWordReport | TrieHashing.java:147-224 | in the trie holding only "a", the printer lists ["a"], the search for "b" finds no node and the estimate is 152 bytes |
| Similarity.AreCharactersSimilar | TrieApp.java:397-426 | the loops compute the shared and total counts over the 30 buckets; the result holds exactly when total > 0 and shared/total ≥ 0.7, in exact arithmetic |
| Similarity.Histogram | TrieApp.java:398-413 | bucket b of the 30 counts the characters of code 'a' + b |
| Similarity.SharedAtMostTotal | TrieApp.java:415-421 | the shared count lies between 0 and the total |
| Similarity.SimilarSymmetric | TrieApp.java:397-426 | the test does not depend on the order of its arguments |
| Similarity.FreqIsMultiplicity | TrieApp.java:402-413 | a bucket counts the occurrences of its character |
| Similarity.AnagramsSimilar | TrieApp.java:397-426 | anagrams are similar exactly when they have a counted character |
| Similarity.NoCountedCharacters | TrieApp.java:422-425 | words without counted characters are never similar (the ratio is NaN) |
| MinHeaps.RootIsMinimum | TrieApp.java:201 | in a heap-ordered sequence the root is of least importance |
| MinHeaps.MinHeap.constructor | TrieApp.java:153-158 | a new heap has the given capacity, two arrays of that length and no entries |
| MinHeaps.MinHeap.Swap | TrieApp.java:176-186 | word and importance move together; the entries are exchanged, and the multiset and distinct words are kept |
| MinHeaps.MinHeap.Contains | TrieApp.java:271-278 | true exactly when a live slot holds the word |
| MinHeaps.MinHeap.Insert | TrieApp.java:189-216 | a word already present changes nothing; below capacity the entry is added; when full, the root is replaced only by a strictly more important word; heap order, distinct words and size ≤ capacity are kept |
| MinHeaps.MinHeap.Push | TrieApp.java:194-204 | appending and sifting up adds exactly the new entry and restores heap order |
| MinHeaps.MinHeap.ReplaceRoot | TrieApp.java:207-214 | replacing the root and sifting down swaps exactly the root entry for the new one |
| MinHeaps.MinHeap.Heapify | TrieApp.java:239-259 | sifting down from a slot whose only flaw is below it restores heap order without changing the entries |
| MinHeaps.MinHeap.RemoveMin | TrieApp.java:219-236 | null on an empty heap; otherwise it returns a word of least importance and removes exactly its entry |
| MinHeaps.MinHeap.DropRoot | TrieApp.java:227-233 | moving the last entry to the root and sifting down removes exactly the root entry |
| MinHeaps.MinHeap.GetTopKWords | TrieApp.java:262-268 | min(k, size) words, the words of the removed entries, in non-decreasing importance, each at most as important as anything left |
| MinHeaps.MinHeap.RemoveMany | TrieApp.java:264-266 | n successive removals yield entries in non-decreasing importance and take exactly them out of the heap |
| MinHeaps.TopKStep | TrieApp.java:264-266 | one more removal keeps the removed entries sorted and below what remains |
| QueryEngine.FindTopKWords | TrieApp.java:322-329 | every word the heap holds is a candidate of one of the three collectors; every candidate is held, or the heap is full of words at least as important |
| QueryEngine.Offer | TrieApp.java:325-327 | offering the candidates in order keeps each earlier candidate held or beaten |
| QueryEngine.Offered | TrieApp.java:189-216 | one heap insertion keeps every earlier offer held or beaten and holds or beats the new one |
| QueryEngine.CandidatesConsistent | TrieApp.java:339-384 | every collector offers a word with its own node's importance, so equal words carry equal importance |
| QueryEngine.Beaten | TrieApp.java:322-329 | a trie word that some collector keeps but the final heap lacks was beaten: the heap is full and holds only words at least as important |
| ArrayTrie.Trie.constructor | Trie.java:9-22 | a new trie is a lone root with 26 empty slots |
| ArrayTrie.Trie.SearchNode | Trie.java:73-81 | the node reached by the rest of the word through slot c - 'a', null once a slot is empty |
| ArrayTrie.Trie.GetImportance | Trie.java:68-71 | the counter of the word's node when the path exists and ends a word, otherwise 0 |
| ArrayTrie.Trie.SearchRecursively | Trie.java:106-119 | true exactly when the path exists and its end node ends a word; false as soon as a slot is empty |
| ArrayTrie.Trie.Child | Trie.java:58-62 | an existing child is reused; an empty slot receives one new node |
| ArrayTrie.Trie.InsertFrom | Trie.java:51-65 | the children afterwards are exactly the old ones with the missing part of the path grafted below the node (`Graft`), so no other slot is filled; the end node records the word's length, its counter rose by exactly 1, and no other counter changed; when the path already existed, the children are unchanged |
| ArrayTrie.Trie.Insert | Trie.java:43-49 | a word the dictionary lacks changes nothing; otherwise, from the root: every old edge is kept, every new edge lies on the word's path and leads to a new node, exactly the missing nodes are created (none when the path existed), each node keeps a single parent, the end node's counter rises by 1, and the words of the trie become the old ones and the inserted word |
| ArrayTrie.Trie.CheckAndInsert | Trie.java:121-133 | a word already present, or one the dictionary lacks, changes nothing; otherwise it is inserted with all the guarantees of `Insert` |
| ArrayTrie.Trie.CalcMemFrom | Trie.java:160-173 | 116 bytes per node of the subtree |
| ArrayTrie.Trie.CalcMem | Trie.java:156-158 | 116 bytes per reachable node |
| ArrayTrie.FreshMemory | Trie.java:156-173 | a fresh trie is estimated at 116 bytes |
| ArrayTrie.Trie.PrintFrom | Trie.java:88-99 | the words under a node with their counters, the node's own first, then slots 0 to 25 |
| ArrayTrie.Trie.PrintChildren | Trie.java:93-98 | the words under the children of a node, slots 0 to 25 in order, with their counters, exactly as the traversal lists them |
| ArrayTrie.Trie.PrintChild | Trie.java:94-97 | the words under the child in slot i when the slot is filled, with the letter 'a' + i appended to the prefix, and none otherwise |
| ArrayTrie.Trie.PrintWords | Trie.java:84-86 | every word of the trie with its counter, in traversal order |
| ArrayTrie.InsertBumps | Trie.java:52-56 | a non-empty insertion makes the word's importance its old counter plus one, and every word ending at another node keeps its importance |
| ArrayTrie.InsertTwice | Trie.java:52-56 | inserting the same word twice raises its importance by two |
| ArrayTrie.LoadOneWord | Trie.java:43-65 | a fresh trie into which "a" is inserted has exactly a root and one child under 'a', which ends a word of length 1 with counter 1 |
| ArrayTrie.OneWord | Trie.java:43-173 | in that trie "a" is found and "b" is not, the printer lists ("a", 1) alone, and the estimate is two nodes' worth, 232 bytes |
| ArrayTrie.OneWordLookups | Trie.java:106-119 | in the trie holding only "a", the search finds "a" and not "b" |
| ArrayTrie.OneWordReport | Trie.java:84-173 | in the trie holding only "a", the printer lists ("a", 1) alone and the estimate is 232 bytes |

## Left out

- File and console I/O is not modelled: `loadFile`, reading and rewriting the words file in `importanceUpdate`, the dictionary lookup of `Trie`, every `main` method and the console loop, and all printing.
  - The importance update takes the words as a sequence.
  - The dictionary lookup is a boolean parameter (`inDictionary`) of `ArrayTrie.Trie.Insert` and `CheckAndInsert`.
  - The printers return sequences.
- `processWord` (regular-expression cleaning of the words file), `randomWordGenerator.java` (random benchmark data) and the static `numOfWords` counter are input, random or bookkeeping code. They are not part of this model.
- Case folding and trimming (`toLowerCase`, `trim`) are not modelled. Words are taken as already lowercase: `Lower(w)` is required by the insertions and, in `ArrayTrie`, by `SearchNode`, `GetImportance` and `SearchRecursively`. In `Trie.java` the insertion indexes the slot array out of bounds at the first character outside 'a'..'z'. The lookups do so only when their walk reaches such a character: they return null or false first when an earlier child is missing ("b!" with no 'b' child). For the lookups, `Lower(w)` is therefore a cautious restriction, not the exact failure condition.
- Floating point is replaced by exact integer forms. `size > 0.9 * capacity` is `10 * size > 9 * capacity`. `shared / total >= 0.7` is `total > 0 && 10 * shared >= 7 * total`; a total of 0 gives NaN in Java, which compares false.
- Java `int` overflow of the counters and sizes is not modelled; integers are unbounded.
- RobinHood.ChildTable.Insert: requires fewer than 26 keys before the insertion, so a table holds at most 26. With lowercase keys that always holds. The steps to capacities 11, 19 and 29 (at the 6th, 11th and 19th key) are all within that bound and modelled. What the bound rules out is the rehash from 29 to 29, which would first come at the 28th key (27 keys already held, 270 > 261), and the nested rehash inside it at the 29th.
- MinHeaps.MinHeap.constructor: requires a capacity of at least 1. With capacity 0, the source's `insert` reads `importance[0]` out of bounds.
- QueryEngine.FindTopKWords: requires k ≥ 1 for the same reason.
- MinHeaps.MinHeap.GetTopKWords: requires k ≥ 0. A negative k makes the source's array allocation fail.
- HashTrie.Trie.Collect: returns its candidates as a sequence instead of inserting them into the heap during the traversal. `QueryEngine.FindTopKWords` then offers them to the heap in the same order, so the heap sees the same insertions.
- One class, `HashTrie.Trie`, models both the `TrieApp` and the `TrieHashing` trie.
  - They share the node layout and the insertion.
  - The importance update and the collectors come from `TrieApp`; printing and the memory estimate from `TrieHashing`.
  - It covers the public `insertRecursively(word, index)` only for index 0. `InsertFrom` covers any index below the root.
- The child tables and slot arrays inside the tries are values, not objects:
  - `HashTrie` keeps each node's key-to-child map and its table capacity;
  - `ArrayTrie` keeps each node's 26 slots as a sequence.
  - The model therefore does not capture in-place updates of a node's table or array, or nodes shared by reference. The table itself is verified separately as the `RobinHood.ChildTable` class over an array.
- The memory estimate of `HashTrie` reads each node's table capacity from `caps`, which the trie keeps equal to the capacity the growth schedule gives for the node's number of children; the slot contents do not enter the estimate.
- RobinHoodAsWritten.Place: covers only insertions that need no rehash, which is all the counterexample needs. Its own ensures give the size and the maximum probe length; what the slots hold afterwards (the old pairs and the new one) is stated by `RobinHoodAsWritten.PlaceStores`.
- MinHeaps.MinHeap.GetTopKWords: the removed words are collected into a sequence and copied into the result array after the loop. The source stores each word into the array as it is removed. The contents are the same.
- Some source methods are split into helpers with their own contracts:
  - `MinHeap.insert` into `Push` and `ReplaceRoot`;
  - `removeMin` into `RemoveMin` and `DropRoot`;
  - the loop of `getTopKWords` into `RemoveMany`;
  - `rehash` into `Grow`, `ReplayAll` and `Replay`;
  - the probing of the table insertion into `Place` and `Settle`;
  - each collector into `Collect`, `CollectChildren` and `CollectChild`.
  - the printer of `Trie.java` into `PrintFrom`, `PrintChildren` and `PrintChild`.

## Findings

| source | as written | input that shows it | evidently intended | confidence | as-written member | corrected member |
|---|---|---|---|---|---|---|
| TrieApp.java:96-115 (also TrieHashing.java:92-106) | An element swapped into a slot keeps the probe length it had (0 for the new element). The displaced element continues with the incoming element's probe count. Only the last placement records a probe length and raises `maxProbeLength`. So an element can sit farther from its home than `maxProbeLength`, and `search` stops before reaching it. | Insert 'w', 'o', 'm', 'r', 'x' into a fresh table of capacity 5 (no rehash happens). 'r' ends in slot 3, four steps from its home slot 4, while `maxProbeLength` is 3. `search('r')` returns null, so `insertRecursively` would add a second child under 'r'. | Every placed element records its true distance from home. The displaced element continues with its own distance. Every placement raises `maxProbeLength`. Then every key lies within `maxProbeLength` of its home and `search` finds every key. | not executed | RobinHoodAsWritten.SearchMissesPlacedKey | RobinHood.ChildTable.Insert |
