/**
 * The fixed-alphabet trie: every node has 26 child slots, slot `c - 'a'` for
 * the lowercase letter `c`, a word length (0 when no word ends there) and an
 * importance counter that every insertion of the node's word increments.
 *
 * Nodes live in an arena: `children[n]` holds the 26 slots of node `n`, None
 * for an empty slot. The ghost field `kids` is the key-to-child mapping the
 * slots stand for, which lets the walks and the traversal of `TriePaths`
 * describe this trie too.
 */
module ArrayTrie {
  import opened Options
  import opened TriePaths

  const AlphabetSize := 26

  /** The bytes the memory estimate charges for one node: 26 references of
      4 bytes, then three 4-byte fields. */
  const NodeBytes := 26 * 4 + (4 + 4 + 4)

  const EmptySlots: seq<Option<nat>> := seq(AlphabetSize, _ => None)

  /** The slot of a lowercase letter. */
  function Slot(c: char): int {
    c as int - 'a' as int
  }

  /** The letter of a slot. */
  function Letter(i: int): char
    requires 0 <= i < AlphabetSize
  {
    (i + 'a' as int) as char
  }

  /** Slot `Slot(c)` of node `n` holds the child of `n` under `c`. */
  ghost predicate SlotOf(children: seq<seq<Option<nat>>>, kids: Kids, n: int, c: char) {
    0 <= n < |children| && n < |kids| && |children[n]| == AlphabetSize && IsLower(c) ==>
      children[n][Slot(c)] == if c in kids[n] then Some(kids[n][c]) else None
  }

  /** The slots stand for the mapping `kids`. */
  ghost predicate Mirrors(children: seq<seq<Option<nat>>>, kids: Kids) {
    |children| == |kids| &&
    (forall n :: 0 <= n < |children| ==> |children[n]| == AlphabetSize) &&
    forall n, c :: SlotOf(children, kids, n, c)
  }

  lemma ChildAt(children: seq<seq<Option<nat>>>, kids: Kids, n: int, c: char)
    requires Mirrors(children, kids) && 0 <= n < |children| && IsLower(c)
    ensures 0 <= Slot(c) < |children[n]| == AlphabetSize
    ensures children[n][Slot(c)] == if c in kids[n] then Some(kids[n][c]) else None
  {
    assert SlotOf(children, kids, n, c);
  }

  /** A lone node with 26 empty slots stands for a node without children. */
  lemma EmptyMirrors()
    ensures Mirrors([EmptySlots], [map[]])
  {
    forall n, c ensures SlotOf([EmptySlots], [map[]], n, c) {
      if 0 <= n < 1 && IsLower(c) {
        assert EmptySlots[Slot(c)] == None;
      }
    }
  }

  /** Appending an empty node and filling the empty slot of `c` in `node`
      with it keeps the slots and the mapping in step. */
  lemma MirrorsLink(children: seq<seq<Option<nat>>>, kids: Kids, node: nat, c: char)
    requires Mirrors(children, kids) && node < |children| && IsLower(c) && c !in kids[node]
    ensures var grown := children + [EmptySlots];
      var m: map<char, nat> := kids[node][c := |kids|];
      Mirrors(grown[node := grown[node][Slot(c) := Some(|kids|)]], (kids + [map[]])[node := m])
  {
    var grown := children + [EmptySlots];
    var ch := grown[node := grown[node][Slot(c) := Some(|kids|)]];
    var m: map<char, nat> := kids[node][c := |kids|];
    var ks := (kids + [map[]])[node := m];
    forall n, d ensures SlotOf(ch, ks, n, d) {
      if 0 <= n < |children| && IsLower(d) {
        ChildAt(children, kids, n, d);
      }
    }
  }

  /** `next` is `prev` grown with zeros, except that the counter of `e` went
      up by one. */
  ghost predicate Bumped(prev: seq<int>, next: seq<int>, e: Option<nat>) {
    e.Some? && e.value < |next| && |prev| <= |next| &&
    next[e.value] == (if e.value < |prev| then prev[e.value] else 0) + 1 &&
    forall m :: 0 <= m < |next| && m != e.value ==> next[m] == if m < |prev| then prev[m] else 0
  }

  /** One step of the insertion, for the counters: the child `next` of
      `node` under `c` was found (`k1` is `k0`) or created (`k1` adds it),
      and the rest was inserted below it. */
  lemma InsertStep(k0: Kids, k1: Kids, k2: Kids, i0: seq<int>, i1: seq<int>, i2: seq<int>,
                   node: nat, c: char, next: nat, rest: string)
    requires WellFormed(k0) && WellFormed(k1) && WellFormed(k2) && node < |k0| && IsLower(c)
    requires c in k0[node] ==> next == k0[node][c] && k1 == k0 && i1 == i0
    requires c !in k0[node] ==>
      (var m: map<char, nat> := k0[node][c := next];
       next == |k0| && k1 == (k0 + [map[]])[node := m] && i1 == i0 + [0])
    requires next < |k1| && Extends(k1, k2)
    requires Bumped(i1, i2, Walk(k2, next, rest))
    ensures Bumped(i0, i2, Walk(k2, node, [c] + rest))
  {
    var w := [c] + rest;
    assert w[0] == c && w[1..] == rest;
    assert c in k2[node] && k2[node][c] == next;
    assert Walk(k2, node, w) == Walk(k2, next, rest);
  }

  /** The importance of `w` as the trie reports it: the counter of its node
      when that node ends a word, otherwise 0. */
  ghost function ImportanceOf(kids: Kids, wordLength: seq<int>, importance: seq<int>, w: string): (r: int)
    requires WellFormed(kids) && |wordLength| == |importance| == |kids|
  {
    var e := Walk(kids, 0, w);
    if e.Some? && wordLength[e.value] > 0 then importance[e.value] else 0
  }

  /** The raw counter at the node of `w`, 0 when there is none. */
  ghost function Counter(kids: Kids, importance: seq<int>, w: string): (r: int)
    requires WellFormed(kids) && |importance| == |kids|
  {
    var e := Walk(kids, 0, w);
    if e.Some? then importance[e.value] else 0
  }

  class Trie {
    /** The 26 child slots of each node. */
    var children: seq<seq<Option<nat>>>
    /** The mapping the slots stand for. */
    ghost var kids: Kids
    var wordLength: seq<int>
    var importance: seq<int>

    /** The arena is consistent: one entry per node in each field, a well
        formed shape, and slots that stand for it. */
    ghost predicate Shaped()
      reads this
    {
      |children| == |kids| == |wordLength| == |importance| && WellFormed(kids) && Mirrors(children, kids)
    }

    /** A consistent arena that is a tree: every node but the root has
        exactly one parent. */
    ghost predicate Valid()
      reads this
    {
      Shaped() && Tree(kids)
    }

    /** A trie holding only the root, with 26 empty slots. */
    constructor ()
      ensures Valid()
      ensures kids == [map[]] && wordLength == [0] && importance == [0]
    {
      EmptyMirrors();
      children := [EmptySlots];
      kids := [map[]];
      wordLength := [0];
      importance := [0];
    }

    /** The node reached from `node` by the characters of `w` from `index`
        on; None once a slot on the way is empty, or when `node` is None. */
    function SearchNode(w: string, node: Option<nat>, index: nat): (r: Option<nat>)
      reads this
      requires Shaped() && Lower(w) && index <= |w| && (node.Some? ==> node.value < |kids|)
      ensures r == if node.None? then None else Walk(kids, node.value, w[index..])
      decreases |w| - index
    {
      if node.None? || index == |w| then
        assert index == |w| ==> w[index..] == [];
        node
      else
        var n := node.value;
        var c := w[index];
        ChildAt(children, kids, n, c);
        assert w[index..][0] == c && w[index..][1..] == w[index + 1..];
        SearchNode(w, children[n][Slot(c)], index + 1)
    }

    /** The importance of `w`: its node's counter when the path exists and
        ends a word, otherwise 0. */
    function GetImportance(w: string): (r: int)
      reads this
      requires Valid() && Lower(w)
      ensures r == ImportanceOf(kids, wordLength, importance, w)
    {
      assert w[0..] == w;
      var node := SearchNode(w, Some(0), 0);
      if node.Some? && wordLength[node.value] > 0 then importance[node.value] else 0
    }

    /** Whether the characters of `w` from `index` on lead from `node` to a
        node that ends a word. */
    function SearchRecursively(w: string, index: nat, node: nat): (r: bool)
      reads this
      requires Shaped() && Lower(w) && index <= |w| && node < |kids|
      ensures r <==> Walk(kids, node, w[index..]).Some? && wordLength[Walk(kids, node, w[index..]).value] > 0
      decreases |w| - index
    {
      if index == |w| then
        assert w[index..] == [];
        wordLength[node] > 0
      else
        var c := w[index];
        ChildAt(children, kids, node, c);
        assert w[index..][0] == c && w[index..][1..] == w[index + 1..];
        var child := children[node][Slot(c)];
        if child.None? then false else SearchRecursively(w, index + 1, child.value)
    }

    /** The child of `node` under `c`; when its slot is empty, a new node is
        appended and stored there. */
    method Child(node: nat, c: char) returns (next: nat)
      requires Shaped() && node < |kids| && IsLower(c)
      modifies this
      ensures Shaped()
      ensures c in old(kids)[node] ==>
        next == old(kids)[node][c] && kids == old(kids) && wordLength == old(wordLength) &&
        importance == old(importance)
      ensures c !in old(kids)[node] ==>
        (var m: map<char, nat> := old(kids)[node][c := next];
         next == old(|kids|) && kids == (old(kids) + [map[]])[node := m] &&
         wordLength == old(wordLength) + [0] && importance == old(importance) + [0])
    {
      var position := c as int - 'a' as int;
      ChildAt(children, kids, node, c);
      if children[node][position].Some? {
        next := children[node][position].value;
        return;
      }
      next := |children|;
      MirrorsLink(children, kids, node, c);
      WellFormedGrow(kids);
      children := children + [EmptySlots];
      kids := kids + [map[]];
      wordLength := wordLength + [0];
      importance := importance + [0];
      WellFormedLink(kids, node, c, next);
      children := children[node := children[node][position := Some(next)]];
      var m: map<char, nat> := kids[node][c := next];
      kids := kids[node := m];
    }

    /** Makes the path of `w` from `index` on exist below `node`, filling
        empty slots with new nodes, then marks its end node with the length
        of `w` and increments its counter. */
    method InsertFrom(w: string, index: nat, node: nat)
      requires Shaped() && Lower(w) && index <= |w| && node < |kids|
      modifies this
      ensures Shaped()
      ensures kids == Graft(old(kids), node, w[index..])
      ensures Extends(old(kids), kids)
      ensures Marked(old(wordLength), wordLength, Walk(kids, node, w[index..]), |w|)
      ensures Bumped(old(importance), importance, Walk(kids, node, w[index..]))
      ensures |kids| == old(|kids|) + (|w| - index - Depth(old(kids), node, w[index..]))
      ensures old(Walk(kids, node, w[index..])).Some? ==> kids == old(kids)
      decreases |w| - index
    {
      if index == |w| {
        assert w[index..] == [];
        wordLength := wordLength[node := |w|];
        importance := importance[node := importance[node] + 1];
        return;
      }
      var c := w[index];
      var rest := w[index + 1..];
      assert w[index..] == [c] + rest;
      var next := Child(node, c);
      ghost var kids1, wordLength1, importance1 := kids, wordLength, importance;
      InsertFrom(w, index + 1, next);
      InsertPathStep(old(kids), kids1, kids, old(wordLength), wordLength1, wordLength,
                          node, c, next, rest, |w|);
      InsertStep(old(kids), kids1, kids, old(importance), importance1, importance, node, c, next, rest);
      GraftStep(old(kids), kids1, node, c, next, rest);
    }

    /** The public insertion: a word the dictionary does not hold is not
        inserted; otherwise its characters from `index` on are inserted from
        the root. Only the edges of that path are new, and the words of the
        trie become the old ones and that path. */
    method Insert(w: string, index: nat, inDictionary: bool)
      requires Valid() && Lower(w) && index <= |w|
      modifies this
      ensures Valid()
      ensures !inDictionary ==>
        children == old(children) && kids == old(kids) && wordLength == old(wordLength) &&
        importance == old(importance)
      ensures inDictionary ==>
        Extends(old(kids), kids) && NewEdgesFresh(old(kids), kids) && NewEdgesOnPath(old(kids), kids, 0, w[index..]) &&
        |kids| == old(|kids|) + (|w| - index - Depth(old(kids), 0, w[index..])) &&
        (old(Walk(kids, 0, w[index..])).Some? ==> kids == old(kids)) &&
        Marked(old(wordLength), wordLength, Walk(kids, 0, w[index..]), |w|) &&
        Bumped(old(importance), importance, Walk(kids, 0, w[index..]))
      ensures inDictionary && w != [] ==>
        forall v :: IsWord(kids, wordLength, v) <==> old(IsWord(kids, wordLength, v)) || v == w[index..]
    {
      if !inDictionary {
        return;
      }
      InsertFrom(w, index, 0);
      GraftEdges(old(kids), 0, w[index..]);
      GraftTree(old(kids), 0, w[index..]);
      if w != [] {
        forall v ensures IsWord(kids, wordLength, v) <==> old(IsWord(kids, wordLength, v)) || v == w[index..] {
          InsertedWords(old(kids), kids, old(wordLength), wordLength, w[index..], |w|, v);
        }
      }
    }

    /** Inserts `w` only when it is not already a word of the trie. */
    method CheckAndInsert(w: string, inDictionary: bool)
      requires Valid() && Lower(w)
      modifies this
      ensures Valid()
      ensures old(SearchRecursively(w, 0, 0)) || !inDictionary ==>
        children == old(children) && kids == old(kids) && wordLength == old(wordLength) &&
        importance == old(importance)
      ensures !old(SearchRecursively(w, 0, 0)) && inDictionary ==>
        Extends(old(kids), kids) && NewEdgesFresh(old(kids), kids) && NewEdgesOnPath(old(kids), kids, 0, w) &&
        |kids| == old(|kids|) + (|w| - Depth(old(kids), 0, w)) &&
        (old(Walk(kids, 0, w)).Some? ==> kids == old(kids)) &&
        Marked(old(wordLength), wordLength, Walk(kids, 0, w), |w|) &&
        Bumped(old(importance), importance, Walk(kids, 0, w))
      ensures !old(SearchRecursively(w, 0, 0)) && inDictionary && w != [] ==>
        forall v :: IsWord(kids, wordLength, v) <==> old(IsWord(kids, wordLength, v)) || v == w
    {
      var present := SearchRecursively(w, 0, 0);
      if !present {
        Insert(w, 0, inDictionary);
        assert w[0..] == w;
      }
    }

    /** The memory estimate of the subtree under `node`, whose word is
        `prefix`: a fixed charge per node, summed over every slot. */
    method CalcMemFrom(node: nat, ghost prefix: string) returns (r: int)
      requires Shaped() && node < |kids|
      ensures r == NodeBytes * |Visit(kids, node, prefix)|
      decreases |kids| - node
    {
      r := 26 * 4;
      r := r + (4 + 4 + 4);
      var i := 0;
      while i < AlphabetSize
        invariant 0 <= i <= AlphabetSize
        invariant r + NodeBytes * |VisitFrom(kids, node, prefix, 'a' as int + i)| ==
          NodeBytes * |Visit(kids, node, prefix)|
      {
        var c := Letter(i);
        ChildAt(children, kids, node, c);
        assert Slot(c) == i && c as int == 'a' as int + i;
        var child := children[node][i];
        if child.Some? {
          var sub := CalcMemFrom(child.value, prefix + [c]);
          r := r + sub;
        }
        i := i + 1;
      }
    }

    /** The memory estimate of the whole trie. */
    method CalcMem() returns (r: int)
      requires Valid()
      ensures r == NodeBytes * |Visit(kids, 0, [])|
    {
      r := CalcMemFrom(0, []);
    }

    /** The words under `node`, whose word is `prefix`, each with its
        counter, in the order the printer visits them: the node's own word
        when one ends there, then the subtrees of slots 0 to 25. */
    method PrintFrom(node: nat, prefix: string) returns (r: seq<(string, int)>)
      requires Shaped() && node < |kids|
      ensures r == Select(AnyWord, Visit(kids, node, prefix), wordLength, importance)
      decreases |kids| - node, 2
    {
      var own := if wordLength[node] > 0 then [(prefix, importance[node])] else [];
      assert own == Select(AnyWord, [(prefix, node)], wordLength, importance);
      SelectAppend(AnyWord, [(prefix, node)], VisitFrom(kids, node, prefix, 'a' as int),
                            wordLength, importance);
      var below := PrintChildren(node, prefix);
      r := own + below;
    }

    method PrintChildren(node: nat, prefix: string) returns (r: seq<(string, int)>)
      requires Shaped() && node < |kids|
      ensures r == Select(AnyWord, VisitFrom(kids, node, prefix, 'a' as int), wordLength, importance)
      decreases |kids| - node, 1
    {
      r := [];
      var i := 0;
      ghost var all := Select(AnyWord, VisitFrom(kids, node, prefix, 'a' as int), wordLength, importance);
      while i < AlphabetSize
        invariant 0 <= i <= AlphabetSize
        invariant r + Select(AnyWord, VisitFrom(kids, node, prefix, 'a' as int + i),
                                      wordLength, importance) == all
      {
        var sub := PrintChild(node, prefix, i);
        SelectFromStep(AnyWord, kids, node, prefix, 'a' as int + i, wordLength, importance);
        Regroup(r, sub, Select(AnyWord, VisitFrom(kids, node, prefix, 'a' as int + i + 1),
                                                 wordLength, importance), all);
        r := r + sub;
        i := i + 1;
      }
    }

    /** The words under slot `i` of `node`: none when the slot is empty. */
    method PrintChild(node: nat, prefix: string, i: int) returns (r: seq<(string, int)>)
      requires Shaped() && node < |kids| && 0 <= i < AlphabetSize
      ensures var c := ('a' as int + i) as char;
        r == if c in kids[node] then Select(AnyWord, Visit(kids, kids[node][c], prefix + [c]),
                                                     wordLength, importance) else []
      decreases |kids| - node, 0
    {
      var c := Letter(i);
      ChildAt(children, kids, node, c);
      assert Slot(c) == i;
      r := [];
      var child := children[node][i];
      if child.Some? {
        r := PrintFrom(child.value, prefix + [c]);
      }
    }

    /** Every word of the trie with its counter, in printing order. */
    method PrintWords() returns (words: seq<(string, int)>)
      requires Valid()
      ensures words == Select(AnyWord, Visit(kids, 0, []), wordLength, importance)
    {
      words := PrintFrom(0, []);
    }
  }

  /** A fresh trie is estimated at one node's charge. */
  lemma FreshMemory()
    ensures NodeBytes * |Visit([map[]], 0, [])| == 116
  {
    VisitFromPast([map[]], 0, [], 'a' as int);
    assert Visit([map[]], 0, []) == [([], 0)];
  }

  /** What an insertion of `u` (recording length `len`) does to the reported
      importances: a non-empty insertion makes `u`'s importance its old
      counter plus one, and the importance of every word ending at another
      node is unchanged. */
  lemma InsertBumps(k0: Kids, k1: Kids, wl0: seq<int>, wl1: seq<int>, i0: seq<int>, i1: seq<int>,
                    u: string, len: int, v: string)
    requires WellFormed(k0) && WellFormed(k1) && Extends(k0, k1) && NewEdgesFresh(k0, k1)
    requires |wl0| == |i0| == |k0| && |wl1| == |i1| == |k1|
    requires Marked(wl0, wl1, Walk(k1, 0, u), len) && Bumped(i0, i1, Walk(k1, 0, u))
    ensures len > 0 ==> ImportanceOf(k1, wl1, i1, u) == Counter(k0, i0, u) + 1
    ensures Walk(k1, 0, v) != Walk(k1, 0, u) ==> ImportanceOf(k1, wl1, i1, v) == ImportanceOf(k0, wl0, i0, v)
  {
    var e := Walk(k1, 0, u).value;
    if Walk(k0, 0, u).Some? {
      WalkExtends(k0, k1, 0, u);
    } else {
      WalkFresh(k0, k1, 0, u);
    }
    if Walk(k1, 0, v) != Walk(k1, 0, u) {
      if Walk(k0, 0, v).Some? {
        WalkExtends(k0, k1, 0, v);
      } else if Walk(k1, 0, v).Some? {
        WalkFresh(k0, k1, 0, v);
      }
    }
  }

  /** Inserting the same non-empty word twice raises its importance by two
      over its counter before the first insertion. */
  lemma InsertTwice(k0: Kids, k1: Kids, k2: Kids, wl0: seq<int>, wl1: seq<int>, wl2: seq<int>,
                    i0: seq<int>, i1: seq<int>, i2: seq<int>, w: string)
    requires WellFormed(k0) && WellFormed(k1) && WellFormed(k2) && w != []
    requires Extends(k0, k1) && NewEdgesFresh(k0, k1) && Extends(k1, k2) && NewEdgesFresh(k1, k2)
    requires |wl0| == |i0| == |k0| && |wl1| == |i1| == |k1| && |wl2| == |i2| == |k2|
    requires Marked(wl0, wl1, Walk(k1, 0, w), |w|) && Bumped(i0, i1, Walk(k1, 0, w))
    requires Marked(wl1, wl2, Walk(k2, 0, w), |w|) && Bumped(i1, i2, Walk(k2, 0, w))
    ensures ImportanceOf(k2, wl2, i2, w) == Counter(k0, i0, w) + 2
  {
    InsertBumps(k0, k1, wl0, wl1, i0, i1, w, |w|, w);
    InsertBumps(k1, k2, wl1, wl2, i1, i2, w, |w|, w);
  }

  /** A fresh trie into which the single word "a" was inserted. */
  method LoadOneWord() returns (t: Trie)
    ensures fresh(t) && t.Valid()
    ensures t.kids == [map['a' := 1], map[]] && t.wordLength == [0, 1] && t.importance == [0, 1]
  {
    t := new Trie();
    t.Insert("a", 0, true);
    assert "a"[0..] == "a";
    assert Depth([map[]], 0, "a") == 0;
    OneWordShape(t.kids);
    assert "a"[0] == 'a' && "a"[1..] == [];
    assert Walk(t.kids, 0, "a") == Some(1);
  }

  /** A fresh trie loaded with the single word "a": "a" is found and "b" is
      not, the printer lists "a" with counter 1, and the memory estimate
      counts two nodes. */
  method OneWord() returns (found: bool, other: bool, words: seq<(string, int)>, mem: int)
    ensures found && !other && words == [("a", 1)] && mem == 2 * NodeBytes
  {
    var t := LoadOneWord();
    found, other := OneWordLookups(t);
    words, mem := OneWordReport(t);
  }

  /** In the trie holding only "a", the search finds "a" and not "b". */
  method OneWordLookups(t: Trie) returns (found: bool, other: bool)
    requires t.Valid() && t.kids == [map['a' := 1], map[]] && t.wordLength == [0, 1]
    ensures found && !other
  {
    assert "a"[0..] == "a" && "a"[0] == 'a' && "a"[1..] == [];
    assert Walk(t.kids, 0, "a") == Some(1);
    found := t.SearchRecursively("a", 0, 0);
    assert "b"[0..] == "b" && "b"[0] == 'b';
    assert Walk(t.kids, 0, "b") == None;
    other := t.SearchRecursively("b", 0, 0);
  }

  /** In the trie holding only "a", the printer lists ("a", 1) and the
      estimate counts two nodes. */
  method OneWordReport(t: Trie) returns (words: seq<(string, int)>, mem: int)
    requires t.Valid() && t.kids == [map['a' := 1], map[]] && t.wordLength == [0, 1] && t.importance == [0, 1]
    ensures words == [("a", 1)] && mem == 2 * NodeBytes
  {
    OneWordSelect(t.wordLength, t.importance);
    OneWordVisit();
    words := t.PrintWords();
    mem := t.CalcMem();
  }
}
