/**
 * The per-node child table of the hashed trie: an open-addressing map from a
 * character to a child node, with circular linear probing and Robin Hood
 * displacement. The table is an array of optional slots; the ghost maps
 * `Contents` (key to child) and `Where` (key to slot) give its abstract view.
 *
 * This is the corrected table: every element records its true distance from
 * its home slot when it is placed, the displaced element continues with its
 * own distance, and every placement raises `maxProbeLength`. The code as
 * written (where these three things do not hold) is modelled in
 * RobinHoodAsWritten, together with the input on which its search fails.
 */
module RobinHood {
  import opened Options

  /** An occupied slot: the key, the probe length recorded when the element was
      placed, and the child node (an index into the owning trie). */
  datatype Element = Element(key: char, probeLength: int, node: nat)

  type Slots = seq<Option<Element>>

  /** The capacity of a fresh table. */
  const InitialCapacity: int := 5

  /** The last step of the growth schedule. */
  const LastCapacity: int := 29

  /** Keys are lowercase letters, so a table never holds more than 26. */
  const AlphabetSize: int := 26

  predicate InSchedule(c: int) {
    c == 5 || c == 11 || c == 19 || c == 29
  }

  /** The growth schedule 5 -> 11 -> 19 -> 29; past 29 the capacity stays put. */
  function NextCapacity(c: int): (r: int)
    ensures InSchedule(c) ==> InSchedule(r)
    ensures InSchedule(c) && c < LastCapacity ==> r > c
    ensures c == LastCapacity ==> r == c
  {
    if c == 5 then 11 else if c == 11 then 19 else if c == 19 then 29 else c
  }

  /** `size > 0.9 * capacity`, in exact integer form. */
  predicate NeedsRehash(size: int, capacity: int) {
    10 * size > 9 * capacity
  }

  /** The capacity a table of `size` elements and capacity `capacity` has once
      one more key is inserted: the next step of the schedule when the table
      is more than 90% full, the same capacity otherwise. */
  function CapacityAfterInsert(size: int, capacity: int): (r: int)
    ensures InSchedule(capacity) ==> InSchedule(r) && r >= capacity
    ensures r != capacity ==> NeedsRehash(size, capacity)
  {
    if NeedsRehash(size, capacity) then NextCapacity(capacity) else capacity
  }

  /** The capacity of a table that started empty and received `size` keys,
      one insertion at a time. */
  function CapacityFor(size: int): (c: int)
    ensures InSchedule(c)
  {
    if size <= 5 then 5 else if size <= 10 then 11 else if size <= 18 then 19 else 29
  }

  /** The capacity depends on the number of keys only: growing a table by
      one key moves it from the capacity for `size` keys to the capacity for
      `size + 1`. */
  lemma CapacityForStep(size: int)
    requires size >= 0
    ensures CapacityAfterInsert(size, CapacityFor(size)) == CapacityFor(size + 1)
    ensures CapacityFor(0) == InitialCapacity
  {
  }

  /** The home slot of a key: its character code modulo the capacity. */
  function Home(key: char, cap: int): (h: int)
    requires cap > 0
    ensures 0 <= h < cap
  {
    (key as int) % cap
  }

  /** The circular distance from slot `h` forward to slot `j`. */
  function Dist(h: int, j: int, cap: int): (d: int)
    requires 0 <= h < cap && 0 <= j < cap
    ensures 0 <= d < cap && (h + d == j || h + d == j + cap)
    ensures d == 0 <==> h == j
  {
    if h <= j then j - h else j + cap - h
  }

  /** Number of occupied slots. */
  function Count(s: Slots): (n: nat)
    ensures n <= |s|
  {
    if s == [] then 0 else Count(s[..|s| - 1]) + (if s[|s| - 1].Some? then 1 else 0)
  }

  /** The `d` slots starting at `h` (circularly) are all occupied. */
  ghost predicate PathFull(s: Slots, h: int, d: int)
    requires 0 <= h < |s|
  {
    forall j :: 0 <= j < |s| && Dist(h, j, |s|) < d ==> s[j].Some?
  }

  /** Every element records its true distance from home, that distance is at
      most `mpl`, and every slot between its home and its slot is occupied. */
  ghost predicate WellPlaced(s: Slots, mpl: int)
    requires |s| > 0
  {
    forall j {:trigger PlacedAt(s, j, s[j].value, mpl)} ::
      0 <= j < |s| && s[j].Some? ==> PlacedAt(s, j, s[j].value, mpl)
  }

  /** Element `x` may sit in slot `j`: it records its distance from home, which
      is at most `mpl`, and the slots before it on its path are occupied. */
  ghost predicate PlacedAt(s: Slots, j: int, x: Element, mpl: int)
    requires 0 <= j < |s|
  {
    x.probeLength == Dist(Home(x.key, |s|), j, |s|) && x.probeLength <= mpl &&
    PathFull(s, Home(x.key, |s|), x.probeLength)
  }

  /** `contents` and `where` describe the slots exactly: each key sits in the
      slot `where` names, with the child `contents` names, and nowhere else. */
  ghost predicate Indexed(s: Slots, contents: map<char, nat>, where: map<char, int>) {
    where.Keys == contents.Keys && (forall k :: k in where ==> 0 <= where[k] < |s|) &&
    (forall k {:trigger KeyAt(s, contents, where, k)} :: k in where ==> KeyAt(s, contents, where, k)) &&
    (forall j {:trigger SlotAt(s, where, j)} :: 0 <= j < |s| && s[j].Some? ==> SlotAt(s, where, j))
  }

  /** Key `k` sits in slot `where[k]` with its child. */
  ghost predicate KeyAt(s: Slots, contents: map<char, nat>, where: map<char, int>, k: char)
    requires k in where && where.Keys == contents.Keys && 0 <= where[k] < |s|
  {
    s[where[k]].Some? &&
    s[where[k]].value.key == k && s[where[k]].value.node == contents[k]
  }

  /** The key in slot `j` is recorded as sitting there. */
  ghost predicate SlotAt(s: Slots, where: map<char, int>, j: int)
    requires 0 <= j < |s| && s[j].Some?
  {
    s[j].value.key in where && where[s[j].value.key] == j
  }

  /** Every slot occupied in `s` is occupied in `t`. */
  ghost predicate OccupiedIn(s: Slots, t: Slots) {
    |s| == |t| && forall j :: 0 <= j < |s| && s[j].Some? ==> t[j].Some?
  }

  /** The state of the insertion loop: `cur` is the element being carried, it
      sits `probe` steps from its home at `index`, and the slots before it are
      occupied; the table keeps the occupancy of `occ`, whose slot `e` is empty. */
  ghost predicate Carrying(s: Slots, contents: map<char, nat>, where: map<char, int>, mpl: int,
                           cur: Element, index: int, probe: int, occ: Slots, e: int)
  {
    |s| == |occ| > 0 && 0 <= e < |s| && occ[e].None? &&
    OccupiedIn(s, occ) && OccupiedIn(occ, s) &&
    0 <= mpl < |s| && WellPlaced(s, mpl) && Indexed(s, contents, where) &&
    cur.key !in contents &&
    0 <= probe < |s| && 0 <= index < |s| &&
    Dist(Home(cur.key, |s|), index, |s|) == probe &&
    PathFull(s, Home(cur.key, |s|), probe)
  }

  lemma {:induction false} CountEmpty(n: nat)
    ensures Count(seq(n, _ => None)) == 0
  {
    if n > 0 {
      var s: Slots := seq(n, _ => None);
      assert s[..n - 1] == seq(n - 1, _ => None);
      CountEmpty(n - 1);
    }
  }

  lemma {:induction false} CountSameOccupancy(s: Slots, t: Slots)
    requires OccupiedIn(s, t) && OccupiedIn(t, s)
    ensures Count(s) == Count(t)
  {
    if s != [] {
      CountSameOccupancy(s[..|s| - 1], t[..|t| - 1]);
    }
  }

  lemma {:induction false} CountFill(s: Slots, i: int, x: Element)
    requires 0 <= i < |s| && s[i].None?
    ensures Count(s[i := Some(x)]) == Count(s) + 1
  {
    var t := s[i := Some(x)];
    if i < |s| - 1 {
      assert t[..|t| - 1] == s[..|s| - 1][i := Some(x)];
      CountFill(s[..|s| - 1], i, x);
    } else {
      assert t[..|t| - 1] == s[..|s| - 1];
    }
  }

  lemma {:induction false} CountPrefix(s: Slots, i: int)
    requires 0 <= i < |s|
    ensures Count(s[..i + 1]) == Count(s[..i]) + (if s[i].Some? then 1 else 0)
    ensures Count(s[..i + 1]) <= Count(s)
    decreases |s| - i
  {
    assert s[..i + 1][..i] == s[..i];
    if i + 1 < |s| {
      CountPrefix(s, i + 1);
    } else {
      assert s[..i + 1] == s;
    }
  }

  /** A table with fewer elements than slots has an empty slot. */
  lemma {:induction false} EmptySlotExists(s: Slots) returns (e: int)
    requires Count(s) < |s|
    ensures 0 <= e < |s| && s[e].None?
  {
    if s[|s| - 1].None? {
      e := |s| - 1;
    } else {
      e := EmptySlotExists(s[..|s| - 1]);
    }
  }

  /** Stepping past an occupied slot: the path grows by one and, because the
      table has an empty slot, the probe count stays below the capacity. */
  lemma Advance(s: Slots, h: int, index: int, p: int, e: int)
    requires 0 <= h < |s| && 0 <= index < |s| && 0 <= e < |s| && s[e].None?
    requires Dist(h, index, |s|) == p && PathFull(s, h, p) && s[index].Some?
    ensures p + 1 < |s| && PathFull(s, h, p + 1)
    ensures Dist(h, (index + 1) % |s|, |s|) == p + 1
  {
    NextSlot(index, |s|);
    assert Dist(h, e, |s|) != p;
    forall j | 0 <= j < |s| && Dist(h, j, |s|) < p + 1 ensures s[j].Some? {
      if Dist(h, j, |s|) == p {
        assert j == index;
      }
    }
  }

  /** Stepping forward from an occupied slot brings the walk closer to the
      empty slot `e`. */
  lemma Closer(index: int, e: int, cap: int)
    requires 0 <= index < cap && 0 <= e < cap && index != e
    ensures Dist((index + 1) % cap, e, cap) < Dist(index, e, cap)
  {
    NextSlot(index, cap);
  }

  /** `(i + 1) % cap` steps to the next slot, circularly. */
  lemma NextSlot(i: int, cap: int)
    requires 0 <= i < cap
    ensures (i + 1) % cap == if i + 1 == cap then 0 else i + 1
  {
  }

  /** Occupying more slots keeps every path full. */
  lemma PathFullGrows(s: Slots, t: Slots, h: int, d: int)
    requires 0 <= h < |s| && OccupiedIn(s, t) && PathFull(s, h, d)
    ensures PathFull(t, h, d)
  {
  }

  /** Putting a well-placed element into slot `i` keeps the table well placed,
      whether the slot was empty or its occupant is being displaced. */
  lemma WellPlacedPut(s: Slots, i: int, x: Element, mpl: int, mpl': int)
    requires 0 <= i < |s| && WellPlaced(s, mpl) && mpl <= mpl'
    requires PlacedAt(s, i, x, mpl')
    ensures WellPlaced(s[i := Some(x)], mpl')
  {
    var t := s[i := Some(x)];
    assert OccupiedIn(s, t);
    forall j | 0 <= j < |t| && t[j].Some? ensures PlacedAt(t, j, t[j].value, mpl') {
      var y := t[j].value;
      if j == i {
        assert PlacedAt(s, j, y, mpl');
      } else {
        assert PlacedAt(s, j, y, mpl);
      }
      PathFullGrows(s, t, Home(y.key, |s|), y.probeLength);
    }
  }

  /** A table whose slots are all empty is well placed and indexes nothing. */
  lemma EmptyTable(s: Slots)
    requires |s| > 0 && forall j :: 0 <= j < |s| ==> s[j].None?
    ensures WellPlaced(s, 0) && Indexed(s, map[], map[])
  {
  }

  /** A step of the corrected insertion loop that displaces the occupant of
      `index`: the carried element takes the slot, recording its true distance,
      and the occupant is carried on with its own distance. The primed
      parameters are the state after the step. */
  lemma StepSwap(s: Slots, contents: map<char, nat>, where: map<char, int>, mpl: int,
                 cur: Element, index: int, probe: int, occ: Slots, e: int,
                 s': Slots, contents': map<char, nat>, where': map<char, int>, mpl': int,
                 cur': Element, index': int, probe': int)
    requires Carrying(s, contents, where, mpl, cur, index, probe, occ, e)
    requires s[index].Some? && s[index].value.probeLength < probe
    requires s' == s[index := Some(Element(cur.key, probe, cur.node))]
    requires cur' == s[index].value
    requires contents' == (contents - {cur'.key})[cur.key := cur.node]
    requires where' == (where - {cur'.key})[cur.key := index]
    requires mpl' == (if mpl < probe then probe else mpl)
    requires index' == (index + 1) % |s| && probe' == cur'.probeLength + 1
    ensures Carrying(s', contents', where', mpl', cur', index', probe', occ, e)
    ensures contents'[cur'.key := cur'.node] == contents[cur.key := cur.node]
  {
    var cap := |s|;
    var o := cur';
    assert PlacedAt(s, index, o, mpl);
    var x := Element(cur.key, probe, cur.node);
    assert PlacedAt(s, index, x, mpl');
    WellPlacedPut(s, index, x, mpl, mpl');
    assert OccupiedIn(s, s') && OccupiedIn(s', s);
    IndexedSwap(s, contents, where, index, x);
    PathFullGrows(s, s', Home(o.key, cap), o.probeLength);
    Advance(s', Home(o.key, cap), index, o.probeLength, e);
    assert SlotAt(s, where, index) && KeyAt(s, contents, where, o.key);
    ReplaceKey(contents, o.key, cur.key, cur.node);
  }

  /** Taking key `a` out and putting key `b` in, then restoring `a`, is the
      same as adding `b`. */
  lemma ReplaceKey(m: map<char, nat>, a: char, b: char, v: nat)
    requires a in m && b !in m
    ensures ((m - {a})[b := v])[a := m[a]] == m[b := v]
  {
  }

  /** A step of the corrected insertion loop that passes the occupant by. */
  lemma StepPass(s: Slots, contents: map<char, nat>, where: map<char, int>, mpl: int,
                 cur: Element, index: int, probe: int, occ: Slots, e: int, index': int, probe': int)
    requires Carrying(s, contents, where, mpl, cur, index, probe, occ, e)
    requires s[index].Some? && index' == (index + 1) % |s| && probe' == probe + 1
    ensures Carrying(s, contents, where, mpl, cur, index', probe', occ, e)
  {
    Advance(s, Home(cur.key, |s|), index, probe, e);
  }

  /** Replacing the occupant of slot `i` by an element with a new key. */
  lemma IndexedSwap(s: Slots, contents: map<char, nat>, where: map<char, int>, i: int, x: Element)
    requires Indexed(s, contents, where) && 0 <= i < |s| && s[i].Some? && x.key !in contents
    ensures var o := s[i].value;
      o.key in contents &&
      Indexed(s[i := Some(x)], (contents - {o.key})[x.key := x.node], (where - {o.key})[x.key := i])
  {
    var o := s[i].value;
    var s', contents', where' := s[i := Some(x)], (contents - {o.key})[x.key := x.node], (where - {o.key})[x.key := i];
    assert SlotAt(s, where, i);
    forall k | k in where' ensures KeyAt(s', contents', where', k) {
      if k != x.key {
        assert KeyAt(s, contents, where, k);
      }
    }
    forall j | 0 <= j < |s'| && s'[j].Some? ensures SlotAt(s', where', j) {
      if j != i {
        assert SlotAt(s, where, j);
        assert KeyAt(s, contents, where, o.key);
      }
    }
  }

  /** Filling the empty slot `i` with an element with a new key. */
  lemma IndexedFill(s: Slots, contents: map<char, nat>, where: map<char, int>, i: int, x: Element)
    requires Indexed(s, contents, where) && 0 <= i < |s| && s[i].None? && x.key !in contents
    ensures Indexed(s[i := Some(x)], contents[x.key := x.node], where[x.key := i])
  {
    var s', contents', where' := s[i := Some(x)], contents[x.key := x.node], where[x.key := i];
    forall k | k in where' ensures KeyAt(s', contents', where', k) {
      if k != x.key {
        assert KeyAt(s, contents, where, k);
      }
    }
    forall j | 0 <= j < |s'| && s'[j].Some? ensures SlotAt(s', where', j) {
      if j != i {
        assert SlotAt(s, where, j);
      }
    }
  }

  /** Placing the carried element in the empty slot the loop stopped at. */
  lemma PlaceKeepsInvariant(s: Slots, contents: map<char, nat>, where: map<char, int>, mpl: int,
                            cur: Element, index: int, probe: int, occ: Slots, e: int)
    requires Carrying(s, contents, where, mpl, cur, index, probe, occ, e)
    requires s[index].None?
    ensures var s' := s[index := Some(Element(cur.key, probe, cur.node))];
      var mpl' := if mpl < probe then probe else mpl;
      WellPlaced(s', mpl') && 0 <= mpl' < |s'| &&
      Indexed(s', contents[cur.key := cur.node], where[cur.key := index]) &&
      Count(s') == Count(occ) + 1
  {
    var x := Element(cur.key, probe, cur.node);
    var mpl' := if mpl < probe then probe else mpl;
    assert PlacedAt(s, index, x, mpl');
    WellPlacedPut(s, index, x, mpl, mpl');
    IndexedFill(s, contents, where, index, x);
    CountFill(s, index, x);
    CountSameOccupancy(s, occ);
  }

  /** Walking past a slot that holds another key: a present key is still
      ahead, so the walk has not yet gone beyond `mpl`. */
  lemma ProbeStep(s: Slots, contents: map<char, nat>, where: map<char, int>, mpl: int,
                  key: char, index: int, probe: int)
    requires |s| > 0 && WellPlaced(s, mpl) && Indexed(s, contents, where) && 0 <= mpl < |s|
    requires 0 <= index < |s| && Dist(Home(key, |s|), index, |s|) == probe && probe <= mpl
    requires s[index].Some? && s[index].value.key != key
    requires key in where ==> probe <= Dist(Home(key, |s|), where[key], |s|)
    ensures key in where ==> probe + 1 <= Dist(Home(key, |s|), where[key], |s|) <= mpl
    ensures probe + 1 < |s| ==> Dist(Home(key, |s|), (index + 1) % |s|, |s|) == probe + 1
  {
    NextSlot(index, |s|);
    if key in where {
      FoundWithin(s, contents, where, mpl, key);
    }
  }

  /** A walk that reaches an empty slot before going beyond `mpl` has passed
      every slot a present key could occupy. */
  lemma ProbeStop(s: Slots, contents: map<char, nat>, where: map<char, int>, mpl: int,
                  key: char, index: int, probe: int)
    requires |s| > 0 && WellPlaced(s, mpl) && Indexed(s, contents, where)
    requires 0 <= index < |s| && Dist(Home(key, |s|), index, |s|) == probe
    requires s[index].None? || probe > mpl
    requires key in where ==> probe <= Dist(Home(key, |s|), where[key], |s|)
    ensures key !in where
  {
    if key in where {
      FoundWithin(s, contents, where, mpl, key);
    }
  }

  /** A present key lies within `mpl` of its home, on a full path. */
  lemma FoundWithin(s: Slots, contents: map<char, nat>, where: map<char, int>, mpl: int, key: char)
    requires |s| > 0 && WellPlaced(s, mpl) && Indexed(s, contents, where) && key in where
    ensures Dist(Home(key, |s|), where[key], |s|) <= mpl
    ensures PathFull(s, Home(key, |s|), Dist(Home(key, |s|), where[key], |s|))
    ensures s[where[key]].Some? && s[where[key]].value.key == key
  {
    assert KeyAt(s, contents, where, key);
    assert PlacedAt(s, where[key], s[where[key]].value, mpl);
  }

  /** The entries of `contents` whose slot lies below `i`: what a rehash has
      copied once it has replayed the first `i` slots. */
  ghost function Below(contents: map<char, nat>, where: map<char, int>, i: int): (m: map<char, nat>)
    requires where.Keys == contents.Keys
    ensures forall k :: k in m <==> k in contents && where[k] < i
    ensures forall k :: k in m ==> m[k] == contents[k]
  {
    map k | k in contents && where[k] < i :: contents[k]
  }

  /** Replaying slot `i` adds its element, if it has one, to what was copied. */
  lemma BelowStep(s: Slots, contents: map<char, nat>, where: map<char, int>, i: int)
    requires Indexed(s, contents, where) && 0 <= i < |s|
    ensures s[i].Some? ==> (s[i].value.key in contents && s[i].value.key !in Below(contents, where, i) &&
      Below(contents, where, i + 1) == Below(contents, where, i)[s[i].value.key := s[i].value.node])
    ensures s[i].None? ==> Below(contents, where, i + 1) == Below(contents, where, i)
  {
    if s[i].None? {
      forall k | k in where ensures where[k] != i {
        assert KeyAt(s, contents, where, k);
      }
    } else {
      assert SlotAt(s, where, i);
      assert KeyAt(s, contents, where, s[i].value.key);
      forall k | k in where && where[k] == i ensures k == s[i].value.key {
        assert KeyAt(s, contents, where, k);
      }
    }
  }

  /** Before any slot is replayed nothing is copied; after all of them,
      everything is. */
  lemma BelowEnds(s: Slots, contents: map<char, nat>, where: map<char, int>)
    requires Indexed(s, contents, where)
    ensures Below(contents, where, 0) == map[]
    ensures Below(contents, where, |s|) == contents
  {
  }

  class ChildTable {
    var table: array<Option<Element>>
    var capacity: int
    var size: int
    var maxProbeLength: int
    /** The key-to-child mapping the table stands for. */
    ghost var Contents: map<char, nat>
    /** The slot holding each key. */
    ghost var Where: map<char, int>

    ghost predicate Valid()
      reads this, table
    {
      table.Length == capacity && InSchedule(capacity) &&
      size == Count(table[..]) && size == |Contents| &&
      0 <= maxProbeLength < capacity &&
      WellPlaced(table[..], maxProbeLength) &&
      Indexed(table[..], Contents, Where)
    }

    constructor ()
      ensures Valid() && fresh(table)
      ensures Contents == map[] && capacity == InitialCapacity && size == 0 && maxProbeLength == 0
    {
      capacity := InitialCapacity;
      size := 0;
      maxProbeLength := 0;
      table := new Option<Element>[InitialCapacity](_ => None);
      Contents := map[];
      Where := map[];
      new;
      assert table[..] == seq(InitialCapacity, _ => None);
      CountEmpty(InitialCapacity);
      EmptyTable(table[..]);
    }

    /** The child stored under `key`, if any. The walk starts at the home slot
        and gives up at the first empty slot or once it has gone more than
        `maxProbeLength` steps. */
    method Search(key: char) returns (r: Option<nat>)
      requires Valid()
      ensures r == if key in Contents then Some(Contents[key]) else None
    {
      var index := key as int % capacity;
      var probe := 0;
      ghost var h := index;
      ghost var s := table[..];
      if key in Where {
        FoundWithin(s, Contents, Where, maxProbeLength, key);
      }
      while table[index].Some?
        invariant 0 <= probe <= maxProbeLength
        invariant 0 <= index < capacity && Dist(h, index, capacity) == probe
        invariant key in Where ==> probe <= Dist(h, Where[key], capacity)
        decreases maxProbeLength - probe
      {
        if table[index].value.key == key {
          assert SlotAt(s, Where, index) && KeyAt(s, Contents, Where, key);
          return Some(table[index].value.node);
        }
        ProbeStep(s, Contents, Where, maxProbeLength, key, index, probe);
        index := (index + 1) % capacity;
        probe := probe + 1;
        if probe > maxProbeLength {
          break;
        }
      }
      if key in Where {
        ProbeStop(s, Contents, Where, maxProbeLength, key, index, probe);
      }
      return None;
    }

    /** Adds `key` with its child: first grows the table once it is more than
        90% full, then walks from the home slot, swapping the carried element
        with any occupant that sits closer to its own home, until it reaches an
        empty slot. */
    method Insert(key: char, node: nat)
      requires Valid() && key !in Contents && |Contents| < AlphabetSize
      modifies this, table
      ensures Valid()
      ensures Contents == old(Contents)[key := node]
      ensures capacity == CapacityAfterInsert(old(size), old(capacity))
      ensures capacity == old(capacity) ==> table == old(table) && maxProbeLength >= old(maxProbeLength)
      ensures capacity != old(capacity) ==> fresh(table)
      decreases LastCapacity - capacity, 1
    {
      if 10 * size > 9 * capacity {
        Rehash();
      }
      Place(key, node);
    }

    /** The probing walk of `Insert`, once the table is known to have room. */
    method Place(key: char, node: nat)
      requires Valid() && key !in Contents && !NeedsRehash(size, capacity)
      modifies this, table
      ensures Valid()
      ensures Contents == old(Contents)[key := node]
      ensures table == old(table) && capacity == old(capacity)
      ensures maxProbeLength >= old(maxProbeLength)
    {
      assert Count(table[..]) < table.Length;
      ghost var occ := table[..];
      ghost var e := EmptySlotExists(occ);
      ghost var contents: map<char, nat>, where: map<char, int> := Contents, Where;
      var mpl := maxProbeLength;
      var cur := Element(key, 0, node);
      var index := key as int % capacity;
      var probe := 0;
      while table[index].Some?
        modifies table
        invariant Carrying(table[..], contents, where, mpl, cur, index, probe, occ, e)
        invariant contents[cur.key := cur.node] == Contents[key := node]
        invariant mpl >= maxProbeLength
        decreases Dist(index, e, capacity)
      {
        ghost var s := table[..];
        Closer(index, e, capacity);
        var current := table[index].value;
        if current.probeLength < probe {
          ghost var contents0, where0, mpl0, cur0, index0, probe0 := contents, where, mpl, cur, index, probe;
          table[index] := Some(Element(cur.key, probe, cur.node));
          mpl := if mpl < probe then probe else mpl;
          contents := (contents - {current.key})[cur.key := cur.node];
          where := (where - {current.key})[cur.key := index];
          cur := current;
          index := (index + 1) % capacity;
          probe := current.probeLength + 1;
          StepSwap(s, contents0, where0, mpl0, cur0, index0, probe0, occ, e,
                   table[..], contents, where, mpl, cur, index, probe);
        } else {
          ghost var index0, probe0 := index, probe;
          index := (index + 1) % capacity;
          probe := probe + 1;
          StepPass(s, contents, where, mpl, cur, index0, probe0, occ, e, index, probe);
        }
      }
      assert |contents| == size by {
        assert |contents[cur.key := cur.node]| == |contents| + 1;
        assert |Contents[key := node]| == |Contents| + 1;
      }
      Settle(cur, index, probe, mpl, contents, where, occ, e);
    }

    /** The end of the probing walk: the carried element goes into the empty
        slot the walk stopped at, and the size grows by one. */
    method Settle(cur: Element, index: int, probe: int, mpl: int,
                  ghost contents: map<char, nat>, ghost where: map<char, int>, ghost occ: Slots, ghost e: int)
      requires table.Length == capacity && InSchedule(capacity)
      requires Carrying(table[..], contents, where, mpl, cur, index, probe, occ, e)
      requires table[index].None? && size == Count(occ) && size == |contents|
      modifies this, table
      ensures Valid()
      ensures Contents == contents[cur.key := cur.node]
      ensures table == old(table) && capacity == old(capacity) && maxProbeLength >= mpl
    {
      ghost var s := table[..];
      PlaceKeepsInvariant(s, contents, where, mpl, cur, index, probe, occ, e);
      table[index] := Some(Element(cur.key, probe, cur.node));
      assert table[..] == s[index := Some(Element(cur.key, probe, cur.node))];
      Contents, Where := contents[cur.key := cur.node], where[cur.key := index];
      size := size + 1;
      maxProbeLength := if mpl < probe then probe else mpl;
    }

    /** The first half of a rehash: the next capacity of the schedule and a
        fresh, empty table of that size. */
    method Grow()
      requires InSchedule(capacity)
      modifies this
      ensures Valid() && fresh(table) && Contents == map[] && size == 0
      ensures capacity == NextCapacity(old(capacity))
    {
      capacity := NextCapacity(capacity);
      table := new Option<Element>[capacity](_ => None);
      size := 0;
      maxProbeLength := 0;
      Contents := map[];
      Where := map[];
      assert table[..] == seq(capacity, _ => None);
      CountEmpty(capacity);
      EmptyTable(table[..]);
    }

    /** Moves to the next capacity of the schedule and replays every element
        into a fresh table, in slot order. */
    method Rehash()
      requires Valid() && NeedsRehash(size, capacity) && size < AlphabetSize
      modifies this
      ensures Valid() && fresh(table)
      ensures Contents == old(Contents) && size == old(size)
      ensures capacity == NextCapacity(old(capacity)) && capacity > old(capacity)
      decreases LastCapacity - capacity, 0
    {
      var oldTable := table;
      ghost var oldSlots := table[..];
      ghost var oldContents := Contents;
      ghost var oldWhere := Where;
      ghost var oldCapacity := capacity;
      BelowEnds(oldSlots, oldContents, oldWhere);
      assert Indexed(oldSlots, oldContents, oldWhere) && Count(oldSlots) < AlphabetSize;
      assert 10 * oldCapacity <= 9 * NextCapacity(oldCapacity);
      Grow();
      ReplayAll(oldTable, oldSlots, oldContents, oldWhere);
    }

    /** The replay loop of a rehash: every slot of the old table, in order,
        is inserted into the new one. */
    method ReplayAll(oldTable: array<Option<Element>>,
                     ghost oldSlots: Slots, ghost oldContents: map<char, nat>, ghost oldWhere: map<char, int>)
      requires oldTable[..] == oldSlots && oldTable != table
      requires Indexed(oldSlots, oldContents, oldWhere) && Count(oldSlots) < AlphabetSize
      requires 10 * |oldSlots| <= 9 * capacity
      requires Valid() && size == 0 && Contents == map[] && Below(oldContents, oldWhere, 0) == map[]
      requires Below(oldContents, oldWhere, |oldSlots|) == oldContents
      modifies this, table
      ensures Valid() && Contents == oldContents && size == Count(oldSlots)
      ensures capacity == old(capacity) && table == old(table)
      decreases LastCapacity - capacity, 3
    {
      assert oldSlots[..0] == [];
      var i := 0;
      while i < oldTable.Length
        invariant 0 <= i <= oldTable.Length == |oldSlots|
        invariant oldTable[..] == oldSlots
        invariant Valid() && capacity == old(capacity) && table == old(table)
        invariant size == Count(oldSlots[..i])
        invariant Contents == Below(oldContents, oldWhere, i)
      {
        Replay(oldTable, i, oldSlots, oldContents, oldWhere);
        i := i + 1;
      }
      assert oldSlots[..i] == oldSlots;
    }

    /** One step of the replay loop of a rehash: the element in slot `i` of
        the old table, if any, is inserted into the new one. */
    method Replay(oldTable: array<Option<Element>>, i: int,
                  ghost oldSlots: Slots, ghost oldContents: map<char, nat>, ghost oldWhere: map<char, int>)
      requires 0 <= i < oldTable.Length && oldTable[..] == oldSlots && oldTable != table
      requires Indexed(oldSlots, oldContents, oldWhere) && Count(oldSlots) < AlphabetSize
      requires 10 * |oldSlots| <= 9 * capacity
      requires Valid() && size == Count(oldSlots[..i]) && Contents == Below(oldContents, oldWhere, i)
      modifies this, table
      ensures Valid() && size == Count(oldSlots[..i + 1]) && Contents == Below(oldContents, oldWhere, i + 1)
      ensures capacity == old(capacity) && table == old(table)
      decreases LastCapacity - capacity, 2
    {
      CountPrefix(oldSlots, i);
      BelowStep(oldSlots, oldContents, oldWhere, i);
      if oldTable[i].Some? {
        Insert(oldTable[i].value.key, oldTable[i].value.node);
      }
    }
  }
}
