/**
 * The insertion of the Robin Hood child table exactly as the repository
 * writes it, as pure functions over slot sequences. Two things differ from a
 * standard Robin Hood table: an element swapped into a slot keeps whatever
 * probe length it had (0 for a fresh element), and the displaced element goes
 * on with the probe count of the element that displaced it. Only the element
 * placed last gets its probe length set, and only that placement raises
 * `maxProbeLength`.
 *
 * The consequence exhibited here: an element can end up further from its home
 * than `maxProbeLength`, and the early exit of the search then misses it.
 */
module RobinHoodAsWritten {
  import opened Options
  import opened RobinHood

  /** A table value: its slots (the capacity is their number), the element
      count and the largest probe length recorded so far. */
  datatype Table = Table(slots: Slots, size: int, maxProbeLength: int)

  /** 1 when the slot holds `key` with child `node`, whatever its probe
      length, and 0 otherwise. */
  function Holds(o: Option<Element>, key: char, node: nat): nat {
    if o.Some? && o.value.key == key && o.value.node == node then 1 else 0
  }

  /** How many slots hold `key` with child `node`. */
  function Count(s: Slots, key: char, node: nat): nat {
    if s == [] then 0 else Count(s[..|s| - 1], key, node) + Holds(s[|s| - 1], key, node)
  }

  /** Overwriting a slot trades what it held for the new element. */
  lemma {:induction false} CountUpdate(s: Slots, i: int, x: Option<Element>, key: char, node: nat)
    requires 0 <= i < |s|
    ensures Count(s[i := x], key, node) + Holds(s[i], key, node) == Count(s, key, node) + Holds(x, key, node)
    decreases |s|
  {
    var n := |s| - 1;
    var t := s[i := x];
    if i == n {
      assert t[..n] == s[..n];
    } else {
      assert t[..n] == s[..n][i := x] && t[n] == s[n] && s[..n][i] == s[i];
      CountUpdate(s[..n], i, x, key, node);
    }
  }

  function Fresh(capacity: nat): (t: Table)
    ensures |t.slots| == capacity && t.size == 0 && t.maxProbeLength == 0
    ensures forall j :: 0 <= j < capacity ==> t.slots[j].None?
  {
    Table(seq(capacity, _ => None), 0, 0)
  }

  /** The probing loop as written: at an occupied slot whose occupant records
      a probe length below the running count, the carried element takes the
      slot unchanged and the occupant is carried on; the count goes on either
      way. Returns the slots, the empty slot reached, the element left to
      place and the final count, or None once `fuel` steps have not reached an
      empty slot. */
  function Walk(s: Slots, carried: Element, index: int, probe: int, fuel: nat):
    (r: Option<(Slots, int, Element, int)>)
    requires 0 <= index < |s|
    ensures r.Some? ==> |r.value.0| == |s| && 0 <= r.value.1 < |s| && r.value.0[r.value.1].None?
    ensures r.Some? ==> forall j :: 0 <= j < |s| ==> (s[j].Some? <==> r.value.0[j].Some?)
    decreases fuel
  {
    if s[index].None? then Some((s, index, carried, probe))
    else if fuel == 0 then None
    else
      var current := s[index].value;
      if current.probeLength < probe then
        Walk(s[index := Some(carried)], current, (index + 1) % |s|, probe + 1, fuel - 1)
      else
        Walk(s, carried, (index + 1) % |s|, probe + 1, fuel - 1)
  }

  /** Insertion as written, once the table needs no rehash: a fresh element
      with probe length 0 starts at the home slot; the element left over is
      placed with the final count as its probe length. */
  function Place(t: Table, key: char, node: nat): (r: Option<Table>)
    requires |t.slots| > 0
    ensures r.Some? ==> |r.value.slots| == |t.slots| && r.value.size == t.size + 1
    ensures r.Some? ==> r.value.maxProbeLength >= t.maxProbeLength
  {
    match Walk(t.slots, Element(key, 0, node), Home(key, |t.slots|), 0, |t.slots|)
    case None => None
    case Some((s, index, last, probe)) =>
      Some(Table(s[index := Some(Element(last.key, probe, last.node))], t.size + 1,
                 if t.maxProbeLength < probe then probe else t.maxProbeLength))
  }

  /** The probing walk as written neither loses nor invents a (key, child)
      pair: the slots it leaves and the element it still carries hold exactly
      the pairs it started from. */
  lemma {:induction false} WalkKeepsPairs(s: Slots, carried: Element, index: int, probe: int, fuel: nat,
                                          key: char, node: nat)
    requires 0 <= index < |s|
    ensures var r := Walk(s, carried, index, probe, fuel);
      r.Some? ==> Count(r.value.0, key, node) + Holds(Some(r.value.2), key, node) ==
                  Count(s, key, node) + Holds(Some(carried), key, node)
    decreases fuel
  {
    if s[index].Some? && fuel > 0 {
      var current := s[index].value;
      var next := (index + 1) % |s|;
      if current.probeLength < probe {
        CountUpdate(s, index, Some(carried), key, node);
        WalkKeepsPairs(s[index := Some(carried)], current, next, probe + 1, fuel - 1, key, node);
      } else {
        WalkKeepsPairs(s, carried, next, probe + 1, fuel - 1, key, node);
      }
    }
  }

  /** The insertion as written does store the new key with its child: the
      slots afterwards hold every old (key, child) pair as often as before,
      and the new pair once more. */
  lemma PlaceStores(t: Table, key: char, node: nat)
    requires |t.slots| > 0
    ensures var r := Place(t, key, node);
      r.Some? ==> forall k, m {:trigger Count(r.value.slots, k, m)} ::
        Count(r.value.slots, k, m) == Count(t.slots, k, m) + (if k == key && m == node then 1 else 0)
  {
    var x := Element(key, 0, node);
    var w := Walk(t.slots, x, Home(key, |t.slots|), 0, |t.slots|);
    if w.Some? {
      var (s, index, last, probe) := w.value;
      forall k, m ensures Count(s[index := Some(Element(last.key, probe, last.node))], k, m) ==
                          Count(t.slots, k, m) + (if k == key && m == node then 1 else 0) {
        WalkKeepsPairs(t.slots, x, Home(key, |t.slots|), 0, |t.slots|, k, m);
        CountUpdate(s, index, Some(Element(last.key, probe, last.node)), k, m);
      }
    }
  }

  /** The search as written: from the home slot, stop at an empty slot, at the
      key, or once the count has gone past `maxProbeLength`. */
  function Search(t: Table, key: char): (r: Option<nat>)
    requires |t.slots| > 0
    ensures r.Some? ==> exists j :: (0 <= j < |t.slots| && t.slots[j].Some? &&
      t.slots[j].value.key == key && t.slots[j].value.node == r.value)
  {
    SearchFrom(t, key, Home(key, |t.slots|), 0)
  }

  function SearchFrom(t: Table, key: char, index: int, probe: nat): (r: Option<nat>)
    requires 0 <= index < |t.slots|
    ensures r.Some? ==> exists j :: (0 <= j < |t.slots| && t.slots[j].Some? &&
      t.slots[j].value.key == key && t.slots[j].value.node == r.value)
    decreases t.maxProbeLength - probe
  {
    if t.slots[index].None? then None
    else if t.slots[index].value.key == key then Some(t.slots[index].value.node)
    else if probe + 1 > t.maxProbeLength then None
    else SearchFrom(t, key, (index + 1) % |t.slots|, probe + 1)
  }

  // The five tables of the example below, after each insertion.
  const W: Element := Element('w', 0, 1)
  const O: Element := Element('o', 0, 2)
  const T1: Table := Table([None, None, None, None, Some(W)], 1, 0)
  const T2: Table := Table([None, Some(O), None, None, Some(W)], 2, 0)
  const T3: Table := Table([Some(Element('m', 1, 3)), Some(O), None, None, Some(W)], 3, 1)
  const T4: Table := Table([Some(Element('m', 1, 3)), Some(Element('r', 0, 4)), Some(Element('o', 3, 2)),
                            None, Some(W)], 4, 3)
  const T5: Table := Table([Some(Element('m', 1, 3)), Some(Element('x', 0, 5)), Some(Element('o', 3, 2)),
                            Some(Element('r', 3, 4)), Some(W)], 5, 3)

  lemma PlaceW()
    ensures Place(Fresh(5), 'w', 1) == Some(T1)
  {
    var s0: Slots := [None, None, None, None, None];
    assert Fresh(5).slots == s0;
    assert 'w' as int == 119 && Home('w', 5) == 4;
    assert Walk(s0, W, 4, 0, 5) == Some((s0, 4, W, 0));
    assert s0[4 := Some(W)] == T1.slots;
  }

  lemma PlaceO()
    ensures Place(T1, 'o', 2) == Some(T2)
  {
    assert 'o' as int == 111 && Home('o', 5) == 1;
    assert Walk(T1.slots, O, 1, 0, 5) == Some((T1.slots, 1, O, 0));
    assert T1.slots[1 := Some(O)] == T2.slots;
  }

  lemma PlaceM()
    ensures Place(T2, 'm', 3) == Some(T3)
  {
    var m := Element('m', 0, 3);
    assert 'm' as int == 109 && Home('m', 5) == 4;
    assert Walk(T2.slots, m, 0, 1, 4) == Some((T2.slots, 0, m, 1));
    assert Walk(T2.slots, m, 4, 0, 5) == Some((T2.slots, 0, m, 1));
    assert T2.slots[0 := Some(Element('m', 1, 3))] == T3.slots;
  }

  lemma PlaceR()
    ensures Place(T3, 'r', 4) == Some(T4)
  {
    var r := Element('r', 0, 4);
    var s := T3.slots[1 := Some(r)];
    assert 'r' as int == 114 && Home('r', 5) == 4;
    assert Walk(s, O, 2, 3, 2) == Some((s, 2, O, 3));
    assert Walk(T3.slots, r, 1, 2, 3) == Some((s, 2, O, 3));
    assert Walk(T3.slots, r, 0, 1, 4) == Some((s, 2, O, 3));
    assert Walk(T3.slots, r, 4, 0, 5) == Some((s, 2, O, 3));
    assert s[2 := Some(Element('o', 3, 2))] == T4.slots;
  }

  lemma PlaceX()
    ensures Place(T4, 'x', 5) == Some(T5)
  {
    var x, r := Element('x', 0, 5), Element('r', 0, 4);
    var s := T4.slots[1 := Some(x)];
    assert 'x' as int == 120 && Home('x', 5) == 0;
    assert Walk(s, r, 3, 3, 2) == Some((s, 3, r, 3));
    assert Walk(s, r, 2, 2, 3) == Some((s, 3, r, 3));
    assert Walk(T4.slots, x, 1, 1, 4) == Some((s, 3, r, 3));
    assert Walk(T4.slots, x, 0, 0, 5) == Some((s, 3, r, 3));
    assert s[3 := Some(Element('r', 3, 4))] == T5.slots;
  }

  /** Inserting w, o, m, r, x (codes 119, 111, 109, 114, 120; homes 4, 1, 4,
      4, 0 in a table of five slots) as written leaves 'r' in slot 3, four
      steps from its home, while `maxProbeLength` is 3; the search for 'r'
      gives up one step short of it. No rehash happens on the way, since the
      table never holds more than 4 elements before an insertion. */
  lemma SearchMissesPlacedKey()
    ensures var t1 := Place(Fresh(5), 'w', 1);
      t1.Some? && var t2 := Place(t1.value, 'o', 2);
      t2.Some? && var t3 := Place(t2.value, 'm', 3);
      t3.Some? && var t4 := Place(t3.value, 'r', 4);
      t4.Some? && var t5 := Place(t4.value, 'x', 5);
      t5.Some? && !NeedsRehash(t4.value.size, 5) &&
      t5.value.slots[3] == Some(Element('r', 3, 4)) &&
      Dist(Home('r', 5), 3, 5) == 4 && t5.value.maxProbeLength == 3 &&
      Search(t5.value, 'r') == None
  {
    PlaceW();
    PlaceO();
    PlaceM();
    PlaceR();
    PlaceX();
    assert 'r' as int == 114 && Home('r', 5) == 4;
    assert SearchFrom(T5, 'r', 2, 3) == None;
    assert SearchFrom(T5, 'r', 1, 2) == None;
    assert SearchFrom(T5, 'r', 0, 1) == None;
    assert SearchFrom(T5, 'r', 4, 0) == None;
  }
}
