/**
 * The keys object of the map, as values: the index table `idx` (one slot per
 * bucket, holding an entry index or a sentinel) and the used prefix `ents` of
 * the entry array (one cell per entry ever written since the last rebuild, a
 * deleted one left Vacant).
 *
 * `Consistent` ties the two to the abstract name -> position map `m`. Two ghost
 * maps say where each name lives: `where[k]` is the cell of its entry, and
 * `steps[k]` the number of probe steps after which its hash reaches the slot
 * that holds that cell. The lemmas below are the four ways the map changes the
 * table: a fresh, empty table; binding a new name to a free slot; overwriting a
 * stored position; deleting a name; and shifting positions after a deletion.
 */
module IndexTable {
  import opened Probing
  import opened Positions

  /** The slot was never used: a probe for a name stops here. */
  const MAPIX_EMPTY: int := -1
  /** The slot was used and its entry deleted: a probe goes on past it. */
  const MAPIX_DUMMY: int := -2
  /** Reserved for lookup failures other than absence; never stored in a slot. */
  const MAPIX_ERROR: int := -3

  /** A cached hash, as the bit pattern of an unsigned 64-bit word. */
  type Hash = h: int | 0 <= h < 0x1_0000_0000_0000_0000

  /** A cell of the entry array: the cached hash, the name and its position, or a deleted cell. */
  datatype Entry = Vacant | Live(hash: Hash, key: Name, value: int)

  /** The slots that are not EMPTY. */
  function Filled(idx: seq<int>): set<nat>
  {
    set s: nat | s < |idx| && idx[s] != MAPIX_EMPTY
  }

  /** Every slot is a sentinel or the index of a written cell. */
  ghost predicate SlotsInRange(idx: seq<int>, n: nat)
  {
    forall s | 0 <= s < |idx| :: idx[s] == MAPIX_EMPTY || idx[s] == MAPIX_DUMMY || 0 <= idx[s] < n
  }

  /** Each name has its own live cell, holding its cached hash and its position. */
  ghost predicate CellsMatch(hashOf: Name -> Hash, ents: seq<Entry>, m: map<Name, int>, where: map<Name, nat>)
  {
    (forall k | k in m :: k in where && where[k] < |ents| && ents[where[k]] == Live(hashOf(k), k, m[k])) &&
    (forall i | 0 <= i < |ents| && ents[i].Live? :: ents[i].key in m && ents[i].key in where && where[ents[i].key] == i)
  }

  /** Each name's probe sequence reaches the slot of its cell without passing an EMPTY slot. */
  ghost predicate ChainsReach(hashOf: Name -> Hash, idx: seq<int>, m: map<Name, int>, where: map<Name, nat>, steps: map<Name, nat>)
    requires |idx| > 0
  {
    (forall k | k in m :: k in where && k in steps && idx[Probe(hashOf(k), |idx|, steps[k])] == where[k]) &&
    (forall k, j: nat | k in m && k in steps && j < steps[k] :: idx[Probe(hashOf(k), |idx|, j)] != MAPIX_EMPTY)
  }

  /** A slot holding a cell is the slot its name's probe sequence reaches, so no two slots share a cell. */
  ghost predicate SlotsOwned(hashOf: Name -> Hash, idx: seq<int>, ents: seq<Entry>, steps: map<Name, nat>)
    requires |idx| > 0 && SlotsInRange(idx, |ents|)
  {
    forall s | 0 <= s < |idx| && idx[s] >= 0 ::
      ents[idx[s]].Live? && ents[idx[s]].key in steps &&
      Probe(hashOf(ents[idx[s]].key), |idx|, steps[ents[idx[s]].key]) == s
  }

  ghost predicate Consistent(hashOf: Name -> Hash, idx: seq<int>, ents: seq<Entry>,
                             m: map<Name, int>, where: map<Name, nat>, steps: map<Name, nat>)
  {
    |idx| > 0 &&
    SlotsInRange(idx, |ents|) &&
    // a slot is filled only by a write, so at least one slot stays EMPTY while |ents| < |idx|
    |Filled(idx)| <= |ents| &&
    m.Keys == where.Keys && m.Keys == steps.Keys &&
    CellsMatch(hashOf, ents, m, where) &&
    ChainsReach(hashOf, idx, m, where, steps) &&
    SlotsOwned(hashOf, idx, ents, steps)
  }

  /** While fewer cells are written than there are slots, some slot is EMPTY. */
  lemma EmptySlot(idx: seq<int>, bound: nat) returns (s: nat)
    requires |Filled(idx)| <= bound < |idx|
    ensures s < |idx| && idx[s] == MAPIX_EMPTY
  {
    var all := Below(|idx|);
    assert Filled(idx) <= all;
    assert |all - Filled(idx)| == |all| - |Filled(idx)| > 0;
    var t :| t in all - Filled(idx);
    s := t;
  }

  /** An empty map is a table of EMPTY slots with no cell written. */
  lemma ConsistentEmpty(hashOf: Name -> Hash, idx: seq<int>)
    requires |idx| > 0 && forall s | 0 <= s < |idx| :: idx[s] == MAPIX_EMPTY
    ensures Consistent(hashOf, idx, [], map[], map[], map[])
  {
    assert Filled(idx) == {};
  }

  /** Filling a slot grows the filled set by at most that slot. */
  lemma FilledUpdate(idx: seq<int>, s: nat, v: int)
    requires s < |idx| && v != MAPIX_EMPTY
    ensures |Filled(idx[s := v])| <= |Filled(idx)| + 1
    ensures idx[s] != MAPIX_EMPTY ==> |Filled(idx[s := v])| == |Filled(idx)|
  {
    if idx[s] == MAPIX_EMPTY {
      assert Filled(idx[s := v]) == Filled(idx) + {s};
    } else {
      assert Filled(idx[s := v]) == Filled(idx);
    }
  }

  lemma InsertCells(hashOf: Name -> Hash, ents: seq<Entry>, m: map<Name, int>, where: map<Name, nat>,
                    key: Name, value: int)
    requires CellsMatch(hashOf, ents, m, where) && key !in m
    ensures CellsMatch(hashOf, ents + [Live(hashOf(key), key, value)], m[key := value], where[key := |ents|])
  {
    var ents', m', where' := ents + [Live(hashOf(key), key, value)], m[key := value], where[key := |ents|];
    forall i | 0 <= i < |ents'| && ents'[i].Live?
      ensures ents'[i].key in m' && ents'[i].key in where' && where'[ents'[i].key] == i
    {
      if i < |ents| {
        assert ents'[i] == ents[i];
      }
    }
  }

  lemma InsertChains(hashOf: Name -> Hash, idx: seq<int>, m: map<Name, int>, where: map<Name, nat>, steps: map<Name, nat>,
                     key: Name, value: int, j: nat, n: nat)
    requires |idx| > 0 && ChainsReach(hashOf, idx, m, where, steps) && key !in m
    requires forall k | k in m :: where[k] != n
    requires idx[Probe(hashOf(key), |idx|, j)] < 0
    requires forall j': nat | j' < j :: idx[Probe(hashOf(key), |idx|, j')] >= 0
    ensures ChainsReach(hashOf, idx[Probe(hashOf(key), |idx|, j) := n], m[key := value], where[key := n], steps[key := j])
  {
    var s := Probe(hashOf(key), |idx|, j);
    var idx', m', where', steps' := idx[s := n], m[key := value], where[key := n], steps[key := j];
    assert |idx'| == |idx|;
    forall k | k in m'
      ensures k in where' && k in steps' && idx'[Probe(hashOf(k), |idx|, steps'[k])] == where'[k]
    {
      if k != key {
        assert idx[Probe(hashOf(k), |idx|, steps[k])] == where[k] >= 0;
      }
    }
    forall k, j': nat | k in m' && k in steps' && j' < steps'[k]
      ensures idx'[Probe(hashOf(k), |idx|, j')] != MAPIX_EMPTY
    {
      if k != key {
        assert idx[Probe(hashOf(k), |idx|, j')] != MAPIX_EMPTY;
      } else {
        assert idx[Probe(hashOf(k), |idx|, j')] >= 0;
      }
    }
  }

  lemma InsertOwned(hashOf: Name -> Hash, idx: seq<int>, ents: seq<Entry>, steps: map<Name, nat>,
                    key: Name, value: int, j: nat)
    requires |idx| > 0 && SlotsInRange(idx, |ents|) && SlotsOwned(hashOf, idx, ents, steps) && key !in steps
    requires idx[Probe(hashOf(key), |idx|, j)] < 0
    ensures SlotsInRange(idx[Probe(hashOf(key), |idx|, j) := |ents|], |ents| + 1)
    ensures SlotsOwned(hashOf, idx[Probe(hashOf(key), |idx|, j) := |ents|], ents + [Live(hashOf(key), key, value)], steps[key := j])
  {
    var s := Probe(hashOf(key), |idx|, j);
    var idx', ents', steps' := idx[s := |ents|], ents + [Live(hashOf(key), key, value)], steps[key := j];
    forall t | 0 <= t < |idx'| && idx'[t] >= 0
      ensures ents'[idx'[t]].Live? && ents'[idx'[t]].key in steps' &&
              Probe(hashOf(ents'[idx'[t]].key), |idx'|, steps'[ents'[idx'[t]].key]) == t
    {
      if t != s {
        assert idx'[t] == idx[t] && ents'[idx[t]] == ents[idx[t]];
      }
    }
  }

  /**
   * Binding an absent name: its entry is appended, and the first slot of its
   * probe sequence that holds no entry (EMPTY or DUMMY) now holds the new cell.
   */
  lemma InsertFresh(hashOf: Name -> Hash, idx: seq<int>, ents: seq<Entry>,
                    m: map<Name, int>, where: map<Name, nat>, steps: map<Name, nat>,
                    key: Name, value: int, j: nat)
    requires Consistent(hashOf, idx, ents, m, where, steps) && key !in m
    requires idx[Probe(hashOf(key), |idx|, j)] < 0
    requires forall j': nat | j' < j :: idx[Probe(hashOf(key), |idx|, j')] >= 0
    ensures Consistent(hashOf, idx[Probe(hashOf(key), |idx|, j) := |ents|], ents + [Live(hashOf(key), key, value)],
                       m[key := value], where[key := |ents|], steps[key := j])
  {
    var s := Probe(hashOf(key), |idx|, j);
    var idx', ents' := idx[s := |ents|], ents + [Live(hashOf(key), key, value)];
    var m', where', steps' := m[key := value], where[key := |ents|], steps[key := j];
    assert |Filled(idx')| <= |ents'| by {
      FilledUpdate(idx, s, |ents|);
    }
    assert m'.Keys == where'.Keys && m'.Keys == steps'.Keys;
    assert CellsMatch(hashOf, ents', m', where') by {
      InsertCells(hashOf, ents, m, where, key, value);
    }
    assert ChainsReach(hashOf, idx', m', where', steps') by {
      InsertChains(hashOf, idx, m, where, steps, key, value, j, |ents|);
    }
    assert SlotsInRange(idx', |ents'|) && SlotsOwned(hashOf, idx', ents', steps') by {
      InsertOwned(hashOf, idx, ents, steps, key, value, j);
    }
  }

  /** Overwriting the position of a bound name leaves the slots as they are. */
  lemma Overwrite(hashOf: Name -> Hash, idx: seq<int>, ents: seq<Entry>,
                  m: map<Name, int>, where: map<Name, nat>, steps: map<Name, nat>,
                  key: Name, value: int)
    requires Consistent(hashOf, idx, ents, m, where, steps) && key in m
    ensures Consistent(hashOf, idx, ents[where[key] := Live(hashOf(key), key, value)], m[key := value], where, steps)
  {
    var ents', m' := ents[where[key] := Live(hashOf(key), key, value)], m[key := value];
    assert m'.Keys == m.Keys;
    OverwriteCells(hashOf, ents, m, where, key, value);
    OverwriteOwned(hashOf, idx, ents, m, where, steps, key, value);
    assert ChainsReach(hashOf, idx, m', where, steps);
  }

  lemma OverwriteCells(hashOf: Name -> Hash, ents: seq<Entry>, m: map<Name, int>, where: map<Name, nat>, key: Name, value: int)
    requires CellsMatch(hashOf, ents, m, where) && key in m
    ensures CellsMatch(hashOf, ents[where[key] := Live(hashOf(key), key, value)], m[key := value], where)
  {
    var ents', m' := ents[where[key] := Live(hashOf(key), key, value)], m[key := value];
    forall i | 0 <= i < |ents'| && ents'[i].Live?
      ensures ents'[i].key in m' && ents'[i].key in where && where[ents'[i].key] == i
    {
      if i != where[key] {
        assert ents'[i] == ents[i];
      }
    }
  }

  lemma OverwriteOwned(hashOf: Name -> Hash, idx: seq<int>, ents: seq<Entry>,
                       m: map<Name, int>, where: map<Name, nat>, steps: map<Name, nat>, key: Name, value: int)
    requires |idx| > 0 && SlotsInRange(idx, |ents|) && SlotsOwned(hashOf, idx, ents, steps)
    requires CellsMatch(hashOf, ents, m, where) && key in m
    ensures SlotsInRange(idx, |ents|) && SlotsOwned(hashOf, idx, ents[where[key] := Live(hashOf(key), key, value)], steps)
  {
    var ents' := ents[where[key] := Live(hashOf(key), key, value)];
    forall s | 0 <= s < |idx| && idx[s] >= 0
      ensures ents'[idx[s]].Live? && ents'[idx[s]].key in steps &&
              Probe(hashOf(ents'[idx[s]].key), |idx|, steps[ents'[idx[s]].key]) == s
    {
      if idx[s] != where[key] {
        assert ents'[idx[s]] == ents[idx[s]];
      }
    }
  }

  lemma RemoveCells(hashOf: Name -> Hash, ents: seq<Entry>, m: map<Name, int>, where: map<Name, nat>, key: Name)
    requires CellsMatch(hashOf, ents, m, where) && key in m
    ensures forall k | k in m - {key} :: where[k] != where[key]
    ensures CellsMatch(hashOf, ents[where[key] := Vacant], m - {key}, where - {key})
  {
    forall k | k in m - {key}
      ensures where[k] != where[key]
    {
      assert ents[where[k]].key == k;
    }
    var ents', m', where' := ents[where[key] := Vacant], m - {key}, where - {key};
    forall i | 0 <= i < |ents'| && ents'[i].Live?
      ensures ents'[i].key in m' && ents'[i].key in where' && where'[ents'[i].key] == i
    {
      assert ents'[i] == ents[i];
    }
  }

  lemma RemoveOwned(hashOf: Name -> Hash, idx: seq<int>, ents: seq<Entry>, steps: map<Name, nat>, key: Name, w: nat)
    requires |idx| > 0 && SlotsInRange(idx, |ents|) && SlotsOwned(hashOf, idx, ents, steps)
    requires key in steps && w < |ents| && idx[Probe(hashOf(key), |idx|, steps[key])] == w
    ensures SlotsInRange(idx[Probe(hashOf(key), |idx|, steps[key]) := MAPIX_DUMMY], |ents|)
    ensures SlotsOwned(hashOf, idx[Probe(hashOf(key), |idx|, steps[key]) := MAPIX_DUMMY], ents[w := Vacant], steps - {key})
  {
    var s := Probe(hashOf(key), |idx|, steps[key]);
    var idx', ents', steps' := idx[s := MAPIX_DUMMY], ents[w := Vacant], steps - {key};
    forall t | 0 <= t < |idx'| && idx'[t] >= 0
      ensures ents'[idx'[t]].Live? && ents'[idx'[t]].key in steps' &&
              Probe(hashOf(ents'[idx'[t]].key), |idx'|, steps'[ents'[idx'[t]].key]) == t
    {
      assert t != s && idx'[t] == idx[t];
      assert idx[t] != w;
      assert ents'[idx[t]] == ents[idx[t]];
    }
  }

  lemma RemoveChains(hashOf: Name -> Hash, idx: seq<int>, m: map<Name, int>, where: map<Name, nat>, steps: map<Name, nat>,
                     key: Name)
    requires |idx| > 0 && ChainsReach(hashOf, idx, m, where, steps) && key in m
    requires forall k | k in m - {key} :: where[k] != where[key]
    ensures ChainsReach(hashOf, idx[Probe(hashOf(key), |idx|, steps[key]) := MAPIX_DUMMY], m - {key}, where - {key}, steps - {key})
  {
  }

  /** Deleting a bound name: its slot becomes DUMMY and its cell Vacant. */
  lemma Remove(hashOf: Name -> Hash, idx: seq<int>, ents: seq<Entry>,
               m: map<Name, int>, where: map<Name, nat>, steps: map<Name, nat>,
               key: Name)
    requires Consistent(hashOf, idx, ents, m, where, steps) && key in m
    ensures Consistent(hashOf, idx[Probe(hashOf(key), |idx|, steps[key]) := MAPIX_DUMMY], ents[where[key] := Vacant],
                       m - {key}, where - {key}, steps - {key})
  {
    var s := Probe(hashOf(key), |idx|, steps[key]);
    var idx', ents' := idx[s := MAPIX_DUMMY], ents[where[key] := Vacant];
    var m', where', steps' := m - {key}, where - {key}, steps - {key};
    assert |Filled(idx')| <= |ents'| by {
      assert idx[s] == where[key];
      FilledUpdate(idx, s, MAPIX_DUMMY);
    }
    assert m'.Keys == where'.Keys && m'.Keys == steps'.Keys;
    assert CellsMatch(hashOf, ents', m', where') && forall k | k in m' :: where[k] != where[key] by {
      RemoveCells(hashOf, ents, m, where, key);
    }
    assert SlotsInRange(idx', |ents'|) && SlotsOwned(hashOf, idx', ents', steps') by {
      RemoveOwned(hashOf, idx, ents, steps, key, where[key]);
    }
    assert ChainsReach(hashOf, idx', m', where', steps') by {
      RemoveChains(hashOf, idx, m, where, steps, key);
    }
  }

  /** A probe for name `key` with hash `h` goes on past slot `s`: the slot is not EMPTY and does not hold that name's entry. */
  ghost predicate PassesSlot(idx: seq<int>, ents: seq<Entry>, h: Hash, key: Name, s: nat)
  {
    s < |idx| && idx[s] != MAPIX_EMPTY &&
    (0 <= idx[s] < |ents| ==> !(ents[idx[s]].Live? && ents[idx[s]].hash == h && ents[idx[s]].key == key))
  }

  /**
   * Where the probe loop stops says whether the name is bound: a probe that
   * passed every slot before step `j` and stops there, at an EMPTY slot or at
   * the name's own entry, has found the name's entry if it is bound and an
   * EMPTY slot if it is not.
   */
  lemma ProbeStops(hashOf: Name -> Hash, idx: seq<int>, ents: seq<Entry>,
                   m: map<Name, int>, where: map<Name, nat>, steps: map<Name, nat>,
                   key: Name, j: nat)
    requires Consistent(hashOf, idx, ents, m, where, steps)
    requires forall j': nat | j' < j :: PassesSlot(idx, ents, hashOf(key), key, Probe(hashOf(key), |idx|, j'))
    requires idx[Probe(hashOf(key), |idx|, j)] == MAPIX_EMPTY ||
             (0 <= idx[Probe(hashOf(key), |idx|, j)] < |ents| && ents[idx[Probe(hashOf(key), |idx|, j)]].Live? &&
              ents[idx[Probe(hashOf(key), |idx|, j)]].key == key)
    ensures key in m ==> idx[Probe(hashOf(key), |idx|, j)] == where[key] &&
                         Probe(hashOf(key), |idx|, j) == Probe(hashOf(key), |idx|, steps[key])
    ensures key in m ==> where[key] < |ents| && ents[where[key]] == Live(hashOf(key), key, m[key])
    ensures key !in m ==> idx[Probe(hashOf(key), |idx|, j)] == MAPIX_EMPTY
  {
    var h := hashOf(key);
    var s := Probe(h, |idx|, j);
    if key in m {
      var k := steps[key];
      var w := where[key];
      assert ents[w] == Live(h, key, m[key]);
      if idx[s] == MAPIX_EMPTY {
        if j < k {
          assert false;
        } else if j > k {
          assert false;
        }
      }
    }
  }

  /** A cell after the positions above `p` moved down by one. */
  function ShiftEntry(e: Entry, p: int): Entry
  {
    if e.Live? && e.value > p then e.(value := e.value - 1) else e
  }

  lemma ShiftCells(hashOf: Name -> Hash, ents: seq<Entry>, ents': seq<Entry>, m: map<Name, int>, where: map<Name, nat>, p: int)
    requires CellsMatch(hashOf, ents, m, where)
    requires |ents'| == |ents| && forall i | 0 <= i < |ents| :: ents'[i] == ShiftEntry(ents[i], p)
    ensures CellsMatch(hashOf, ents', ShiftDown(m, p), where)
  {
    var m' := ShiftDown(m, p);
    forall k | k in m'
      ensures k in where && where[k] < |ents'| && ents'[where[k]] == Live(hashOf(k), k, m'[k])
    {
    }
    forall i | 0 <= i < |ents'| && ents'[i].Live?
      ensures ents'[i].key in m' && ents'[i].key in where && where[ents'[i].key] == i
    {
      assert ents'[i].key == ents[i].key;
    }
  }

  lemma ShiftOwned(hashOf: Name -> Hash, idx: seq<int>, ents: seq<Entry>, ents': seq<Entry>, steps: map<Name, nat>, p: int)
    requires |idx| > 0 && SlotsInRange(idx, |ents|) && SlotsOwned(hashOf, idx, ents, steps)
    requires |ents'| == |ents| && forall i | 0 <= i < |ents| :: ents'[i] == ShiftEntry(ents[i], p)
    ensures SlotsInRange(idx, |ents'|) && SlotsOwned(hashOf, idx, ents', steps)
  {
    forall s | 0 <= s < |idx| && idx[s] >= 0
      ensures ents'[idx[s]].Live? && ents'[idx[s]].key in steps &&
              Probe(hashOf(ents'[idx[s]].key), |idx|, steps[ents'[idx[s]].key]) == s
    {
      assert ents'[idx[s]].key == ents[idx[s]].key;
    }
  }

  /** Shifting the stored positions of every cell is shifting the abstract map. */
  lemma Shift(hashOf: Name -> Hash, idx: seq<int>, ents: seq<Entry>, ents': seq<Entry>,
              m: map<Name, int>, where: map<Name, nat>, steps: map<Name, nat>, p: int)
    requires Consistent(hashOf, idx, ents, m, where, steps)
    requires |ents'| == |ents| && forall i | 0 <= i < |ents| :: ents'[i] == ShiftEntry(ents[i], p)
    ensures Consistent(hashOf, idx, ents', ShiftDown(m, p), where, steps)
  {
    var m' := ShiftDown(m, p);
    assert m'.Keys == m.Keys;
    ShiftCells(hashOf, ents, ents', m, where, p);
    ShiftOwned(hashOf, idx, ents, ents', steps, p);
    assert ChainsReach(hashOf, idx, m', where, steps);
  }
}
