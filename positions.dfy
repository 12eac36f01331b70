/**
 * What the map stores, seen from outside: a name -> position map, where a
 * position is the index of the named record in an external, contiguous vector
 * that the map does not own.
 *
 * Deleting a record from the middle of that vector moves every later record
 * down by one place; `DelShifted` is what the map must turn into when it is
 * told about such a deletion. `InSync` says that a map and a vector of names
 * agree, and the two lemmas at the end show that appending a name and deleting
 * with shift keep them in agreement.
 */
module Positions {

  /** A node name: at most 32 characters (the 33rd byte of the buffer is the terminator). */
  type Name = s: string | |s| <= 32

  /** Every position above `p` moves down by one; the others stay. */
  function ShiftDown(m: map<Name, int>, p: int): map<Name, int>
  {
    map k | k in m :: if m[k] > p then m[k] - 1 else m[k]
  }

  /** The map after the record named `key` was removed from the external vector. */
  function DelShifted(m: map<Name, int>, key: Name): map<Name, int>
    requires key in m
  {
    ShiftDown(m - {key}, m[key])
  }

  /** The names of `v` are distinct, and `m` maps each of them, and nothing else, to its index in `v`. */
  ghost predicate InSync(m: map<Name, int>, v: seq<Name>)
  {
    (forall i, j | 0 <= i < j < |v| :: v[i] != v[j]) &&
    (forall k :: k in m <==> k in v) &&
    (forall i | 0 <= i < |v| :: m[v[i]] == i)
  }

  /** The three effects of a delete-with-shift on the stored positions. */
  lemma DelShiftedEffects(m: map<Name, int>, key: Name)
    requires key in m
    ensures key !in DelShifted(m, key)
    ensures forall k | k in m && k != key ::
      k in DelShifted(m, key) &&
      (m[k] < m[key] ==> DelShifted(m, key)[k] == m[k]) &&
      (m[k] > m[key] ==> DelShifted(m, key)[k] == m[k] - 1)
    ensures |DelShifted(m, key)| == |m| - 1
  {
    var r := DelShifted(m, key);
    assert r.Keys == m.Keys - {key};
    assert |r.Keys| == |m.Keys| - 1;
  }

  /** Delete-with-shift keeps every position non-negative. */
  lemma DelShiftedNonNegative(m: map<Name, int>, key: Name)
    requires key in m && forall k | k in m :: m[k] >= 0
    ensures forall k | k in DelShifted(m, key) :: DelShifted(m, key)[k] >= 0
  {
  }

  /**
   * Delete-with-shift keeps distinct positions distinct and in the same order,
   * provided no other name shared the deleted name's position.
   */
  lemma {:induction false} DelShiftedKeepsOrder(m: map<Name, int>, key: Name, a: Name, b: Name)
    requires key in m && a in m && b in m && a != key && b != key
    requires m[a] != m[key] && m[b] != m[key]
    ensures m[a] < m[b] <==> DelShifted(m, key)[a] < DelShifted(m, key)[b]
    ensures m[a] == m[b] <==> DelShifted(m, key)[a] == DelShifted(m, key)[b]
  {
    var p, r := m[key], DelShifted(m, key);
    assert r[a] == if m[a] > p then m[a] - 1 else m[a];
    assert r[b] == if m[b] > p then m[b] - 1 else m[b];
  }

  /** Appending a new name to the vector and setting it at the end position keeps the two in step. */
  lemma AppendInSync(m: map<Name, int>, v: seq<Name>, name: Name)
    requires InSync(m, v) && name !in m
    ensures InSync(m[name := |v|], v + [name])
  {
    var m', v' := m[name := |v|], v + [name];
    forall i | 0 <= i < |v'|
      ensures m'[v'[i]] == i
    {
      if i < |v| {
        assert v'[i] == v[i] && v[i] in m;
      }
    }
  }

  /** The vector with its record at position `p` removed. */
  function Without(v: seq<Name>, p: nat): (w: seq<Name>)
    requires p < |v|
    ensures |w| == |v| - 1
    ensures forall i | 0 <= i < |w| :: w[i] == if i < p then v[i] else v[i + 1]
  {
    v[..p] + v[p + 1..]
  }

  lemma WithoutDistinct(v: seq<Name>, p: nat)
    requires p < |v| && forall i, j | 0 <= i < j < |v| :: v[i] != v[j]
    ensures forall i, j | 0 <= i < j < |Without(v, p)| :: Without(v, p)[i] != Without(v, p)[j]
    ensures forall k :: k in Without(v, p) <==> k in v && k != v[p]
  {
    var w := Without(v, p);
    forall i, j | 0 <= i < j < |w|
      ensures w[i] != w[j]
    {
      var i', j' := if i < p then i else i + 1, if j < p then j else j + 1;
      assert w[i] == v[i'] && w[j] == v[j'] && i' < j';
    }
    forall k
      ensures k in w <==> k in v && k != v[p]
    {
      if k in w {
        var i :| 0 <= i < |w| && w[i] == k;
        var i' := if i < p then i else i + 1;
        assert v[i'] == k && i' != p;
      }
      if k in v && k != v[p] {
        var i :| 0 <= i < |v| && v[i] == k;
        if i < p {
          assert w[i] == k;
        } else {
          assert w[i - 1] == k;
        }
      }
    }
  }

  /** Removing the record at position `p` from the vector and delete-shifting its name keeps the two in step. */
  lemma DelShiftInSync(m: map<Name, int>, v: seq<Name>, p: nat)
    requires InSync(m, v) && p < |v|
    ensures v[p] in m
    ensures InSync(DelShifted(m, v[p]), Without(v, p))
  {
    var key := v[p];
    var r, w := DelShifted(m, key), Without(v, p);
    WithoutDistinct(v, p);
    assert forall k :: k in r <==> k in m && k != key;
    forall i | 0 <= i < |w|
      ensures r[w[i]] == i
    {
      if i < p {
        assert m[v[i]] == i;
      } else {
        assert m[v[i + 1]] == i + 1;
      }
    }
  }
}
