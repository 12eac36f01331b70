/**
 * The name -> position map, a compact dict in the manner of CPython's: a dense
 * entry array of (hash, name, position) records in insertion order, and an
 * open-addressed index table of `tableSize` slots over it, each slot holding an
 * entry index, MAPIX_EMPTY or MAPIX_DUMMY.
 *
 * The map object and its keys object are one class here: `tableSize`,
 * `usable`, `nentries` and the two arrays are the keys object, which a rebuild
 * or a clear replaces wholesale by fresh arrays; `used` is the map's live count.
 * The abstract value is the ghost map `Contents`; the ghost maps `Where` and
 * `Steps` record, for each name, the cell of its entry and the probe step that
 * reaches its slot (see IndexTable.Consistent).
 *
 * Each change of the keys object is written in three layers that the C code
 * does not have: a module-level method on the arrays (`Assign`, `Delete`,
 * `Rebuild`), a method that also carries the keys invariant over (`AssignKeys`,
 * `DeleteKeys`, `GrowKeys`), and a class method that stores the result back
 * through `Put`/`Install` (`Reassign`, `DeleteBound`, `Resize`). The split only
 * keeps each proof small; together they do what one C function does.
 */
module Hashmap {
  import opened Probing
  import opened Positions
  import opened Sizes
  import opened IndexTable

  /** A fresh keys object of `size` slots: every slot EMPTY, room for `UsableFraction(size)` entries. */
  method NewKeys(size: int) returns (idx: array<int>, ents: array<Entry>)
    requires size >= MAP_MINSIZE
    ensures fresh(idx) && fresh(ents)
    ensures idx.Length == size && ents.Length == UsableFraction(size)
    ensures forall s | 0 <= s < size :: idx[s] == MAPIX_EMPTY
  {
    idx := new int[size](_ => MAPIX_EMPTY);
    ents := new Entry[UsableFraction(size)](_ => Vacant);
  }

  /**
   * The first slot on the probe sequence of `h` that holds no entry (EMPTY or
   * DUMMY), with the number of steps taken to reach it. `perturb >>= 5` is
   * `perturb / 32`.
   */
  method FindEmptySlot(idx: array<int>, h: Hash) returns (slot: nat, ghost j: nat)
    requires IsPowerOfTwo(idx.Length)
    requires |Filled(idx[..])| < idx.Length
    ensures slot < idx.Length && slot == Probe(h, idx.Length, j) && idx[slot] < 0
    ensures forall j': nat | j' < j :: idx[Probe(h, idx.Length, j')] >= 0
  {
    ghost var empty := EmptySlot(idx[..], |Filled(idx[..])|);
    ghost var last := ProbeReaches(h, idx.Length, empty);
    var perturb: nat := h;
    slot := h % idx.Length;
    j := 0;
    while idx[slot] >= 0
      invariant slot == Probe(h, idx.Length, j) && perturb == Perturb(h, j)
      invariant j <= last
      invariant forall j': nat | j' < j :: idx[Probe(h, idx.Length, j')] >= 0
      decreases last - j
    {
      ProbeNext(h, idx.Length, j);
      perturb := perturb / 32;
      slot := (5 * slot + perturb + 1) % idx.Length;
      j := j + 1;
    }
  }

  /**
   * The probe loop (`lookdict`): walks the probe sequence of hash `h` until it
   * finds a slot whose cell holds a live entry with hash `h` and name `key`, or
   * an EMPTY slot, passing DUMMY slots and slots of other names. Returns the
   * slot's value (the entry index, or MAPIX_EMPTY), the slot, and the number of
   * steps taken.
   */
  method FindEntry(idx: array<int>, ents: array<Entry>, n: nat, key: Name, h: Hash) returns (ix: int, slot: nat, ghost j: nat)
    requires IsPowerOfTwo(idx.Length) && n <= ents.Length
    requires |Filled(idx[..])| <= n < idx.Length && SlotsInRange(idx[..], n)
    ensures slot < idx.Length && slot == Probe(h, idx.Length, j) && ix == idx[slot]
    ensures ix == MAPIX_EMPTY || (0 <= ix < n && ents[ix].Live? && ents[ix].hash == h && ents[ix].key == key)
    ensures forall j': nat | j' < j :: PassesSlot(idx[..], ents[..n], h, key, Probe(h, idx.Length, j'))
  {
    ghost var I, E := idx[..], ents[..n];
    ghost var empty := EmptySlot(I, n);
    ghost var last := ProbeReaches(h, idx.Length, empty);
    var perturb: nat := h;
    slot := h % idx.Length;
    j := 0;
    while true
      invariant slot == Probe(h, idx.Length, j) && perturb == Perturb(h, j)
      invariant j <= last
      invariant forall j': nat | j' < j :: PassesSlot(I, E, h, key, Probe(h, idx.Length, j'))
      decreases last - j
    {
      ix := idx[slot];
      assert I[slot] == ix;
      if ix == MAPIX_EMPTY {
        return;
      }
      if ix >= 0 {
        var ep := ents[ix];
        assert E[ix] == ep;
        if ep.Live? && ep.hash == h && ep.key == key {
          return;
        }
      }
      ProbeNext(h, idx.Length, j);
      perturb := perturb / 32;
      slot := (5 * slot + perturb + 1) % idx.Length;
      j := j + 1;
    }
  }

  lemma SubsetCard<T>(a: set<T>, b: set<T>)
    requires a <= b
    ensures |a| <= |b|
  {
    assert |b - a| == |b| - |a|;
  }

  /** The live cells of `s`, in order: what a rebuild keeps. */
  function LiveCells(s: seq<Entry>): (r: seq<Entry>)
    ensures |r| <= |s|
    ensures forall i | 0 <= i < |r| :: r[i].Live?
  {
    if |s| == 0 then []
    else LiveCells(s[..|s| - 1]) + (if s[|s| - 1].Live? then [s[|s| - 1]] else [])
  }

  lemma LiveCellsStep(s: seq<Entry>, i: nat)
    requires i < |s|
    ensures LiveCells(s[..i + 1]) == LiveCells(s[..i]) + (if s[i].Live? then [s[i]] else [])
  {
    assert s[..i + 1][..i] == s[..i];
  }

  /**
   * After `i` cells of `cells` have been copied: `done` is the live cells among
   * them in order, and `M` binds exactly the names of `m` whose cell lies before
   * `i`, to their values in `m`.
   */
  ghost predicate Copied(cells: seq<Entry>, m: map<Name, int>, where: map<Name, nat>, i: nat,
                         done: seq<Entry>, M: map<Name, int>)
  {
    i <= |cells| && done == LiveCells(cells[..i]) &&
    M.Keys <= m.Keys && (forall k | k in m && k in where :: k in M <==> where[k] < i) &&
    (forall k | k in M :: M[k] == m[k]) && |M| == |done|
  }

  /** Copying cell `i` keeps `M` binding exactly the names of `m` whose cell lies before the next one. */
  lemma CopyKeys(hashOf: Name -> Hash, cells: seq<Entry>, m: map<Name, int>, where: map<Name, nat>,
                 M: map<Name, int>, i: nat)
    requires CellsMatch(hashOf, cells, m, where) && m.Keys == where.Keys && i < |cells|
    requires M.Keys <= m.Keys && forall k | k in m :: k in M <==> where[k] < i
    requires forall k | k in M :: M[k] == m[k]
    ensures cells[i].Live? ==> cells[i].key in m && cells[i].key !in M && cells[i].hash == hashOf(cells[i].key) &&
                               cells[i].value == m[cells[i].key] && |M| < |m|
    ensures var M' := if cells[i].Live? then M[cells[i].key := cells[i].value] else M;
            M'.Keys <= m.Keys && (forall k | k in m :: k in M' <==> where[k] < i + 1) && (forall k | k in M' :: M'[k] == m[k])
  {
    forall k | k in m && where[k] == i
      ensures cells[i] == Live(hashOf(k), k, m[k])
    {
    }
    if cells[i].Live? {
      SubsetCard(M.Keys + {cells[i].key}, m.Keys);
    }
  }

  /** Copying cell `i`: a live cell holds a name of `m` not yet copied, and `Copied` moves on to `i + 1`. */
  lemma CopyStep(hashOf: Name -> Hash, cells: seq<Entry>, m: map<Name, int>, where: map<Name, nat>, i: nat,
                 done: seq<Entry>, M: map<Name, int>)
    requires CellsMatch(hashOf, cells, m, where) && m.Keys == where.Keys && i < |cells|
    requires Copied(cells, m, where, i, done, M)
    ensures cells[i].Live? ==> cells[i].key in m && cells[i].key !in M && cells[i].hash == hashOf(cells[i].key) && |M| < |m|
    ensures cells[i].Live? ==> Copied(cells, m, where, i + 1, done + [cells[i]], M[cells[i].key := cells[i].value])
    ensures !cells[i].Live? ==> Copied(cells, m, where, i + 1, done, M)
  {
    LiveCellsStep(cells, i);
    CopyKeys(hashOf, cells, m, where, M, i);
  }

  /** Once every cell is copied, `M` is `m` and `done` is all the live cells. */
  lemma CopyDone(cells: seq<Entry>, m: map<Name, int>, where: map<Name, nat>, done: seq<Entry>, M: map<Name, int>)
    requires m.Keys == where.Keys && (forall k | k in m :: where[k] < |cells|)
    requires Copied(cells, m, where, |cells|, done, M)
    ensures M == m && done == LiveCells(cells) && |done| == |m|
  {
    assert cells[..|cells|] == cells;
    assert M.Keys == m.Keys;
  }

  /** One step of the rebuild loop: cell `i`, if live, is appended to the `count` cells copied so far and bound in `idx`. */
  method CopyCell(hashOf: Name -> Hash, ghost cells: seq<Entry>, ghost m: map<Name, int>, ghost where: map<Name, nat>,
                  ghost i: nat, e: Entry, idx: array<int>, ents: array<Entry>, count: nat,
                  ghost M: map<Name, int>, ghost W: map<Name, nat>, ghost S: map<Name, nat>)
    returns (count': nat, ghost M': map<Name, int>, ghost W': map<Name, nat>, ghost S': map<Name, nat>)
    requires CellsMatch(hashOf, cells, m, where) && m.Keys == where.Keys && i < |cells| && e == cells[i]
    requires count <= |m| < ents.Length < idx.Length && IsPowerOfTwo(idx.Length)
    requires Consistent(hashOf, idx[..], ents[..count], M, W, S)
    requires Copied(cells, m, where, i, ents[..count], M)
    modifies idx, ents
    ensures count' <= |m|
    ensures Consistent(hashOf, idx[..], ents[..count'], M', W', S')
    ensures Copied(cells, m, where, i + 1, ents[..count'], M')
  {
    CopyStep(hashOf, cells, m, where, i, ents[..count], M);
    if e.Live? {
      var j := Insert(hashOf, idx, ents, count, e, M, W, S);
      M', W', S' := M[e.key := e.value], W[e.key := count], S[e.key := j];
      count' := count + 1;
    } else {
      count', M', W', S' := count, M, W, S;
    }
  }

  /**
   * The rebuild loop: the live cells among the first `n` of `ents`
   * are copied, in order, into a fresh entry array of `UsableFraction(newsize)`
   * cells, and each is bound to the first free slot of its probe sequence in a
   * fresh index table of `newsize` slots.
   */
  method Rebuild(hashOf: Name -> Hash, ents: array<Entry>, n: nat, newsize: nat,
                 ghost m: map<Name, int>, ghost where: map<Name, nat>)
    returns (newIdx: array<int>, newEnts: array<Entry>, count: nat, ghost where': map<Name, nat>, ghost steps': map<Name, nat>)
    requires n <= ents.Length && CellsMatch(hashOf, ents[..n], m, where) && m.Keys == where.Keys
    requires IsPowerOfTwo(newsize) && newsize >= MAP_MINSIZE && UsableFraction(newsize) > |m|
    ensures fresh(newIdx) && fresh(newEnts)
    ensures newIdx.Length == newsize && newEnts.Length == UsableFraction(newsize)
    ensures count == |m| && newEnts[..count] == LiveCells(ents[..n])
    ensures Consistent(hashOf, newIdx[..], newEnts[..count], m, where', steps')
  {
    newIdx, newEnts := NewKeys(newsize);
    ConsistentEmpty(hashOf, newIdx[..]);
    UsableBelowSize(newsize);
    ghost var cells := ents[..n];
    ghost var M: map<Name, int>, W: map<Name, nat>, S: map<Name, nat> := map[], map[], map[];
    var i := 0;
    count := 0;
    while i < n
      invariant i <= n && newIdx.Length == newsize && newEnts.Length == UsableFraction(newsize)
      invariant count <= |m| < newEnts.Length < newIdx.Length && IsPowerOfTwo(newIdx.Length)
      invariant Consistent(hashOf, newIdx[..], newEnts[..count], M, W, S)
      invariant Copied(cells, m, where, i, newEnts[..count], M)
      invariant ents[..n] == cells
    {
      count, M, W, S := CopyCell(hashOf, cells, m, where, i, ents[i], newIdx, newEnts, count, M, W, S);
      i := i + 1;
    }
    CopyDone(cells, m, where, newEnts[..count], M);
    where', steps' := W, S;
  }

  /**
   * Appends the live entry `e` of an absent name as cell `n`, and binds it in
   * the first slot of its probe sequence that holds no entry.
   */
  method Insert(hashOf: Name -> Hash, idx: array<int>, ents: array<Entry>, n: nat, e: Entry,
                ghost m: map<Name, int>, ghost where: map<Name, nat>, ghost steps: map<Name, nat>)
    returns (ghost j: nat)
    requires IsPowerOfTwo(idx.Length) && n < ents.Length && n < idx.Length
    requires Consistent(hashOf, idx[..], ents[..n], m, where, steps)
    requires e.Live? && e.hash == hashOf(e.key) && e.key !in m
    modifies idx, ents
    ensures ents[..n + 1] == old(ents[..n]) + [e]
    ensures Consistent(hashOf, idx[..], ents[..n + 1], m[e.key := e.value], where[e.key := n], steps[e.key := j])
  {
    ghost var idx0, ents0 := idx[..], ents[..n];
    var slot;
    slot, j := FindEmptySlot(idx, e.hash);
    assert idx[..] == idx0;
    InsertFresh(hashOf, idx0, ents0, m, where, steps, e.key, e.value, j);
    ents[n] := e;
    idx[slot] := n;
    assert idx[..] == idx0[slot := n];
    assert ents[..n + 1] == ents0 + [e];
  }

  /** The shift loop of a delete: every stored position above `p` in the first `n` cells moves down by one. */
  method ShiftPositions(ents: array<Entry>, n: nat, p: int)
    requires n <= ents.Length
    modifies ents
    ensures forall i | 0 <= i < n :: ents[..n][i] == ShiftEntry(old(ents[..n])[i], p)
    ensures forall i | n <= i < ents.Length :: ents[i] == old(ents[i])
  {
    var i := 0;
    while i < n
      invariant 0 <= i <= n
      invariant forall t | 0 <= t < i :: ents[t] == ShiftEntry(old(ents[t]), p)
      invariant forall t | i <= t < ents.Length :: ents[t] == old(ents[t])
    {
      var e := ents[i];
      if e.Live? && e.value > p {
        ents[i] := e.(value := e.value - 1);
      }
      i := i + 1;
    }
    assert forall i | 0 <= i < n :: ents[..n][i] == ents[i] && old(ents[..n])[i] == old(ents[i]);
  }

  /** Overwrites the position stored in cell `ix`, the cell of the bound name `key`, with `value`. */
  method Assign(hashOf: Name -> Hash, idx: array<int>, ents: array<Entry>, n: nat, ix: nat, key: Name, value: int,
                ghost m: map<Name, int>, ghost where: map<Name, nat>, ghost steps: map<Name, nat>)
    requires n <= ents.Length && Consistent(hashOf, idx[..], ents[..n], m, where, steps)
    requires key in m && ix == where[key]
    modifies ents
    ensures ents[..n] == old(ents[..n])[ix := Live(hashOf(key), key, value)]
    ensures Consistent(hashOf, idx[..], ents[..n], m[key := value], where, steps)
  {
    ghost var ents0 := ents[..n];
    Overwrite(hashOf, idx[..], ents0, m, where, steps, key, value);
    ents[ix] := ents[ix].(value := value);
    assert ents[..n] == ents0[ix := Live(hashOf(key), key, value)];
  }

  /**
   * Deletes the bound name `key`, whose entry is cell `ix` bound in slot
   * `slot`: the slot becomes DUMMY and the cell Vacant; then every stored
   * position above the deleted one, `p`, moves down by one.
   */
  method Delete(hashOf: Name -> Hash, idx: array<int>, ents: array<Entry>, n: nat, slot: nat, ix: nat, key: Name, p: int,
                ghost m: map<Name, int>, ghost where: map<Name, nat>, ghost steps: map<Name, nat>)
    requires n <= ents.Length && Consistent(hashOf, idx[..], ents[..n], m, where, steps)
    requires key in m && p == m[key] && ix == where[key] && slot == Probe(hashOf(key), idx.Length, steps[key])
    modifies idx, ents
    ensures Consistent(hashOf, idx[..], ents[..n], DelShifted(m, key), where - {key}, steps - {key})
  {
    ghost var idx0, ents0 := idx[..], ents[..n];
    Remove(hashOf, idx0, ents0, m, where, steps, key);
    idx[slot] := MAPIX_DUMMY;
    ents[ix] := Vacant;
    ghost var idx1, ents1 := idx[..], ents[..n];
    assert idx1 == idx0[slot := MAPIX_DUMMY];
    assert ents1 == ents0[ix := Vacant];
    ShiftPositions(ents, n, p);
    assert idx[..] == idx1;
    Shift(hashOf, idx1, ents1, ents[..n], m - {key}, where - {key}, steps - {key}, p);
  }

  /**
   * The counts of a keys object of `size` slots with `n` cells written and
   * `live` live entries, holding the abstract map `m`: the size is a power of
   * two of at least MAP_MINSIZE, `live` is at most `n` and `n` at most the
   * usable fraction of the size, and every stored position is non-negative.
   */
  ghost predicate KeysShape(size: nat, n: nat, live: nat, m: map<Name, int>)
  {
    IsPowerOfTwo(size) && size >= MAP_MINSIZE &&
    live <= n <= UsableFraction(size) && live == |m| &&
    forall key | key in m :: m[key] >= 0
  }

  /** A well-formed keys object: its counts are right and its table is consistent with `m`. */
  ghost predicate KeysValid(hashOf: Name -> Hash, idx: seq<int>, ents: seq<Entry>, live: nat,
                            m: map<Name, int>, where: map<Name, nat>, steps: map<Name, nat>)
  {
    KeysShape(|idx|, |ents|, live, m) && Consistent(hashOf, idx, ents, m, where, steps)
  }

  /** Rebinding a bound name to a non-negative position keeps the counts right. */
  lemma AssignShape(size: nat, n: nat, live: nat, m: map<Name, int>, key: Name, value: int)
    requires KeysShape(size, n, live, m) && key in m && value >= 0
    ensures KeysShape(size, n, live, m[key := value])
  {
    assert m[key := value].Keys == m.Keys;
  }

  /** Delete-shifting a bound name keeps the counts right, with one live entry fewer. */
  lemma DeleteShape(size: nat, n: nat, live: nat, m: map<Name, int>, key: Name)
    requires KeysShape(size, n, live, m) && key in m
    ensures live > 0 && KeysShape(size, n, live - 1, DelShifted(m, key))
  {
    DelShiftedEffects(m, key);
    DelShiftedNonNegative(m, key);
  }

  /** A fresh, well-formed keys object of `size` slots holding no entry. */
  method EmptyKeys(hashOf: Name -> Hash, size: nat) returns (idx: array<int>, ents: array<Entry>)
    requires IsPowerOfTwo(size) && size >= MAP_MINSIZE
    ensures fresh(idx) && fresh(ents) && idx.Length == size && ents.Length == UsableFraction(size)
    ensures KeysValid(hashOf, idx[..], ents[..0], 0, map[], map[], map[])
  {
    idx, ents := NewKeys(size);
    ConsistentEmpty(hashOf, idx[..]);
    assert ents[..0] == [];
  }

  /** `Assign` on a well-formed keys object: it stays well-formed, holding the map with `key` bound to `value`. */
  method AssignKeys(hashOf: Name -> Hash, n: nat, live: nat, idx: array<int>, ents: array<Entry>, ix: nat, key: Name, value: int,
                    ghost m: map<Name, int>, ghost where: map<Name, nat>, ghost steps: map<Name, nat>)
    requires n <= ents.Length && KeysValid(hashOf, idx[..], ents[..n], live, m, where, steps)
    requires key in m && ix == where[key] && value >= 0
    modifies ents
    ensures KeysValid(hashOf, idx[..], ents[..n], live, m[key := value], where, steps)
  {
    AssignShape(idx.Length, n, live, m, key, value);
    Assign(hashOf, idx, ents, n, ix, key, value, m, where, steps);
  }

  /**
   * The rebuild of a well-formed keys object asked for `minsize` slots: `Rebuild`
   * into the size `GrowthSize` picks; the new object is well-formed, holds the
   * same map and has room for one entry more.
   */
  method GrowKeys(hashOf: Name -> Hash, n: nat, live: nat, idx: array<int>, ents: array<Entry>, minsize: int,
                  ghost m: map<Name, int>, ghost where: map<Name, nat>, ghost steps: map<Name, nat>)
    returns (newIdx: array<int>, newEnts: array<Entry>, count: nat, ghost where': map<Name, nat>, ghost steps': map<Name, nat>)
    requires n <= ents.Length && KeysValid(hashOf, idx[..], ents[..n], live, m, where, steps)
    requires minsize >= GrowthRate(live)
    ensures fresh(newIdx) && fresh(newEnts) && newEnts.Length == UsableFraction(newIdx.Length)
    ensures newIdx.Length >= minsize && (newIdx.Length == MAP_MINSIZE || newIdx.Length / 2 < minsize)
    ensures count == live < newEnts.Length && newEnts[..count] == LiveCells(old(ents[..n]))
    ensures KeysValid(hashOf, newIdx[..], newEnts[..count], live, m, where', steps')
  {
    var newsize := GrowthSize(live, minsize);
    newIdx, newEnts, count, where', steps' := Rebuild(hashOf, ents, n, newsize, m, where);
  }

  /** `Delete` on a well-formed keys object: it stays well-formed, holding the map with `key` delete-shifted. */
  method DeleteKeys(hashOf: Name -> Hash, n: nat, live: nat, idx: array<int>, ents: array<Entry>,
                    slot: nat, ix: nat, key: Name,
                    ghost m: map<Name, int>, ghost where: map<Name, nat>, ghost steps: map<Name, nat>)
    requires n <= ents.Length && KeysValid(hashOf, idx[..], ents[..n], live, m, where, steps)
    requires key in m && ix == where[key] && slot == Probe(hashOf(key), idx.Length, steps[key])
    modifies idx, ents
    ensures KeysValid(hashOf, idx[..], ents[..n], live - 1, DelShifted(m, key), where - {key}, steps - {key})
  {
    assert ents[..n][ix] == ents[ix];
    var p := ents[ix].value;
    DeleteShape(idx.Length, n, live, m, key);
    Delete(hashOf, idx, ents, n, slot, ix, key, p, m, where, steps);
  }

  class HashMap {
    /** The name hash; the hash function itself is not part of this model. */
    const hashOf: Name -> Hash

    var tableSize: nat
    var usable: nat
    var nentries: nat
    var used: nat
    var indices: array<int>
    var entries: array<Entry>

    ghost var Contents: map<Name, int>
    ghost var Where: map<Name, nat>
    ghost var Steps: map<Name, nat>

    ghost predicate Valid()
      reads this, indices, entries
    {
      tableSize == indices.Length && usable == UsableFraction(tableSize) &&
      entries.Length == usable && nentries <= entries.Length &&
      KeysValid(hashOf, indices[..], entries[..nentries], used, Contents, Where, Steps)
    }

    /**
     * What a valid map promises of its counts and slots: a power-of-two table of
     * at least MAP_MINSIZE slots, `used <= nentries <= usable < tableSize`, and
     * every slot EMPTY, DUMMY or the index of a written cell, hence below the
     * usable fraction of the table.
     */
    lemma ValidBounds()
      requires Valid()
      ensures IsPowerOfTwo(tableSize) && tableSize >= MAP_MINSIZE
      ensures used <= nentries <= usable < tableSize && usable == UsableFraction(tableSize)
      ensures forall s | 0 <= s < tableSize ::
                indices[s] == MAPIX_EMPTY || indices[s] == MAPIX_DUMMY || 0 <= indices[s] < nentries
    {
      UsableBelowSize(tableSize);
      assert SlotsInRange(indices[..], nentries);
      forall s | 0 <= s < tableSize
        ensures indices[s] == MAPIX_EMPTY || indices[s] == MAPIX_DUMMY || 0 <= indices[s] < nentries
      {
        assert indices[..][s] == indices[s];
      }
    }

    /** Sets every field: the stores of `Install`, kept apart from the facts that make the result valid. */
    method Put(size: nat, n: nat, live: nat, idx: array<int>, ents: array<Entry>, 
               ghost m: map<Name, int>, ghost where: map<Name, nat>, ghost steps: map<Name, nat>)
      modifies this
      ensures tableSize == size && usable == UsableFraction(size) && nentries == n && used == live
      ensures indices == idx && entries == ents
      ensures Contents == m && Where == where && Steps == steps
    {
      tableSize, usable, nentries, used := size, UsableFraction(size), n, live;
      indices, entries := idx, ents;
      Contents, Where, Steps := m, where, steps;
    }

    /** Puts a keys object with `n` cells written, the live count and the abstraction in place. */
    method Install(n: nat, live: nat, idx: array<int>, ents: array<Entry>,
                   ghost m: map<Name, int>, ghost where: map<Name, nat>, ghost steps: map<Name, nat>)
      requires ents.Length == UsableFraction(idx.Length) && n <= ents.Length
      requires KeysValid(hashOf, idx[..], ents[..n], live, m, where, steps)
      modifies this
      ensures Valid()
      ensures tableSize == idx.Length && usable == UsableFraction(idx.Length) && nentries == n && used == live
      ensures indices == idx && entries == ents && entries[..nentries] == old(ents[..n])
      ensures Contents == m && Where == where && Steps == steps
    {
      Put(idx.Length, n, live, idx, ents, m, where, steps);
    }

    /** `cgi_new_hashmap`: an empty map of the minimum size. */
    constructor New(hashOf: Name -> Hash)
      ensures Valid() && fresh(indices) && fresh(entries)
      ensures this.hashOf == hashOf
      ensures Contents == map[] && used == 0 && nentries == 0 && tableSize == MAP_MINSIZE
    {
      this.hashOf := hashOf;
      var idx, ents := NewKeys(MAP_MINSIZE);
      tableSize, usable, nentries, used := MAP_MINSIZE, UsableFraction(MAP_MINSIZE), 0, 0;
      indices, entries := idx, ents;
      Contents, Where, Steps := map[], map[], map[];
      new;
      ConsistentEmpty(hashOf, indices[..]);
      assert entries[..nentries] == [];
    }

    /** `cgi_new_presized_hashmap`: an empty map with room for `minused` entries before any rebuild. */
    constructor NewPresized(hashOf: Name -> Hash, minused: int)
      ensures Valid() && fresh(indices) && fresh(entries)
      ensures this.hashOf == hashOf
      ensures Contents == map[] && used == 0 && nentries == 0 && usable >= minused
      ensures minused <= UsableFraction(MAP_MINSIZE) ==> tableSize == MAP_MINSIZE
      ensures minused > UsableFraction(MAP_MINSIZE) ==> tableSize / 2 < EstimateSize(minused) || tableSize == 2 * MAP_MINSIZE
    {
      this.hashOf := hashOf;
      var size := PresizedSize(minused);
      var idx, ents := NewKeys(size);
      tableSize, usable, nentries, used := size, UsableFraction(size), 0, 0;
      indices, entries := idx, ents;
      Contents, Where, Steps := map[], map[], map[];
      new;
      ConsistentEmpty(hashOf, indices[..]);
      assert entries[..nentries] == [];
    }

    /** `cgi_hashmap_clear`: drop every entry and go back to a fresh table of the minimum size. */
    method Clear()
      requires Valid()
      modifies this
      ensures Valid() && fresh(indices) && fresh(entries)
      ensures Contents == map[] && used == 0 && nentries == 0 && tableSize == MAP_MINSIZE
    {
      var idx, ents := EmptyKeys(hashOf, MAP_MINSIZE);
      Install(0, 0, idx, ents, map[], map[], map[]);
    }

    /** The entry index and slot of the name, found by `FindEntry`; MAPIX_EMPTY if it is absent. */
    method Lookup(key: Name) returns (ix: int, slot: nat)
      requires Valid()
      ensures slot < tableSize
      ensures key in Contents ==> ix == Where[key] && slot == Probe(hashOf(key), tableSize, Steps[key])
      ensures key in Contents ==> 0 <= ix < nentries && entries[ix].Live? && entries[ix].value == Contents[key]
      ensures key !in Contents ==> ix == MAPIX_EMPTY
    {
      var h := hashOf(key);
      ghost var j;
      ix, slot, j := FindEntry(indices, entries, nentries, key, h);
      ProbeStops(hashOf, indices[..], entries[..nentries], Contents, Where, Steps, key, j);
      if key in Contents {
        assert entries[..nentries][ix] == entries[ix];
      }
    }

    /** `cgi_map_get_item`: the stored position of the name, or MAPIX_EMPTY if it is absent. */
    method GetItem(key: Name) returns (r: int)
      requires Valid()
      ensures key in Contents ==> r == Contents[key]
      ensures key !in Contents ==> r == MAPIX_EMPTY
      ensures r >= 0 <==> key in Contents
    {
      var ix, _ := Lookup(key);
      if ix == MAPIX_EMPTY {
        return MAPIX_EMPTY;
      }
      r := entries[ix].value;
    }

    /** `cgi_map_contains`: whether the name is bound. */
    method Contains(key: Name) returns (b: bool)
      requires Valid()
      ensures b <==> key in Contents
    {
      var ix, _ := Lookup(key);
      b := ix != MAPIX_EMPTY;
    }

    /**
     * Rebuilds the keys object with a table of the smallest power-of-two size,
     * from MAP_MINSIZE on, that is at least `minsize`: the live entries are
     * copied in order into a fresh entry array and bound again in a fresh index
     * table, so no DUMMY slot and no Vacant cell survives. Asked for
     * `GrowthRate(used)` after deletions, the new table may be no larger, or
     * smaller, than the old one.
     */
    method Resize(minsize: int)
      requires Valid() && minsize >= GrowthRate(used)
      modifies this
      ensures Valid() && fresh(indices) && fresh(entries)
      ensures Contents == old(Contents) && used == old(used) && nentries == used < usable
      ensures entries[..nentries] == LiveCells(old(entries[..nentries]))
      ensures tableSize >= minsize && (tableSize == MAP_MINSIZE || tableSize / 2 < minsize)
    {
      var n0, live, idx0, ents0 := nentries, used, indices, entries;
      ghost var m, w, st := Contents, Where, Steps;
      var idx, ents, n, W, S := GrowKeys(hashOf, n0, live, idx0, ents0, minsize, m, w, st);
      Install(n, live, idx, ents, m, W, S);
    }

    /** The overwrite path of `SetItem`: the bound name `key`, whose entry is cell `ix`, gets `value`. */
    method Reassign(key: Name, ix: nat, value: int)
      requires Valid() && value >= 0 && key in Contents && ix == Where[key]
      modifies this, entries
      ensures Valid()
      ensures tableSize == old(tableSize) && indices == old(indices) && entries == old(entries) && nentries == old(nentries)
      ensures used == old(used) && Contents == old(Contents)[key := value]
    {
      var n, live, idx, ents := nentries, used, indices, entries;
      ghost var m, w, st := Contents, Where, Steps;
      AssignKeys(hashOf, n, live, idx, ents, ix, key, value, m, w, st);
      Install(n, live, idx, ents, m[key := value], w, st);
    }

    /** The insertion path of `SetItem`: the absent name `key` is appended as cell `nentries`, which the entry array has room for. */
    method Append(key: Name, value: int)
      requires Valid() && value >= 0 && key !in Contents && nentries < usable
      modifies this, indices, entries
      ensures Valid()
      ensures tableSize == old(tableSize) && indices == old(indices) && entries == old(entries) && nentries == old(nentries) + 1
      ensures Contents == old(Contents)[key := value] && used == old(used) + 1
    {
      var size, n, live, idx, ents := tableSize, nentries, used, indices, entries;
      ghost var m, w, st := Contents, Where, Steps;
      UsableBelowSize(size);
      var j := Insert(hashOf, idx, ents, n, Live(hashOf(key), key, value), m, w, st);
      Install(n + 1, live + 1, idx, ents, m[key := value], w[key := n], st[key := j]);
    }

    /** The deletion path of `DelShift`: the bound name `key`, in cell `ix` bound in `slot`, goes, and the positions above its own move down. */
    method DeleteBound(key: Name, ix: nat, slot: nat)
      requires Valid() && key in Contents && ix == Where[key] && slot == Probe(hashOf(key), tableSize, Steps[key])
      modifies this, indices, entries
      ensures Valid()
      ensures tableSize == old(tableSize) && indices == old(indices) && entries == old(entries) && nentries == old(nentries)
      ensures used == old(used) - 1 && Contents == DelShifted(old(Contents), key)
    {
      var n, live, idx, ents := nentries, used, indices, entries;
      ghost var m, w, st := Contents, Where, Steps;
      DeleteKeys(hashOf, n, live, idx, ents, slot, ix, key, m, w, st);
      Install(n, live - 1, idx, ents, DelShifted(m, key), w - {key}, st - {key});
    }

    /**
     * `cgi_map_set_item`: binds the name to `value`. A bound name has its stored
     * position overwritten in place; an absent one is appended as a new entry,
     * after the table is rebuilt by `Resize` if its entry array is full.
     */
    method SetItem(key: Name, value: int) returns (status: int)
      requires Valid() && value >= 0
      modifies this, indices, entries
      ensures Valid()
      ensures status == 0
      ensures Contents == old(Contents)[key := value] && used == |Contents|
      ensures key in old(Contents) ==>
                tableSize == old(tableSize) && indices == old(indices) && entries == old(entries) && nentries == old(nentries)
      ensures key !in old(Contents) && old(nentries) < old(usable) ==>
                tableSize == old(tableSize) && indices == old(indices) && entries == old(entries) && nentries == old(nentries) + 1
      ensures key !in old(Contents) && old(nentries) == old(usable) ==>
                fresh(indices) && fresh(entries) && nentries == old(used) + 1
    {
      var ix, _ := Lookup(key);
      if ix != MAPIX_EMPTY {
        Reassign(key, ix, value);
      } else {
        if usable - nentries <= 0 {
          Resize(GrowthRate(used));
        }
        Append(key, value);
      }
      return 0;
    }

    /**
     * `cgi_map_del_shift_item`: deletes the name, then moves every stored
     * position above the deleted one down by one, as the external vector's
     * records did when the caller removed the deleted name's record. Returns -1,
     * changing nothing, if the name is absent.
     */
    method DelShift(key: Name) returns (status: int)
      requires Valid()
      modifies this, indices, entries
      ensures Valid()
      ensures tableSize == old(tableSize) && indices == old(indices) && entries == old(entries) && nentries == old(nentries)
      ensures key !in old(Contents) ==> status == -1 && unchanged(this) && unchanged(indices) && unchanged(entries)
      ensures key in old(Contents) ==> status == 0 && used == old(used) - 1 && Contents == DelShifted(old(Contents), key)
      ensures key in old(Contents) ==> key !in Contents
      ensures key in old(Contents) ==>
                forall k | k in old(Contents) && k != key ::
                  k in Contents &&
                  (old(Contents)[k] < old(Contents)[key] ==> Contents[k] == old(Contents)[k]) &&
                  (old(Contents)[k] > old(Contents)[key] ==> Contents[k] == old(Contents)[k] - 1)
    {
      var ix, slot := Lookup(key);
      if ix == MAPIX_EMPTY {
        return -1;
      }
      DeleteBound(key, ix, slot);
      DelShiftedEffects(old(Contents), key);
      return 0;
    }
  }
}
