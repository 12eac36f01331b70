# CGNS name -> position hash map, in Dafny

This project models the hash map that the CGNS library uses to find a node's
index in a zone's vector from its name (`src/cg_hashmap.h`). The map follows
CPython's compact dict:

- a dense **entry array** of `(hash, name, position)` records in insertion order;
- an open-addressed **index table** of `table_size` slots, a power of two,
  each slot holding an entry index, `MAPIX_EMPTY` (-1) or `MAPIX_DUMMY` (-2);
- a **map object** holding the live count `ma_used` and the keys object.

Besides get, set and contains, the map offers a delete that also *shifts*:
when the caller removes a record from the middle of its external vector, every
stored position above the removed one must move down by one to stay in step.

Layout:

- `probing.dfy` (module `Probing`): the perturbed probe sequence
  (`i = 5*i + perturb + 1 mod size`, `perturb >>= 5`) and the proof that in a
  power-of-two table it visits every slot (`ProbeReaches`).
- `positions.dfy` (module `Positions`): names (at most 32 characters), the
  delete-with-shift on a name -> position map (`DelShifted`), and its agreement
  with an external vector of names (`InSync`).
- `sizes.dfy` (module `Sizes`): `MAP_MINSIZE`, the two-thirds usable fraction,
  the choice of a table size for a rebuild and for a pre-sized map, and the width
  of an index slot.
- `index_table.dfy` (module `IndexTable`): the sentinels, the `Entry`
  datatype and `Consistent`. `Consistent` ties an index table and the written
  cells to the abstract map. It says that every name has its own live cell and
  that the name's probe sequence reaches the slot of that cell without crossing
  an EMPTY slot. The module also proves lemmas for each way the table changes.
- `hashmap.dfy` (module `Hashmap`): the probe loops, the rebuild loop, the
  shift loop, and `class HashMap` with its public operations. The abstraction
  is the ghost field `Contents: map<Name, int>`, and `Valid()` is the class
  invariant.

The header's declarations fix the fields, the sentinels, `MAP_MINSIZE` and
the operations. The operation bodies follow CPython's dict, which the header
names as its model (`src/cg_hashmap.h:5`):

- the probe recurrence;
- `USABLE_FRACTION(n) = 2n/3`;
- a rebuild, when the entry array is full, into the smallest power of two
  from `MAP_MINSIZE` on that is at least `3 * used`;
- a pre-sized table of at least `(3n+1)/2` slots.

A delete follows CPython too. The slot becomes DUMMY and the cell is left
vacant, so `map_nentries` stays and only `ma_used` drops. The gap is closed at
the next rebuild.

A design that compacts the entry array on delete, and keeps `ma_used` equal to
`map_nentries`, is not what this model does. It would lower `map_nentries`
while the DUMMY slot stays. Then "fewer filled slots than `map_nentries`"
would fail, and so would the guarantee that a probe finds an EMPTY slot. The
header also keeps `ma_used` and `map_nentries` as two separate counts.

## Model

| member | source | states |
|---|---|---|
| Sizes.RoundUpSize | src/cg_hashmap.h:48-49 | the result is a power of two, at least the start and the request, and the smallest such (half of it is below the request unless it is the start) |
| Sizes.GrowthSize | src/cg_hashmap.h:60-64 | a rebuild asked for `3 * used` slots gets the smallest power of two from MAP_MINSIZE on that covers the request, and its usable fraction has room for one entry more than `used` |
| Sizes.PresizedSize | src/cg_hashmap.h:105 | a pre-sized map gets MAP_MINSIZE when that holds `minused` entries, otherwise the smallest power of two from 16 on covering `(3n+1)/2`; either way it holds `minused` entries without growing |
| Sizes.UsableBelowSize | src/cg_hashmap.h:60-61 | the usable count of a table is below its size, so one slot always stays free |
| Sizes.IndexBytesMonotone | src/cg_hashmap.h:71-76 | the slot width chosen from the table size never shrinks as the table grows |
| Sizes.IndexFitsWidth | src/cg_hashmap.h:66-78 | every value a slot can hold (an entry index below the usable fraction, or a sentinel down to -3) fits in a signed integer of the width chosen for that table size |
| Probing.ProbeReaches | src/cg_hashmap.h:48 | in a power-of-two table the probe sequence of every hash reaches every slot, which is why the size must be a power of two |
| Positions.DelShiftedEffects | src/cg_hashmap.h:10-11 | after delete-with-shift of name `key` at position `p`: `key` is gone, every other name stays, positions below `p` are unchanged, positions above `p` drop by one, and the count drops by one |
| Positions.DelShiftedKeepsOrder | src/cg_hashmap.h:10-11 | delete-with-shift keeps the other names' positions in the same order and distinct positions distinct |
| Positions.DelShiftInSync | src/cg_hashmap.h:10-11 | if the map agrees with the external vector, then removing the record at `p` from the vector and delete-shifting its name keeps them in agreement |
| Positions.AppendInSync | src/cg_hashmap.h:5-6 | if the map agrees with the external vector, then appending a new name to the vector and setting it to the end position keeps them in agreement |
| IndexTable.ConsistentEmpty | src/cg_hashmap.h:66-67 | a table of EMPTY slots with no cell written is consistent with the empty map |
| IndexTable.EmptySlot | src/cg_hashmap.h:66-69 | while fewer cells are written than there are slots, some slot is EMPTY, so every probe loop stops |
| IndexTable.InsertFresh | src/cg_hashmap.h:66-67 | appending the entry of an absent name and binding it in the first entry-free slot of its probe sequence gives a table consistent with the map extended by that name |
| IndexTable.Overwrite | src/cg_hashmap.h:39 | overwriting the stored position in a bound name's cell gives a table consistent with the updated map, with no slot touched |
| IndexTable.Remove | src/cg_hashmap.h:42-43 | turning a bound name's slot DUMMY and its cell vacant gives a table consistent with the map without that name; the other names' probes still pass the DUMMY slot |
| IndexTable.ProbeStops | src/cg_hashmap.h:42-43 | a probe that stops at an EMPTY slot or at the name's own entry has found that entry if the name is bound, and an EMPTY slot if it is not |
| IndexTable.Shift | src/cg_hashmap.h:10-11 | lowering by one every stored position above `p` turns a table consistent with `m` into one consistent with `m` shifted down above `p` |
| Hashmap.FindEmptySlot | src/cg_hashmap.h:66-67 | the probe loop for an insertion returns the first slot on the hash's probe sequence that holds no entry, with the steps taken |
| Hashmap.FindEntry | src/cg_hashmap.h:35-40 | the lookup probe loop returns EMPTY, or the index of a live cell with the same cached hash and name; every slot passed before it was non-EMPTY and not that name's |
| Hashmap.Rebuild | src/cg_hashmap.h:92-97 | a rebuild copies the live cells in order into fresh arrays of the new size and rebinds them, giving a table consistent with the same map |
| Hashmap.Insert | src/cg_hashmap.h:66-67 | appending an absent name's entry as cell `n` and binding it keeps the table consistent with the extended map |
| Hashmap.Assign | src/cg_hashmap.h:39 | overwriting a bound name's position changes only that cell and keeps the table consistent with the updated map |
| Hashmap.ShiftPositions | src/cg_hashmap.h:10-11 | the shift loop lowers by one every stored position above `p` in the written cells and leaves the other cells as they were |
| Hashmap.Delete | src/cg_hashmap.h:111 | DUMMY slot, vacant cell and shift together keep the table consistent with the delete-shifted map |
| Hashmap.EmptyKeys | src/cg_hashmap.h:85 | a fresh keys object of a valid size is well-formed and holds the empty map |
| Hashmap.GrowKeys | src/cg_hashmap.h:97 | rebuilding a well-formed keys object gives fresh arrays of the rebuild size, well-formed and holding the same map, with room for one entry more |
| Hashmap.AssignKeys | src/cg_hashmap.h:109 | the overwrite path keeps a keys object well-formed, now holding the updated map |
| Hashmap.DeleteKeys | src/cg_hashmap.h:111 | the delete-with-shift path keeps a keys object well-formed with one live entry fewer, holding the delete-shifted map |
| Hashmap.HashMap.ValidBounds | src/cg_hashmap.h:60-69 | a valid map has a power-of-two table of at least MAP_MINSIZE slots, `used <= nentries <= usable < tableSize`, and every slot EMPTY, DUMMY or an entry index below `nentries`, hence below the usable fraction |
| Hashmap.HashMap.New | src/cg_hashmap.h:104 | a new map is valid and empty, with a table of MAP_MINSIZE slots |
| Hashmap.HashMap.NewPresized | src/cg_hashmap.h:105 | a pre-sized map is valid and empty, holds `minused` entries before any rebuild, and has MAP_MINSIZE slots when that holds them, otherwise the smallest power of two from 16 on that covers `(3n+1)/2` |
| Hashmap.HashMap.Clear | src/cg_hashmap.h:106 | clear leaves a valid map with no name bound, `used == 0`, no cell written and a fresh table of MAP_MINSIZE slots |
| Hashmap.HashMap.Lookup | src/cg_hashmap.h:108 | the probe finds a bound name's own cell and slot, and reports EMPTY for an absent name |
| Hashmap.HashMap.GetItem | src/cg_hashmap.h:108 | get returns the bound name's position and MAPIX_EMPTY for an absent name; the result is non-negative exactly when the name is bound |
| Hashmap.HashMap.Contains | src/cg_hashmap.h:110 | contains is true exactly when the name is bound, which is exactly when get returns a non-negative position |
| Hashmap.HashMap.Resize | src/cg_hashmap.h:97 | a rebuild keeps the map valid with the same contents, and the live cells are copied in order into fresh arrays of the smallest power-of-two size covering the request, with room left for an insertion |
| Hashmap.HashMap.Reassign | src/cg_hashmap.h:109 | setting a bound name overwrites its position in place: same arrays, same counts |
| Hashmap.HashMap.Append | src/cg_hashmap.h:109 | setting an absent name with room left appends one cell and one live entry in the same arrays |
| Hashmap.HashMap.DeleteBound | src/cg_hashmap.h:111 | deleting a bound name keeps the map valid, keeps `nentries`, drops `used` by one and leaves the delete-shifted contents |
| Hashmap.HashMap.SetItem | src/cg_hashmap.h:109 | after set, the name is bound to the value and every other name keeps its binding. A bound name is overwritten in place without a new entry; an absent name is appended, after a rebuild into fresh arrays exactly when the entry array was full |
| Hashmap.HashMap.DelShift | src/cg_hashmap.h:111 | on a bound name at position `p`: status 0, the name gone, the number of written cells unchanged, positions above `p` down by one, the others unchanged, `used` down by one. On an absent name: status -1 and nothing changed |

## Left out

- The name hash function is a parameter (`hashOf`) of the map. The hash code, and its remapping away from the sentinel values, are not part of this model.
- Memory layout is not modelled. The header keeps the index slots in a flexible `char map_indices[]` with the entries placed after it. Here the index table is an `array<int>` and the entries an `array<Entry>`. Slot width appears only as the function `IndexBytes` and its lemmas.
- The platform `#if` blocks are not modelled. Integers are unbounded, and `IndexFitsWidth` assumes a 64-bit `map_ssize_t`. Overflow of the size arithmetic (`3 * used`, `(3n+1)/2`, doubling) is not modelled.
- The `lookdict` function-pointer commentary describes a field that the structure does not have, so it is not modelled.
- Allocation and its failure are not modelled: every allocation succeeds. For that reason `SetItem` always returns 0.
- The pre-sized constructor does not clamp very large requests the way CPython's `max_presize` does. It sizes the table for any `minused`.
- The external vector is not part of the map. It appears only as a `seq<Name>` in `InSync` and the two lemmas about it.
- Names are strings of at most 32 characters. Copying into the fixed `char[33]` buffer and handling over-long names are not modelled.
- The `.c` file with the operation bodies is not part of this model. The bodies follow CPython's dict as described above.
- Hashmap.HashMap.Resize: the new size depends only on `3 * used`, so a rebuild after deletions may keep the table size or shrink the table (from 64 slots with one live name it rebuilds into 8). It is not a growth in the sense of a strictly larger table; CPython's dict, whose growth rate this is, behaves the same way.
- Hashmap.HashMap.SetItem: requires a non-negative position. A stored negative position would read back from get as a sentinel, and positions are indices into the external vector.
- Hashmap.HashMap.DelShift: the deleted entry's cell stays in the entry array as a vacant cell until the next rebuild. The array is not compacted.
- Hashmap.HashMap.Lookup: never returns MAPIX_ERROR. Name comparison cannot fail, so the model has no error path for it.
