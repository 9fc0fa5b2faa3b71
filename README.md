# Lomuto vs Hoare quicksort, modelled in Dafny

This project models the sorting engine behind the "Lomuto vs Hoare
partition" animation. The scene keeps two copies of the keys
`[4, 2, 8, 3, 1, 5, 7, 6]` and sorts one with Lomuto's partition scheme and
the other with Hoare's. Each partition is paired with its own quicksort
driver. The model has four modules:

- `SequenceStore` is the mutable array of keys. Its one mutator is `Swap`.
  It also holds the facts about sortedness, distinct keys and rearrangements
  that both sorts rely on.
- `Lomuto` holds the partition and its driver.
  - The pivot is the last key of the range.
  - A boundary `i` closes the zone of keys at most the pivot, while a scan
    `j` walks the rest of the range.
  - A final swap puts the pivot in its slot.
  - The driver sorts `low..pi-1` and `pi+1..high`, leaving out the pivot's
    slot.
- `Hoare` holds the partition as the scene writes it, and its driver.
  - The pivot value is the key in the middle slot, `floor((low+high)/2)`.
  - Two cursors close in from the ends of the range.
  - After a swap, the scans resume from the two slots just swapped.
  - The split slot is returned, and the driver sorts `low..pi` and
    `pi+1..high`.
  - The module also holds the corrected partition (see "## Findings").
- `Scene` holds the top-level run. The two sorts share no array, so the
  order in which the animation interleaves their steps cannot affect either
  result. The model runs them one after the other.

Partitions and drivers are methods on `array<int>` that change the array in
place. Each one is proved to do three things:

- rearrange only its own range (`PermutedWithin`: same multiset of keys, and
  every slot outside the range untouched);
- leave the keys on each side of the split related to the pivot as the
  source promises;
- for the drivers, sort the range.

The keys are modelled as mathematical integers.

## Model

| member | source | states |
|---|---|---|
| SequenceStore.Swap | lomuto-vs-hoare-partition/src/scenes/example.tsx:111 | the two slots exchange their keys and every other slot keeps its key; swapping a slot with itself changes nothing; the multiset of keys is kept |
| Lomuto.Partition | lomuto-vs-hoare-partition/src/scenes/example.tsx:97-131 | returns the slot `p` in `low..high` that now holds the old `a[high]`; keys before `p` are at most the pivot and keys after it are greater; only the range is rearranged; when every key of the range is at most the pivot (a sorted range, say), `p == high` and the array is unchanged |
| Lomuto.SortedAroundPivot | lomuto-vs-hoare-partition/src/scenes/example.tsx:209-212 | once the pivot's slot splits the range, sorting both sides in place sorts the whole range |
| Lomuto.Quicksort | lomuto-vs-hoare-partition/src/scenes/example.tsx:208-214 | `a[low..high]` ends sorted and is a rearrangement of its old keys; no slot outside the range changes; a range of at most one slot is left as it was |
| Hoare.Mid | lomuto-vs-hoare-partition/src/scenes/example.tsx:137 | the pivot slot lies in `low..high`, and lies strictly below `high` when the range has two slots or more |
| Hoare.Partition | lomuto-vs-hoare-partition/src/scenes/example.tsx:136-205 | given that the middle key occurs only in the middle slot, returns `p` in `low..high`; keys up to `p` are at most the pivot value and keys after `p` are at least that value; only the range is rearranged; `p == high` happens only when the pivot ends at `high` above every other key of the range |
| Hoare.SwappedSlot | lomuto-vs-hoare-partition/src/scenes/example.tsx:201 | after a swap within the range, the one slot holding the pivot value is again unique: it is the slot its key moved to |
| Hoare.AloneAtEnd | lomuto-vs-hoare-partition/src/scenes/example.tsx:190-194 | when the scans stop at `high`, the range ends in its strict maximum |
| Hoare.EqualKeysLivelock | lomuto-vs-hoare-partition/src/scenes/example.tsx:177-204 | when both cursors rest on keys equal to the pivot (e.g. `[5, 5]`), neither scan moves, the cursors have not met, and the swap leaves the keys unchanged, so the same round repeats forever |
| Hoare.PivotAlone | lomuto-vs-hoare-partition/src/scenes/example.tsx:137-138 | in a range of distinct keys, the middle key occurs in no other slot, which `Hoare.Partition` requires |
| Hoare.DistinctSides | lomuto-vs-hoare-partition/src/scenes/example.tsx:219-221 | after a partition of distinct keys, both sides of the split hold distinct keys, so both recursive calls may be made |
| Hoare.StrictMaxStays | lomuto-vs-hoare-partition/src/scenes/example.tsx:219-220 | two rearrangements of a range that both end in their strict maximum end in the same key, so a split at `high` cannot repeat and the driver terminates |
| Hoare.SortedAroundSplit | lomuto-vs-hoare-partition/src/scenes/example.tsx:219-221 | once the split separates keys at most `v` from keys at least `v`, sorting `low..p` and `p+1..high` in place sorts the whole range |
| Hoare.Quicksort | lomuto-vs-hoare-partition/src/scenes/example.tsx:217-223 | for a range of distinct keys, `a[low..high]` ends sorted and is a rearrangement of its old keys; no slot outside the range changes; a range of at most one slot is left as it was |
| Hoare.PartitionAdvancing | lomuto-vs-hoare-partition/src/scenes/example.tsx:177-204 | corrected partition, for any keys: returns `p` with `low <= p < high`; keys up to `p` are at most the pivot value and keys after `p` are at least that value; only the range is rearranged |
| Hoare.QuicksortAdvancing | lomuto-vs-hoare-partition/src/scenes/example.tsx:217-223 | the driver on the corrected partition sorts any range in place, equal keys included, and terminates |
| SequenceStore.PermutedRange | lomuto-vs-hoare-partition/src/scenes/example.tsx:111 | when only a range may differ, two arrays hold the same keys exactly when the two ranges do (both directions) |
| SequenceStore.PermutedFrom | lomuto-vs-hoare-partition/src/scenes/example.tsx:111 | every key that a rearrangement of a range leaves in that range came from that range |
| SequenceStore.DistinctIffCountsAtMostOne | lomuto-vs-hoare-partition/src/scenes/example.tsx:5-6 | a sequence has distinct keys exactly when no key occurs in it twice (both directions) |
| SequenceStore.DistinctPermuted | lomuto-vs-hoare-partition/src/scenes/example.tsx:219-221 | rearranging keys keeps them distinct |
| SequenceStore.SortedPermutationUnique | lomuto-vs-hoare-partition/src/scenes/example.tsx:226-229 | two sorted arrangements of the same keys are equal, so both runs end with the same array |
| SequenceStore.SortedRangeFixed | lomuto-vs-hoare-partition/src/scenes/example.tsx:208-223 | sorting a range that is already sorted leaves the array unchanged, whichever scheme is used |
| SequenceStore.SortedJoin | lomuto-vs-hoare-partition/src/scenes/example.tsx:210-212 | two sorted pieces separated by a value join into a sorted piece |
| Scene.Load | lomuto-vs-hoare-partition/src/scenes/example.tsx:5-6 | each run gets a fresh array holding the input keys |
| Scene.SortBothAsWritten | lomuto-vs-hoare-partition/src/scenes/example.tsx:226-229 | with the partitions as written, two separate copies of distinct keys both end sorted, with the input's keys, and equal |
| Scene.SortBoth | lomuto-vs-hoare-partition/src/scenes/example.tsx:226-229 | with the corrected Hoare partition, two separate copies of any keys both end sorted, with the input's keys, and equal |
| Scene.Run | lomuto-vs-hoare-partition/src/scenes/example.tsx:5-6 | the scene's run sorts both copies of `[4, 2, 8, 3, 1, 5, 7, 6]` into `[1, 2, 3, 4, 5, 6, 7, 8]` |
| Scene.ExampleKeys | lomuto-vs-hoare-partition/src/scenes/example.tsx:5-6 | the scene's keys are exactly 1..8, each once |
| Scene.InOrder | lomuto-vs-hoare-partition/src/scenes/example.tsx:5-6 | `[1, 2, 3, 4, 5, 6, 7, 8]` is sorted and has distinct keys |

## Left out

- Rendering is not modelled. This covers the boxes, texts, pivot circle and
  cursor lines, their tweens and `waitFor` pauses, and the removal of markers
  before a partition returns. None of it reads or writes the keys.
- Generators and `yield*` are left out. Each function is modelled as a plain
  method that runs to completion.
- The `all(...)` interleaving of the two runs is modelled as sequential. The
  runs share no array, so no interleaving can change either result.
- JavaScript numbers are modelled as unbounded integers. The keys are small
  integers, and `Math.floor((low+high)/2)` on non-negative slots equals
  Dafny's `/`.
- Hoare.Partition: requires that the pivot value occurs in the range only in
  the middle slot. Without that the source can loop forever (see
  `Hoare.EqualKeysLivelock`), so no termination can be proved.
- Hoare.Quicksort: requires distinct keys in the range, for the same reason.
  The scene's keys are distinct, and `Scene.Run` proves this.
- Hoare.Partition: does not state that a sorted range needs no swap.
  - For the drivers, `SequenceStore.SortedRangeFixed` proves that an already
    sorted range stays unchanged.
  - Hoare's scans on a sorted range run to the middle slot and do not stop
    at once. The model follows the code here.
- Lomuto.Quicksort, Hoare.Quicksort: require `0 <= low <= high + 1 <=
  length`. Every call the source makes meets this, including the top-level
  call on an empty array.
- Termination on all-equal keys is not claimed for the scene's Hoare
  partition. The code livelocks on such keys (see "## Findings"), so the
  model follows the code. Only `Hoare.QuicksortAdvancing` is proved to
  terminate for any keys.
- The number of steps (`O(high-low)` per partition) and the recursion depth
  are not modelled.

## Findings

| source | as written | input that shows it | evidently intended | confidence | as-written member | corrected member |
|---|---|---|---|---|---|---|
| lomuto-vs-hoare-partition/src/scenes/example.tsx:177-204 | after a swap, neither cursor moves past the swapped slots, so two keys equal to the pivot stop both scans and are swapped again and again | `hoareQuicksort(0, 1)` on `[5, 5]`: pivot 5; `low` stays at 0 and `high` at 1; swapping them changes nothing; the loop never ends | Hoare's partition terminates for any keys, duplicates included, as in the classical scheme where both cursors step past a swap | high (not executed) | Hoare.EqualKeysLivelock | Hoare.PartitionAdvancing |
