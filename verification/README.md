# Playlist_Balancer in Dafny

A functional model of the core of `Playlist_Balancer.py`: the list path of a
playlist shuffler that first cuts a playlist into sections and then
interleaves the sections at random, one item from every section per round.

- `ListBalancer(array, number_sections, no_remainder)` validates its
  arguments and cuts the list into consecutive sections of `number_sections`
  items, followed by one trailing section with the remainder (empty when the
  length divides evenly). Without `number_sections` the section length is the
  integer square root of the list length. The empty list gives "no
  distribution", a section length of at least the list length gives the list
  back unchanged, and a remainder is refused when `no_remainder` is set.
- `RandomCycleSelect(subarray)` pads the last section with `None`
  placeholders up to the length of the first section when the lengths differ,
  then runs one round per item of the longest section. Each round pops one
  randomly chosen item from every section in section order and keeps the
  ones that are not `None`.
- `PlaylistBalancer(list, ...)` with a list argument chains the two when
  `only_return_array` is set.

Files:

- `wrappers.dfy`: `Option`, `Result` and the `Error` kinds: one kind per way
  the balancer fails, either an exception it raises or a failure of a
  built-in it calls.
- `seqs.dfy`: joining groups, Python's clamped slicing and reversal, the
  `x != None` filter (`Present`) and small index arithmetic.
- `list_balancer.dfy`: `ListBalancer` and the partition it produces.
- `random_cycle_select.dfy`: padding, popping, rounds, and the interleaver
  with its permutation and round-structure theorems.
- `playlist_balancer.dfy`: `PlaylistBalancer` on a list, end to end.
- `examples_of_use.dfy`: concrete calls worked out by the verifier.

Modelling choices:

- Playlist items are `Option<T>`, so the model can express Python's `None`.
  The interleaver returns the `T` values of the items that are not `None`.
- `random.randint` becomes an `Oracle`, a function from (round, section) to
  a natural number. The popped position is that number modulo the section's
  current length. Every position can therefore be chosen and none outside
  the section. Every theorem about the interleaver holds for every oracle.
- Mutation in place is modelled functionally:
  - the padded last section is part of the new sequence of groups;
  - each `pop` returns the item and what is left of the section.
- Every exception becomes an `Err` value of the `Result` type.

## Model

| member | source | states |
|---|---|---|
| ListBalancing.ListBalancer | Playlist_Balancer.py:43-83 | Gives "no distribution" exactly for the empty list. Refuses a non-positive section length exactly when one is given. Returns the list itself exactly when the section length reaches the list length. Refuses a remainder exactly when `no_remainder` is set and the length does not divide. Otherwise returns a partition into full sections and one trailing remainder section, which joins back to the list. |
| ListBalancing.FloorSqrt | Playlist_Balancer.py:52-53 | The default section length `r` satisfies `r*r <= n < (r+1)*(r+1)`. |
| ListBalancing.SectionLength | Playlist_Balancer.py:52-53 | A given section length is used as given. Without one, a non-empty list gets a positive length no larger than the list. `FloorSqrt` states which one. |
| ListBalancing.Chunks | Playlist_Balancer.py:80 | The comprehension yields exactly `cycles` sections. `ChunkIsSlice` and `ChunksJoin` state what they hold. |
| ListBalancing.Chunk | Playlist_Balancer.py:80 | Section `i` is Python's clamped slice from `i*ns` to `(i+1)*ns`. `ChunkIsSlice` states that the slice is in bounds and what it holds. |
| ListBalancing.Split | Playlist_Balancer.py:76-81 | The cut yields `len // ns + 1` sections. `SplitSizes`, `SplitJoins` and `SplitIsPartition` state their sizes and that they join back to the list. |
| ListBalancing.ChunkIsSlice | Playlist_Balancer.py:80 | Comprehension entry `i` is the in-bounds slice `array[i*ns:(i+1)*ns]`. |
| ListBalancing.ChunksJoin | Playlist_Balancer.py:80 | The first `cycles` sections, joined, are the prefix of `cycles*ns` items. |
| ListBalancing.SplitSizes | Playlist_Balancer.py:76-81 | There are `len // ns + 1` sections: full ones of `ns` items and a trailing one of `len % ns` items. |
| ListBalancing.SplitJoins | Playlist_Balancer.py:76-81 | Joining the sections, the reversed-slice tail included, gives the list back in order. |
| ListBalancing.SplitIsPartition | Playlist_Balancer.py:76-81 | The sections form a partition of the list in the sense of `IsPartition`. |
| Seqs.Slice | Playlist_Balancer.py:80 | Python slicing with clamped bounds: the length is `hi - lo` when in range, everything from `lo` on when `hi` is past the end, empty when `hi <= lo` or `lo` is past the end, and element `i` is `s[lo+i]`. |
| Seqs.ReverseReverse | Playlist_Balancer.py:81 | Reversing twice gives the sequence back, so `[::-1]` loses and invents nothing. |
| Seqs.ReversedHeadIsTail | Playlist_Balancer.py:81 | `array[::-1][:k][::-1]` is the tail of the last `k` items, and empty for `k = 0`. |
| Seqs.Present | Playlist_Balancer.py:189 | The filter never lengthens a sequence. On a sequence without `None` it keeps every value in place. |
| Seqs.PresentCount | Playlist_Balancer.py:189 | The filter keeps every value as often as `Some` of it occurs. |
| Seqs.PresentOfPermutation | Playlist_Balancer.py:189 | Two rearrangements of the same draws filter to the same multiset of values. |
| CycleSelect.MaxLength | Playlist_Balancer.py:175-176 | `max(len_subarrs)` is at least every section's length and is the length of some section. |
| CycleSelect.Nones | Playlist_Balancer.py:182 | `[None for i in range(k)]` has `max(k, 0)` entries, all `None`. |
| CycleSelect.SameLengths | Playlist_Balancer.py:180 | The padding test: all sections as long as the first. `PadLengths` and `PadShape` state what padding does when it fails. |
| CycleSelect.Pad | Playlist_Balancer.py:180-182 | Padding keeps the number of sections and leaves every section but the last as it was. `PadLengths`, `PadShape` and `PadKeepsItems` state how the last one changes. |
| CycleSelect.PadLengths | Playlist_Balancer.py:178-182 | Padding keeps the number of sections. Every padded section reaches the maximum length exactly when all sections but the last already do; those sections then have exactly that length. |
| CycleSelect.PadShape | Playlist_Balancer.py:180-182 | Padding changes only the last section, and the last section gains only `None` entries. |
| CycleSelect.PadKeepsItems | Playlist_Balancer.py:180-182 | Padding leaves the filtered items of the joined sections unchanged. |
| CycleSelect.Pop | Playlist_Balancer.py:186 | `pop` removes exactly one occurrence of the returned item, which is in the section, and leaves one item fewer. |
| CycleSelect.Round | Playlist_Balancer.py:186 | A round succeeds exactly when no section is empty; a failure is `EmptyGroupDraw`. On success there is one draw per section and every section is one shorter. |
| CycleSelect.RoundPops | Playlist_Balancer.py:186 | Section `i` loses exactly the item drawn for it. The draws plus what is left are the sections' items. |
| CycleSelect.RoundDraws | Playlist_Balancer.py:186 | Each round makes one raw draw per section. `RoundsFirst` states that round `round` pops with exactly these draws. |
| CycleSelect.Rounds | Playlist_Balancer.py:184-190 | `count` rounds succeed exactly when every section holds at least `count` items. On success there are `count` rows of one draw per section. |
| CycleSelect.RoundsColumns | Playlist_Balancer.py:184-186 | Over the rounds, section `i` gives only its own items, each at most as often as it holds them, and all of them when it held exactly `count`. |
| CycleSelect.RoundsItems | Playlist_Balancer.py:184-186 | All draws together are a sub-multiset of the sections' items, and equal to it when every section held exactly `count`. |
| CycleSelect.Emit | Playlist_Balancer.py:188-190 | The filtered rounds, appended, are never longer than all draws together. `EmitIsPresent` and `EmitAt` state what they hold and where. |
| CycleSelect.EmitIsPresent | Playlist_Balancer.py:188-190 | Filtering round by round and appending equals filtering all draws at once. |
| CycleSelect.Draws | Playlist_Balancer.py:175-186 | No sections is `NoGroups`. Otherwise all `max` rounds succeed exactly when the sections are regular, giving `max` rows. `DrawsShape` states what the rows hold. |
| CycleSelect.RandomCycleSelect | Playlist_Balancer.py:163-192 | No sections is `NoGroups`. Otherwise the interleaver succeeds exactly when every section but the last has the maximum length, and otherwise fails with `EmptyGroupDraw`. |
| CycleSelect.SelectIsPermutation | Playlist_Balancer.py:163-192 | Whatever the draws, the interleaving of regular sections succeeds and is a rearrangement of the non-`None` items. With no `None` among them, nothing is lost. |
| CycleSelect.DrawsShape | Playlist_Balancer.py:184-186 | On regular sections there are `max` rows of one draw per section, and column `i` is a rearrangement of padded section `i`. |
| CycleSelect.FullGroupDraws | Playlist_Balancer.py:184-186 | Every section but the last gives each of its items exactly once over the rounds. |
| CycleSelect.LastGroupDraws | Playlist_Balancer.py:180-186 | The last section gives, each round, one of its items or a placeholder. |
| CycleSelect.EmitAt | Playlist_Balancer.py:188-190 | With `w` values kept per round, output position `j` is value `j % w` of round `j / w`. |
| CycleSelect.EqualGroupsRoundMajor | Playlist_Balancer.py:173-192 | For equal-length sections without `None`, the output has `len * K` items and position `j` is an item of section `j % K`. |
| CycleSelect.RegularGroupsRounds | Playlist_Balancer.py:173-192 | For regular sections without `None`, the output is `max` rounds. Each round has one item of every section but the last, in order, then at most one item of the last. |
| Playlist.PlaylistBalancer | Playlist_Balancer.py:153-195 | `ListBalancer`'s error comes first. Without `only_return_array` the result is `None`. A non-sectioned result is refused. A returned list is a rearrangement of the playlist's non-`None` items, of full length when there are no `None` items. |
| Playlist.SectionsArePadded | Playlist_Balancer.py:178-182 | `ListBalancer`'s sections are regular, with maximum `ns`. Padding fills only the trailing section, with `ns - len % ns` placeholders. |
| Playlist.BalancedPlaylist | Playlist_Balancer.py:153-195 | A list the balancer cuts into sections is always interleaved, for every draw, into a rearrangement of its items. |
| Playlist.EvenPlaylistRounds | Playlist_Balancer.py:184-195 | When the section length divides the list length, output position `j` is an item of section `j % c`, where `c` is the number of full sections. |
| Worked.EmptyListFirst | Playlist_Balancer.py:48-49 | The empty list gives "no distribution" even with a negative section length. |
| Worked.TenInFives | Playlist_Balancer.py:76-81 | Ten items in sections of 5 give `[[1..5], [6..10], []]`, with or without `no_remainder`. |
| Worked.TenInThrees | Playlist_Balancer.py:73-81 | Ten items in sections of 3 give `[[1,2,3],[4,5,6],[7,8,9],[10]]`, and are refused under `no_remainder`. |
| Worked.TenDerived | Playlist_Balancer.py:52-53 | Without a section length, ten items use sections of 3. |
| Worked.ShortList | Playlist_Balancer.py:56-62 | A section length of 5 gives three items back unchanged. A section length of 0 is refused. |
| Worked.PaddedInterleaving | Playlist_Balancer.py:178-190 | `[[1,2],[3]]` with first-position draws pads to `[3, None]` and gives `[1, 3, 2]`. |
| Worked.ShortMiddleGroup | Playlist_Balancer.py:180-186 | `[[1,2],[3],[4,5]]` is not padded, so its middle section runs out, for every draw. |

## Left out

- `FindPlaylistPath` (`Playlist_Balancer.py:85-116`) and the directory branch of `PlaylistBalancer`: these are file-system I/O. Only the list argument is modelled.
- Runtime type checks (`isinstance` on the list, the section length, `no_remainder` and `only_return_array`): Dafny's types rule these cases out.
- The `print` when the section length reaches the list length: it is output only, and the returned value is modelled.
- Floating-point `int(n ** (1/2))`: modelled as the exact integer floor square root. Floating-point rounding that would push the root across an integer is not modelled.
- The uniform distribution of `random.randint`: only which positions can be chosen is modelled, not how likely each one is.
- The mutable default argument of `ListBalancer`, and the in-place mutation of the caller's sections by padding and `pop`: the model returns new values instead.
- `only_return_array=False` performs no work in the code beyond the cut; the docstring's folder creation is not present in the code and is not modelled.
- Playlist.PlaylistBalancer: when the cut returns the empty-list sentinel `None`, Python raises a `TypeError` in the interleaver. When it returns the unchanged flat list, Python carries on only when every item has a length: zero-length strings give `[]` (as in `PlaylistBalancer(["", ""], 2)`), items that are lists are padded and popped from, equal-length non-empty strings fail with `AttributeError` on `pop`, strings of different lengths fail with `TypeError` when padding appends a list to a string (as in `PlaylistBalancer(["ab", "c"], 5)` or `["", "a"]`), and items without a length fail with `TypeError`. The model has no notion of an item's length and reports `NotGroups` in all of these cases.
- `number_sections` is, in the code, the length of each section and not the number of sections, as the docstring suggests. The model follows the code.
- Padding (`Playlist_Balancer.py:180-182`) happens only when the section lengths differ, fills only the last section, and only up to the first section's length. A short section elsewhere is not padded, so the interleaver pops from it once it is empty and fails; `Worked.ShortMiddleGroup` shows this. The model follows the code.
- Default arguments: `ListBalancer`'s `array=[1..10]`, `number_sections=5` and `no_remainder=False` (`Playlist_Balancer.py:18`), and `PlaylistBalancer`'s `number_sections=None`, `no_remainder=False` and `only_return_array=True` (`Playlist_Balancer.py:118`). Every argument is explicit in the model.
