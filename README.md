# xe::BitMap — a verified model of Xenia's bitmap slot allocator

`xe::BitMap` (`src/xenia/base/bit_map.cc`) hands out numbered slots. It keeps
a vector `data_` of 32-bit words, one bit per slot:

- bit value 1 means the slot is free, and 0 means it is taken;
- slot `i * 32 + k` is bit `31 - k` of word `i`, so slots are numbered from
  the most significant bit down;
- `Acquire` finds the first word that is not zero, takes its leading set
  bit (found with `lzcnt`) and returns `i * 32 + lzcnt(word)`, or
  `(size_t)-1` when every word is zero;
- `Release(index)` sets the bit of `index` back to 1;
- `Resize(bytes)` resizes the vector to `bytes / 4` words and fills every
  word it adds with all ones;
- `Reset` fills every word with all ones;
- there are three constructors: empty, sized (all free), and copying a
  caller's words.

The project has three modules.

- `WordBits` (`word_bits.dfy`) covers one word. Local slot `k` is a `bv5`,
  and `Mask(k)` is `1 << (31 - k)`. It defines `IsFree`, `Clear` (`w & ~bit`)
  and `Set` (`w | bit`), and `Lzcnt` as the first free local slot, with
  lzcnt(w) == 32 exactly when w == 0.
- `BitMaps` (`bit_map.dfy`) is the class and the functions that specify it.
  - `class BitMap` holds `data: seq<Word>`. Its methods reassign `data`, and
    the loops of `Acquire`, `Resize` and `Reset` are `for` loops with
    invariants.
  - Each method is proved against a function of the old state:
    - `Take` and `Give` are the one-word update of Acquire and Release;
    - `FirstFit` is the slot Acquire chooses;
    - `Resized` is `std::vector::resize` followed by the fill;
    - `Ones` is the all-free state.
  - Lemmas state what those functions mean slot by slot.
- `BitMapRuns` (`bit_map_runs.dfy`) follows several calls in a row:
  - after `Reset`, the acquires return 0, 1, …, capacity − 1 and then the
    sentinel;
  - no run of acquires hands out a slot twice, or a slot that was taken;
  - Release undoes Acquire, and, when no slot is free, Acquire undoes
    Release.

`size_t` is the subset type `SizeT` (0 ≤ n < 2^64). The sentinel `(size_t)-1`
is `NoFreeSlot`, 2^64 − 1.

The class invariant `Valid()` keeps the bitmap below `MaxWords` = 2^59
words. Under that bound every slot index `i * 32 + k` is a `size_t` strictly
below the sentinel. `Resize` and the constructors require that the new
number of words is below `MaxWords`.

Shrinking is described as unsupported, but the code handles it:
`std::vector::resize` truncates the vector, and `Resize` then fills
nothing. The model follows the code (`Resized` keeps the first `n` words).

## Model

| member | source | states |
|---|---|---|
| `WordBits.Mask` | src/xenia/base/bit_map.cc:45 | the single-bit word `1 << (kDataSizeBits - index - 1)` of local slot index (also line 65) |
| `WordBits.IsFree` | src/xenia/base/bit_map.cc:47 | local slot k of a word is free exactly when `entry & bit` is not zero, a 1 bit meaning free |
| `WordBits.Clear` | src/xenia/base/bit_map.cc:45-46 | `entry & ~bit` makes the chosen local slot taken |
| `WordBits.ClearKeepsOthers` | src/xenia/base/bit_map.cc:45-46 | clearing one bit leaves every other local slot of the word as it was |
| `WordBits.Set` | src/xenia/base/bit_map.cc:73 | or-ing `bit` into `entry` makes the chosen local slot free |
| `WordBits.SetKeepsOthers` | src/xenia/base/bit_map.cc:73 | setting one bit leaves every other local slot of the word as it was |
| `WordBits.SetClear` | src/xenia/base/bit_map.cc:45-73 | setting a bit that was just cleared (and was set before) restores the word |
| `WordBits.ClearSet` | src/xenia/base/bit_map.cc:45-73 | clearing a bit that was just set (and was clear before) restores the word |
| `WordBits.AllFreeAndZero` | src/xenia/base/bit_map.cc:85 | every local slot of the all-ones word `-1` is free, no local slot of 0 is |
| `WordBits.Lzcnt` | src/xenia/base/bit_map.cc:37-42 | lzcnt(w) is at most 32, and is 32 exactly when the word is 0, which ends the search of a word |
| `WordBits.LzcntFromFirstFree` | src/xenia/base/bit_map.cc:37 | the bit scan from position k stops at a set bit, and no bit from k up to it is set |
| `WordBits.LzcntFromZero` | src/xenia/base/bit_map.cc:37-42 | the bit scan finds no set bit exactly when the word is 0 |
| `WordBits.LzcntFirstFree` | src/xenia/base/bit_map.cc:37-45 | lzcnt(w) below 32 is a free local slot, and every local slot before it (every more significant bit) is taken |
| `WordBits.LzcntBitSet` | src/xenia/base/bit_map.cc:45-47 | in a nonzero word the bit lzcnt names is set, so `assert_not_zero(entry & bit)` holds |
| `WordBits.NoFreeIsZero` | src/xenia/base/bit_map.cc:38-41 | a word none of whose 32 slots is free is 0 |
| `BitMaps.Free` | src/xenia/base/bit_map.cc:61-71 | slot j is free exactly when bit `31 - j % 32` of word `j / 32` is 1, the slot/offset split of Release |
| `BitMaps.Take` | src/xenia/base/bit_map.cc:45-50 | the words with slot j taken: word `j / 32` becomes `entry & ~bit`, the length is kept (slot effect in `TakeSlots`) |
| `BitMaps.Give` | src/xenia/base/bit_map.cc:65-74 | the words with slot j freed: word `j / 32` becomes `entry` or-ed with `bit`, the length is kept (slot effect in `GiveSlots`) |
| `BitMaps.TakeSlots` | src/xenia/base/bit_map.cc:45-50 | after taking slot j it is taken, and every other slot of the bitmap is unchanged |
| `BitMaps.GiveSlots` | src/xenia/base/bit_map.cc:61-74 | after freeing slot j it is free, and every other slot of the bitmap is unchanged |
| `BitMaps.GiveTake` | src/xenia/base/bit_map.cc:45-74 | releasing a slot just taken restores every word |
| `BitMaps.TakeGive` | src/xenia/base/bit_map.cc:45-74 | taking a slot that was taken and was just released restores every word |
| `BitMaps.TakeInWord` | src/xenia/base/bit_map.cc:45-54 | taking slot `i * 32 + n` is clearing bit `31 - n` of word i and nothing else |
| `BitMaps.FirstFitFrom` | src/xenia/base/bit_map.cc:30-55 | scanning from word i finds nothing exactly when every word from i on is 0, and otherwise a slot of a word from i on |
| `BitMaps.FirstFitFromFirstFree` | src/xenia/base/bit_map.cc:30-55 | the slot found from word i is free, no slot from word i up to it is free, and when nothing is found no slot from word i on is free |
| `BitMaps.FirstInWord` | src/xenia/base/bit_map.cc:36-54 | in a nonzero word i, slot `i * 32 + lzcnt` is free and no earlier slot of that word is |
| `BitMaps.ZeroWordTaken` | src/xenia/base/bit_map.cc:37-41 | every slot of a zero word is taken |
| `BitMaps.FirstFit` | src/xenia/base/bit_map.cc:29-58 | the choice is None exactly when every word is 0, and otherwise below the capacity |
| `BitMaps.FirstFitFirstFree` | src/xenia/base/bit_map.cc:29-58 | the choice is None exactly when no slot is free, and otherwise the lowest-numbered free slot |
| `BitMaps.FirstFitSkipsZeroWords` | src/xenia/base/bit_map.cc:30-42 | skipping a prefix of zero words does not change the choice |
| `BitMaps.FirstFitIsLzcntOfFirstNonZeroWord` | src/xenia/base/bit_map.cc:30-54 | the choice is `i * 32 + lzcnt(entry)` for the first word i that is not zero |
| `BitMaps.AcquireInWord` | src/xenia/base/bit_map.cc:45-54 | the leading bit lzcnt names in the first nonzero word is set, and clearing it takes the first-fit slot, whose index is below the capacity and below `(size_t)-1` |
| `BitMaps.CapacityBelowSentinel` | src/xenia/base/bit_map.cc:54-58 | under the word bound, no slot index reaches the sentinel |
| `BitMaps.Ones` | src/xenia/base/bit_map.cc:90-94 | n words, each the `-1` that Reset and the fill in Resize store (every slot free by `OnesAllFree`) |
| `BitMaps.OnesAllFree` | src/xenia/base/bit_map.cc:90-94 | every slot of an all-ones bitmap is free |
| `BitMaps.Resized` | src/xenia/base/bit_map.cc:77-88 | exactly n words result; every word below min(old size, n) is unchanged, and every word from the old size up to n is `0xFFFFFFFF` |
| `BitMaps.ResizedSlots` | src/xenia/base/bit_map.cc:77-88 | after resizing, every surviving slot keeps its state and every added slot is free |
| `BitMaps.BitMap.constructor` | src/xenia/base/bit_map.cc:18 | the default bitmap has no words |
| `BitMaps.BitMap.Sized` | src/xenia/base/bit_map.cc:20 | `BitMap(size)` has `size / 4` words, all ones |
| `BitMaps.BitMap.FromWords` | src/xenia/base/bit_map.cc:22-27 | `BitMap(data, size)` requires `size % 4 == 0` and holds exactly the first `size / 4` words of the input |
| `BitMaps.BitMap.Acquire` | src/xenia/base/bit_map.cc:29-58 | the result is the sentinel or an index below the capacity; it is the sentinel exactly when every word is 0, and then nothing changes; otherwise it is the first-fit slot, and the words become `Take(old, r)` |
| `BitMaps.BitMap.Release` | src/xenia/base/bit_map.cc:61-74 | for a taken slot below the capacity, the words become `Give(old, index)` |
| `BitMaps.BitMap.Resize` | src/xenia/base/bit_map.cc:77-88 | for a size that is a multiple of 4, the words become `Resized(old, newSize / 4)` |
| `BitMaps.BitMap.Reset` | src/xenia/base/bit_map.cc:90-94 | the length is kept and every word becomes all ones |
| `BitMapRuns.Next` | src/xenia/base/bit_map.cc:29-58 | the words after one Acquire, of the same length |
| `BitMapRuns.Run` | src/xenia/base/bit_map.cc:29-58 | the results of n Acquire calls in a row, one per call |
| `BitMapRuns.AcquireFromTakenBelow` | src/xenia/base/bit_map.cc:29-58 | when exactly the slots from k on are free, Acquire returns k and leaves exactly the slots from k + 1 on free, or returns the sentinel once k is the capacity |
| `BitMapRuns.DrainFrom` | src/xenia/base/bit_map.cc:29-58 | from exactly the slots from k on free, the acquires return k, k + 1, …, capacity − 1 and then the sentinel |
| `BitMapRuns.ResetThenDrain` | src/xenia/base/bit_map.cc:90-94 | after Reset, consecutive acquires return 0, 1, …, capacity − 1 in order and then the sentinel |
| `BitMapRuns.NextKeepsFree` | src/xenia/base/bit_map.cc:45-50 | a slot free after an Acquire was free before it and is not the slot returned |
| `BitMapRuns.AcquireIsNext` | src/xenia/base/bit_map.cc:29-58 | a call of `BitMap.Acquire` leaves `Next` of the old words and returns their `FirstFit` choice, the sentinel exactly when there is none |
| `BitMapRuns.RunReturnsFree` | src/xenia/base/bit_map.cc:29-58 | every slot a run of acquires returns is below the capacity and was free at the start |
| `BitMapRuns.RunDistinct` | src/xenia/base/bit_map.cc:29-58 | no run of acquires returns the same slot twice |
| `BitMapRuns.ReleaseUndoesAcquire` | src/xenia/base/bit_map.cc:45-74 | releasing the index a successful Acquire just returned restores the words |
| `BitMapRuns.AcquireAfterRelease` | src/xenia/base/bit_map.cc:61-74 | when no slot is free, releasing slot j makes the next Acquire return j and give back the words as they were |

## Left out

- Concurrency: the `atomic_cas` retry loops (`bit_map.cc:35-50`, `bit_map.cc:69-74`) are one read-modify-write of one word. That is what they do when nothing runs at the same time. Interleavings and memory ordering are not modelled.
- `memcpy` from a raw pointer and native byte order (`bit_map.cc:26`): the input of `BitMap(data, size)` is a sequence of 32-bit words. The caller's buffer must hold `size / 4` words.
- How `lzcnt` in `xenia/base/math.h` is implemented: that header is not part of this model. `Lzcnt` is specified as the leading-zero count of a 32-bit value, with lzcnt(0) == 32.
- `bit_map.h` is not part of this model. The word width `kDataSizeBits` is the constant 32.
- `assert_true(size % 4 == 0)`, `assert_zero(entry & bit)` and `assert_not_zero(entry & bit)` become `requires` clauses, except the last, which `Acquire` asserts, from `BitMaps.AcquireInWord` and `WordBits.LzcntBitSet`. Abort versus undefined behaviour when they fail is not modelled.
- `BitMaps.BitMap.Release` requires `index < capacity`, because the source does no bounds check and reads `data_[slot]`.
- `BitMaps.BitMap.Resize`, `BitMaps.BitMap.Sized` and `BitMaps.BitMap.FromWords` require fewer than 2^59 words. Every `Acquire` result `i * 32 + k` then fits a 64-bit `size_t` and differs from `(size_t)-1`. The source has no such bound; with 2^59 words or more its arithmetic would wrap or collide with the sentinel.
- `1 << 31` on a signed `int` (`bit_map.cc:45`, `bit_map.cc:65`) is taken to give the word `0x80000000`, as it does on the compilers Xenia targets.
