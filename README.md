# visual-codec bit transform in Dafny

A model of the bit-level core of visual-codec. That core turns a file's
bytes into a string of '0' and '1', which is later stored as black and white
pixel chunks of `color_bitsize` bits. Decoding turns that string back into
bytes. The model covers:

- **Bit expansion** (`bit_vector_expand`, `bit_vector_shrink`,
  `find_most_bit`). A repetition code: each bit is written `exp` times, and
  shrinking reads back the most frequent bit of each window of `exp`
  characters.
- **Grouping** (`group_binstring`, `ungroup_binstring`). One pass over the
  string swaps bits so that runs line up with chunk boundaries. Each swap is
  recorded in a key of index deltas. Ungrouping replays the key backwards.
- **Padding** (`__pad_vector`, `__depad_vector`). Alignment bits are
  inserted near the tail of the grouped string. Later, bits are deleted
  scanning backwards from the end.
- **Byte conversion in the command-line tool** (`__bytes_to_binary_str`,
  `__binary_str_to_bytes`). Also the argument check that gates the codec:
  `exp_factor >= 1`, and `color_bitsize` is 1 or `% 8 == 0`.

Each Python routine that works by loops and in-place updates is a Dafny
`method` with the same loops:

- list swaps become updates of a local `array<char>`;
- `list.insert` and `del` become sequence updates.

Each method is proved equal to a specification function (`Expanded`,
`Shrunk`, `Padded`, `Depadded`, `Grouped`, `Ungrouped`, `BytesOf`). The
lemmas are stated about those functions.

Python operations are modelled explicitly. Module `Common` defines
floored `%` (`PyMod`), negative list indices and the IndexError they raise
(`PyIndex`), and `list.insert` with its clamping (`InsertPos`, `PyInsert`).
Two more belong to the routine that uses them:

- `range` with a zero step (ValueError) or a negative step (empty) is
  handled in `BitExpansion.Shrink`;
- `max(key=...)`, which keeps the first maximal element, is
  `BitExpansion.MaxByCount`.

Exceptions are an `Error` inside a `Result`. Sizes, factors and pad counts
are unbounded integers, negative values included. Python's integers are
unbounded too, so there is no wrap-around to model.

The model follows the code, including where it behaves differently from
what its names and docstrings suggest:

- **What the pad counts mean.** They are not the numbers of bits inserted,
  and `depad(pad(b)) == b` does not hold in general. The code returns
  `zeros % c` and `ones % c` but inserts `c - zeros % c` and `c - ones % c`
  bits. `__depad_vector` also moves its cursor on after every deletion.
  `Grouping.UniformExample` and `Grouping.UniformUngroupExample` show the
  result: `"0000"` with chunk size 8 comes back as `"000000"`. The key
  itself undoes the swapping pass for every non-zero chunk size and every
  input of at least 2 characters: replayed on the bits as they stand before
  padding, it gives the input back; shorter inputs raise IndexError
  (`Grouping.ReplayUndoesPass`). The full round trip through
  `ungroup_binstring` is therefore proved only when no padding is applied
  (`Grouping.UngroupGroup`).
- **Where padding goes.** The code inserts each run of padding before the
  last `zeros_ix` or `ones_ix` characters. When no offset was found, it
  inserts at index 1. The scan never counts position 0, so the trailing
  runs do not in general become multiples of `c`:
  `Grouping.TwoRunsPadExample` pads `"1100"` with chunk size 8 to nine ones
  followed by eight zeros.
- **The key format.** The key is a list of pairs of deltas
  `(i - prev_i, j - prev_j)`, not single step counts, and it always ends
  with `(l - prev_i, l - prev_j)`. So it is never empty: the empty string
  gets the key `[(0, 0)]` (`Grouping.EmptyExample`). Ungrouping takes no
  chunk size.
- **Short inputs.** Ungrouping a string shorter than 2 with the key
  grouping returned for it raises IndexError, because the last replayed
  swap touches `new[1]`. With an empty key the loop never runs and
  nothing is raised.

## Model

| member | source | states |
|---|---|---|
| `Common.PyMod` | visual_codec/codec.py:64-74 | Python's `%`: the result is congruent to the dividend modulo the divisor, has the sign of the divisor, lies strictly inside the divisor's range, and is 0 exactly when the divisor divides the dividend |
| `Common.PyIndex` | visual_codec/codec.py:158 | `xs[i]` on a list of length `n` reads a position exactly when `-n <= i < n`; that position is below `n` and congruent to `i` modulo `n`, and a non-negative index reads itself |
| `Common.InsertPos` | visual_codec/codec.py:66 | `xs.insert(i, x)` puts `x` at `n + i` for a negative in-range `i`, at `i` for `0 <= i <= n`, at 0 for `i < -n` and at `n` for `i > n` |
| `Common.PyInsert` | visual_codec/codec.py:66 | `xs.insert(i, x)` makes the list one longer, with `x` at that position and the old elements before and after it unchanged |
| `Common.SubsequenceOfInsert` | visual_codec/codec.py:63-71 | inserting a block anywhere keeps the original string as a subsequence |
| `Common.SubsequenceOfDelete` | visual_codec/codec.py:88 | `del xs[p]` leaves a subsequence of the list |
| `BitExpansion.Expand` | visual_codec/codec.py:8-16 | the nested loops build exactly `Expanded(vector, exp)`: each character repeated `max(exp, 0)` times, in order |
| `BitExpansion.ExpandStep` | visual_codec/codec.py:12-14 | one outer iteration appends `max(exp, 0)` copies of `vector[k]` and leaves the rest of the string to the later iterations |
| `BitExpansion.ExpandedLength` | visual_codec/codec.py:8-16 | the expansion has `len(vector) * exp` characters (0 for `exp <= 0`) |
| `BitExpansion.ExpandedBlock` | visual_codec/codec.py:12-14 | block `k` of the expansion, `e[k*exp : k*exp + exp]`, is `exp` copies of `vector[k]` |
| `BitExpansion.ExpandedBlockFrom` | visual_codec/codec.py:12-14 | block `k` starts after `k` earlier blocks of `max(exp, 0)` characters each and holds copies of `vector[k]` |
| `BitExpansion.ExpandedUnit` | visual_codec/codec.py:8-16 | with `exp == 1` the expansion is the input |
| `BitExpansion.CountAbsent` | visual_codec/codec.py:23 | `l.count(x)` is 0 for a character `x` absent from the list |
| `BitExpansion.MaxByCountIsFirstMax` | visual_codec/codec.py:23 | the scan `max` performs ends on an index whose count no element exceeds, and every earlier index has a strictly smaller count |
| `BitExpansion.MostFrequent` | visual_codec/codec.py:22-23 | `find_most_bit`: the element at the index the `max` scan ends on; what that means is stated by `MostFrequentSpec` |
| `BitExpansion.MostFrequentSpec` | visual_codec/codec.py:22-23 | `find_most_bit` returns a character of the window that no character outnumbers; among equally frequent characters, the one that occurs first |
| `BitExpansion.MostFrequentUniform` | visual_codec/codec.py:22-23 | a window of one repeated character yields that character |
| `BitExpansion.Windows` | visual_codec/codec.py:26-27 | the slices `vector[i : i + exp]` for `i` in `range(0, len(vector), exp)` are never empty, so `max` in `find_most_bit` never sees an empty list |
| `BitExpansion.Votes` | visual_codec/codec.py:27 | one character is appended per window |
| `BitExpansion.VotesCons` | visual_codec/codec.py:26-27 | the vote of a window in front of others comes first in the result |
| `BitExpansion.Shrink` | visual_codec/codec.py:19-28 | a zero factor raises ValueError (the zero step of `range`), a negative one gives "", and a positive one builds exactly `Shrunk(vector, exp)` |
| `BitExpansion.ShrinkStep` | visual_codec/codec.py:26-27 | one loop iteration: the window `vector[i : i + exp]` yields the next character, and the rest of the loop starts at `i + exp` |
| `BitExpansion.WindowsFromIsWindows` | visual_codec/codec.py:26-27 | the windows the loop visits from index `i` on are the windows of `vector[i:]` |
| `BitExpansion.WindowsStep` | visual_codec/codec.py:26-27 | the first window of `vector[i:]` is `vector[i : i + exp]`, and the rest begin at `i + exp` |
| `BitExpansion.WindowsFromAt` | visual_codec/codec.py:26-27 | the `k`-th window the loop visits from `i` on starts at `i + k*exp`, inside the string |
| `BitExpansion.VotesAt` | visual_codec/codec.py:27 | character `k` of the result is the most frequent character of window `k` |
| `BitExpansion.ShrunkLength` | visual_codec/codec.py:26-28 | the shrunk string has `ceil(len(vector) / exp)` characters |
| `BitExpansion.ShrunkAt` | visual_codec/codec.py:26-27 | character `k` of the result is the most frequent character of the window `vector[k*exp : k*exp + exp]`, and that window is not empty |
| `BitExpansion.ShrinkExpand` | visual_codec/codec.py:8-28 | for every factor `>= 1`, shrinking the expansion returns the original string |
| `BitExpansion.ShrunkUnit` | visual_codec/codec.py:19-28 | with `exp == 1` shrinking is the identity |
| `Padding.ScanFrom` | visual_codec/codec.py:42-61 | every offset the backward scan records is -1 (not found) or an `i` with `1 <= i < len(binstr)`, so `binstr[-i]` and `binstr[-i - 1]` are inside the list |
| `Padding.ScanTail` | visual_codec/codec.py:42-61 | the backward loop with its early `break` computes exactly the counts and offsets of `TailScan` |
| `Padding.InsertCopies` | visual_codec/codec.py:65-66 | the loop `for _ in range(n): binstr.insert(i, x)` performs `max(n, 0)` insertions |
| `Padding.Pad` | visual_codec/codec.py:36-74 | a zero chunk size raises ZeroDivisionError; otherwise the scan with its `break` and the two insertion loops give exactly `Padded(binstr, c)`, with counts `zeros % c` and `ones % c` |
| `Padding.InsertRepeatedBlock` | visual_codec/codec.py:65-66 | repeated insertion at one index places a single contiguous block of `n` copies where the first insertion goes |
| `Padding.BlockGrows` | visual_codec/codec.py:65-66 | whether the next insertion lands before or after a copy just inserted, the copies stay one contiguous block at the first position |
| `Padding.InsertAtOffset` | visual_codec/codec.py:66 | for an offset from the scan the block lands just before the last `ix` characters; with no offset (-1) it lands at index 1 |
| `Padding.InsertRepeatedContents` | visual_codec/codec.py:65-71 | one insertion loop adds exactly `n` copies of its bit and keeps the string as a subsequence |
| `Padding.PaddedContents` | visual_codec/codec.py:63-74 | padding inserts `c - zeros % c` zeros (none when the remainder is 0) and `c - ones % c` ones and nothing else; the input is a subsequence of the output |
| `Padding.TwoInsertsContents` | visual_codec/codec.py:63-71 | the zeros loop followed by the ones loop adds exactly their two counts of bits, and the input stays a subsequence |
| `Padding.PaddedBounds` | visual_codec/codec.py:63-74 | for `c > 0` both counts lie in `[0, c)`, at most `c - 1` bits of each kind are inserted, the output is at most `2 * (c - 1)` longer, and it equals the input exactly when both counts are 0 |
| `Padding.PaddedNoPad` | visual_codec/codec.py:64-71 | non-positive counts mean nothing was inserted (also for a negative chunk size, whose `range(c - r)` is empty) |
| `Padding.PaddedUnit` | visual_codec/codec.py:64-74 | with `color_bitsize == 1` the string is unchanged and both counts are 0 |
| `Padding.Depad` | visual_codec/codec.py:77-97 | the deleting `while` loop gives exactly `Depadded(vector, zpad, opad)`, including the IndexError when `vector[-i]` passes the front |
| `Padding.DeleteStep` | visual_codec/codec.py:88 | after `del vector[p]`, whatever removes `nz` other characters and `no` ones from the shorter list removes one more one from the original when `vector[p]` is '1', and one more other character otherwise |
| `Padding.DepadFromRemoves` | visual_codec/codec.py:83-95 | from any cursor: on success exactly `max(opad, 0)` ones and `max(zpad, 0)` other characters are deleted, and the result is a subsequence |
| `Padding.DeleteRemoves` | visual_codec/codec.py:85-95 | an iteration that deletes `vector[-i]` and the rest of the loop after it remove `max(opad, 0)` ones and `max(zpad, 0)` other characters, keeping the rest in order |
| `Padding.DepaddedRemoves` | visual_codec/codec.py:77-97 | depadding only deletes: `max(opad, 0)` ones and `max(zpad, 0)` other characters, the rest kept in order |
| `Padding.DepaddedNothing` | visual_codec/codec.py:83-84 | with `zpad <= 0` and `opad <= 0` the loop never runs and depadding is the identity |
| `Grouping.Step` | visual_codec/codec.py:121-132 | one iteration requires `-1 <= j < i` and keeps `j <= i`, so each swap uses indices `j + 1 <= i < i + 1 < l` |
| `Grouping.PassFrom` | visual_codec/codec.py:121-132 | the pass keeps the list's length |
| `Grouping.Swap` | visual_codec/codec.py:131 | the tuple assignment `new[i + 1], new[j + 1] = new[j + 1], new[i + 1]` keeps the length |
| `Grouping.SwapAt` | visual_codec/codec.py:131 | a swap exchanges the two positions and leaves every other position alone |
| `Grouping.Group` | visual_codec/codec.py:100-138 | the in-place loop over the array, the final key entry and padding give exactly `Grouped(binstr, c)`; a zero chunk size raises ZeroDivisionError |
| `Grouping.SwapPass` | visual_codec/codec.py:118-132 | the `for` loop swapping in the array computes exactly `Pass(binstr, c)` and leaves the swapped list in the array; an error can only come from `c == 0` and is ZeroDivisionError (`Grouping.Group` states when grouping raises it) |
| `Grouping.Replay` | visual_codec/codec.py:154-158 | a successful replay of the key keeps the length; `Grouping.ReplayPrefixFails` states when it raises IndexError |
| `Grouping.Ungroup` | visual_codec/codec.py:141-161 | depadding, then the backward loop over the key on the array, give exactly `Ungrouped(binstr, zpad, opad, key)` |
| `Grouping.ReplayInPlace` | visual_codec/codec.py:152-158 | the loop over `key_list[::-1]`, swapping in the array, computes exactly `Replay` from `i, j = l, l`, including its IndexError, and on success the array holds the result |
| `Grouping.ReplayPrefix` | visual_codec/codec.py:155-158 | one iteration: entry `k - 1` is consumed first, its deltas are subtracted, and the two positions it names are swapped |
| `Grouping.ReplayPrefixFails` | visual_codec/codec.py:158 | when either index of that swap is out of range, the replay raises IndexError |
| `Grouping.SwapMultiset` | visual_codec/codec.py:131 | a swap keeps the multiset of characters |
| `Grouping.SwapBack` | visual_codec/codec.py:158 | the swap in `ungroup_binstring`, on the two positions that `group_binstring` swapped, restores the list |
| `Grouping.PassFromPermutation` | visual_codec/codec.py:121-132 | from any state, the pass only permutes the list |
| `Grouping.PassPermutation` | visual_codec/codec.py:115-132 | before padding, the grouped list has the input's length and the same number of every character |
| `Grouping.StepKeyShape` | visual_codec/codec.py:121-132 | one iteration keeps the key's shape: positive `i` deltas, non-negative `j` deltas, sums equal to `(prev_i, prev_j)`, `prev_j <= prev_i`, fewer entries than iterations |
| `Grouping.SwapKeyShape` | visual_codec/codec.py:128-132 | an iteration that swaps appends a forward entry `(i - prev_i, j - prev_j)` and keeps the key's shape |
| `Grouping.KeyAppend` | visual_codec/codec.py:128 | appending an entry adds its deltas to the sums of the key, and keeps every `i` delta at least 1 and every `j` delta at least 0 |
| `Grouping.PassFromKeyShape` | visual_codec/codec.py:118-132 | the pass preserves the key's shape |
| `Grouping.GroupedKey` | visual_codec/codec.py:118-134 | in the returned key every delta is non-negative, every `i` delta but the last is at least 1, the `i` deltas and the `j` deltas each sum to `l`, and it has between 1 and `max(l - 1, 1)` entries |
| `Grouping.PassFromKeyCount` | visual_codec/codec.py:121-132 | the pass appends one key entry per swap it performs |
| `Grouping.GroupedKeyCount` | visual_codec/codec.py:128-134 | the key has exactly one more entry than the number of swaps, and its last entry is `(l - prev_i, l - prev_j)` |
| `Grouping.PassFromUnit` | visual_codec/codec.py:124-126 | with chunk size 1, `(j + 1) % 1 == 0` always holds, so the pass never swaps and never extends the key |
| `Grouping.GroupedUnit` | visual_codec/codec.py:124-126 | `group_binstring(s, 1)` returns `s` itself, zero pad counts and the key `[(l, l)]` |
| `Grouping.StepUndoable` | visual_codec/codec.py:128-132 | one iteration keeps the invariant that undoing the previous swap and replaying the key from `(prev_i, prev_j)` restores the input |
| `Grouping.SwapUndoable` | visual_codec/codec.py:128-158 | after a swap, the new last key entry leads replay back to the previous swap's indices, so undoing the new swap and replaying restores the input |
| `Grouping.ReplayLast` | visual_codec/codec.py:155-158 | replay consumes the last key entry first: it subtracts its deltas, swaps `new[j + 1]` and `new[i + 1]`, and goes on with the rest of the key |
| `Grouping.PassFromUndoable` | visual_codec/codec.py:121-132 | the whole pass keeps that invariant |
| `Grouping.ReplayUndoesPass` | visual_codec/codec.py:118-158 | for every input and every non-zero chunk size, replaying the returned key from `i, j = l, l` on the bits the swapping pass produced, before padding, gives the input back when it has at least 2 characters, and raises IndexError for shorter strings |
| `Grouping.UngroupGroup` | visual_codec/codec.py:141-161 | when grouping applies no padding (both counts `<= 0`), depadding is the identity and, by `ReplayUndoesPass`, ungrouping with the returned key restores the input for every length of at least 2, and raises IndexError for shorter strings |
| `Grouping.ReplayPermutation` | visual_codec/codec.py:152-158 | a successful replay of any key only permutes the depadded list |
| `Grouping.PassExample` | visual_codec/codec.py:118-132 | the pass over `"110010"` with chunk size 2 moves the cursor to 1, 3 and 4 and swaps nothing |
| `Grouping.PadExample` | visual_codec/codec.py:36-74 | `"110010"` padded to chunk size 2 becomes `"11001100"` with counts 1 and 1 |
| `Grouping.GroupExample` | visual_codec/codec.py:100-138 | `"110010"` with chunk size 2 groups to `("11001100", 1, 1, [(6, 6)])` |
| `Grouping.UngroupExample` | visual_codec/codec.py:141-161 | ungrouping `"11001100"` with counts 1, 1 and key `[(6, 6)]` gives back `"110010"` |
| `Grouping.UniformPadExample` | visual_codec/codec.py:36-74 | `"0000"` padded to chunk size 8: the scan counts 3 zeros and finds no offset, so 5 zeros go in at index 1 while 3 is reported |
| `Grouping.TwoRunsPadExample` | visual_codec/codec.py:36-74 | `"1100"` padded to chunk size 8 is `"11111111100000000"` with counts 2 and 1: six zeros go into the last run of zeros, seven ones go in at index 1 |
| `Grouping.TwoRunsZeros` | visual_codec/codec.py:64-66 | that example's zeros loop inserts six zeros before the last two characters |
| `Grouping.TwoRunsOnes` | visual_codec/codec.py:69-71 | that example's ones loop, with no offset found, inserts seven ones at index 1 |
| `Grouping.EmptyExample` | visual_codec/codec.py:113-138 | grouping the empty string returns it with pad counts 0 and the one-entry key `[(0, 0)]` |
| `Grouping.UniformExample` | visual_codec/codec.py:100-138 | `"0000"` with chunk size 8 groups to `("000000000", 3, 0, [(4, 4)])` |
| `Grouping.UniformUngroupExample` | visual_codec/codec.py:141-161 | ungrouping that result gives `"000000"`, not `"0000"`: depadding removes 3 zeros of the 5 inserted |
| `Vcc.Pow2` | visual_codec/cli/vcc.py:38 | a power of two is at least 1 |
| `Vcc.Bin` | visual_codec/cli/vcc.py:32 | `bin(n)[2:]` has at least one digit, and its first digit is '1' for every `n > 0` |
| `Vcc.ZFill` | visual_codec/cli/vcc.py:32 | `s.zfill(w)` has `max(len(s), w)` characters |
| `Vcc.ZFillAt` | visual_codec/cli/vcc.py:32 | `zfill` only adds '0' on the left: the first `w - len(s)` characters are '0' and the rest is `s` |
| `Vcc.ByteBits` | visual_codec/cli/vcc.py:32 | `bin(b)[2:].zfill(8)` has exactly 8 characters for every byte |
| `Vcc.BytesToBinaryStr` | visual_codec/cli/vcc.py:31-32 | `__bytes_to_binary_str` emits 8 characters per byte |
| `Vcc.BigEndian` | visual_codec/cli/vcc.py:38 | the value of `k` binary digits is below `2 ** k` |
| `Vcc.ParseBinary` | visual_codec/cli/vcc.py:38 | `int(chunk, 2)` succeeds exactly on a non-empty chunk of binary digits, with a value below `2 ** len(chunk)` |
| `Vcc.BinaryStrToBytes` | visual_codec/cli/vcc.py:35-40 | the loop over chunks of 8 gives exactly `BytesOf(binary_str)`, including the ValueError of the first chunk that does not parse |
| `Vcc.BytesOfStep` | visual_codec/cli/vcc.py:37-39 | one iteration: the chunk at `i` parses to a value below 256 that heads the rest, or its ValueError ends the conversion |
| `Vcc.BinLength` | visual_codec/cli/vcc.py:32 | `bin(n)[2:]` has between 1 and `k` digits when `n < 2 ** k` |
| `Vcc.BinBits` | visual_codec/cli/vcc.py:32 | digit `q` from the right of `bin(n)[2:]` is bit `q` of `n`, and the bits above its length are 0 |
| `Vcc.ByteBitsAt` | visual_codec/cli/vcc.py:32 | `bin(b)[2:].zfill(8)` has 8 characters, and character `t` is bit `7 - t` of `b` |
| `Vcc.BinaryStrAt` | visual_codec/cli/vcc.py:31-32 | the output has 8 characters per byte, and character `8k + t` is bit `7 - t` of byte `k`: most significant bit first, zero-filled |
| `Vcc.BinaryStrIsBinary` | visual_codec/cli/vcc.py:31-32 | every output character is '0' or '1' |
| `Vcc.BigEndianBin` | visual_codec/cli/vcc.py:31-38 | reading `bin(n)[2:]` back with `int(_, 2)` gives `n` |
| `Vcc.BigEndianLeadingZeros` | visual_codec/cli/vcc.py:31-38 | the zeros `zfill` adds do not change the value read back |
| `Vcc.BigEndianZeros` | visual_codec/cli/vcc.py:38 | a string of zeros reads back as 0 |
| `Vcc.ByteBitsValue` | visual_codec/cli/vcc.py:31-38 | the 8 digits of a byte read back as that byte |
| `Vcc.BytesOfBinaryStr` | visual_codec/cli/vcc.py:31-40 | `__binary_str_to_bytes(__bytes_to_binary_str(b)) == b` for every byte string |
| `Vcc.BytesOfOk` | visual_codec/cli/vcc.py:37-38 | `__binary_str_to_bytes` succeeds exactly when every character is a binary digit |
| `Vcc.BytesOfCount` | visual_codec/cli/vcc.py:35-40 | on success there are `ceil(len / 8)` bytes |
| `Vcc.BytesOfAt` | visual_codec/cli/vcc.py:35-40 | on success byte `k` is the big-endian value of the chunk `s[8k : 8k + 8]`, a non-empty chunk of binary digits |
| `Vcc.ShortFinalChunk` | visual_codec/cli/vcc.py:37-38 | when the length is not a multiple of 8, the last byte is below `2 ** (len % 8)`: a short final chunk is not left-aligned |
| `Vcc.ShortFinalChunkExample` | visual_codec/cli/vcc.py:37-38 | `"1"` becomes the byte 1, while `"10000000"` becomes 128 |
| `Vcc.BitOfBigEndian` | visual_codec/cli/vcc.py:38 | bit `q` of a chunk's value is its digit `q` from the right |
| `Vcc.ByteBitsOfChunk` | visual_codec/cli/vcc.py:31-38 | an 8-digit chunk read as a byte and written back out reproduces the chunk |
| `Vcc.ChunkDigit` | visual_codec/cli/vcc.py:31-38 | digit `t` of an 8-digit chunk is digit `t` of its value written back out with `bin` and `zfill(8)` |
| `Vcc.BinaryStrOfBytes` | visual_codec/cli/vcc.py:31-40 | a binary string whose length is a multiple of 8 survives decoding and re-encoding |
| `Vcc.ArgumentsAccepted` | visual_codec/cli/vcc.py:226-229 | the check passes exactly when `exp_factor >= 1` and `color_bitsize` is 1 or a multiple of 8, zero and negative multiples included |
| `Vcc.ArgumentsAcceptZero` | visual_codec/cli/vcc.py:226-229 | the check accepts `exp_factor = 1` with `color_bitsize = 0`, and grouping then raises ZeroDivisionError for every input |
| `Vcc.ArgumentsIntendedWork` | visual_codec/cli/vcc.py:226-229 | a factor `>= 1` with chunk size 1 or a positive multiple of 8 passes the check; grouping then succeeds with pad counts in `[0, c)`, and shrinking undoes expansion |
| `Vcc.SerializedBits` | visual_codec/cli/vcc.py:107-112 | the bits `serialize` hands to grouping are the bits of the file, expanded only when `exp_factor > 1`, so they are `max(exp_factor, 1)` times as long as the 8 bits per byte |
| `Vcc.SerializedLength` | visual_codec/cli/vcc.py:104-108 | the bit string handed to grouping has a length that is a multiple of 8, and at least 8 for a non-empty file |
| `Vcc.ExpandedBinary` | visual_codec/codec.py:12-14 | expanding a string of binary digits gives binary digits |
| `Vcc.PermutationBinary` | visual_codec/codec.py:115-132 | a permutation of binary digits is binary digits |
| `Vcc.SerializeDeserialize` | visual_codec/cli/vcc.py:104-112 | under the intended arguments, when grouping applies no padding, the path bytes → bits → expand → group → bytes → bits → ungroup → shrink → bytes gives back the original bytes |
| `Vcc.SerializeDeserializeUnit` | visual_codec/cli/vcc.py:104-112 | with chunk size 1 that path restores every non-empty byte string, for every factor `>= 1` |

## Left out

- Video I/O (`visual_codec/vidmaker.py`): frame writing and reading and its `n_pad` arithmetic use OpenCV and numpy. The end-to-end lemmas leave the video out and go straight from the grouped bits' bytes to their bits.
- File, key and metadata persistence (`__save_key_file`, `__load_key_file`, the JSON metadata helpers). These are file I/O, gzip and `struct.pack` calls. `pack("B")` also fails for key deltas above 255; that is a limit of the file format, not of the codec.
- `serialize`, `deserialize` and `main`: logging, argparse, paths and file access. Only the argument check is modelled (`Vcc.ArgumentsAccepted`), and only the order of codec calls is kept (`Vcc.SerializedBits`, `Vcc.SerializeDeserialize`).
- `visual_codec/cli/vcgen.py`, `visual_codec/logger.py`, `setup.py` and `visual_codec/__init__.py` are not part of this model. They are incomplete code, logging and packaging.
- Trailing runs becoming multiples of the chunk size after padding. The code does not do this: position 0 is never counted and, with no offset found, padding goes in at index 1. Only the counterexample `Grouping.TwoRunsPadExample` is stated.
- A bound `len(key) <= len(b)`. It fails for the empty string, whose key is `[(0, 0)]` (`Grouping.EmptyExample`); `Grouping.GroupedKey` states the bound that holds, `max(l - 1, 1)` entries.
- A general `depad(pad(b)) == b` and a round trip with non-zero padding. The code does not satisfy them: the pad counts are remainders, and the depad cursor skips after each deletion. Only the concrete counterexample (`Grouping.UniformExample`, `Grouping.UniformUngroupExample`) and the round trip without padding are stated.
- Vcc.ParseBinary: refuses every character other than '0' and '1'. Python's `int(_, 2)` also accepts surrounding whitespace, a sign, a `0b` prefix and `_` between digits. On such input the model raises ValueError where Python may return a number, or raise later in `bytes()`.
- Vcc.ZFill: models `zfill` only for strings without a sign, which is all that `bin(b)[2:]` produces.
- Python strings are sequences of characters. No encoding is modelled, and there is no Unicode normalisation.

## Findings

| source | as written | input that shows it | evidently intended | confidence | as-written member | corrected member |
|---|---|---|---|---|---|---|
| visual_codec/cli/vcc.py:228-229 | the check rejects `color_bitsize` only when it is not 1 and `color_bitsize % 8 != 0`, so it accepts 0 and the negative multiples of 8 | `-c 0` with any `.zip` file: `0 % 8 == 0` passes the check, then `group_binstring` raises ZeroDivisionError for every input, at `(j + 1) % color_bitsize` (codec.py:124) when the bits have two or more transitions and otherwise at `zeros % color_bitsize` (codec.py:64) | a chunk size of 1 or a positive multiple of 8 | not executed | `Vcc.ArgumentsAcceptZero` | `Vcc.ArgumentsIntendedWork` |
