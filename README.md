# Integer codecs: Simple8b, dictionary, run-length and delta encoding

This project is a Dafny model of the four integer codecs of a small Rust
compression library. Each codec is modelled with proofs about its behaviour.

- **Simple8b** (`simple8b.dfy`, module `Simple8b`) packs small non-negative
  integers into 64-bit words.
  - A word has a 4-bit selector in bits 63..60.
  - Below it are `INTEGERS_CODED[s]` slots of `BPI[s]` bits each, with slot 0
    highest.
  - `can_pack` decides whether a mode fits the front of the buffer.
  - `pack` ORs the shifted values into a word.
  - `simple8b_encode` greedily takes the first selector whose mode fits, and
    advances the buffer by that mode's count.
- **Dictionary encoding** (`dict_encode.dfy`, module `DictEncode`) gives each
  distinct value the next unused code.
  - Codes follow the order in which values are first seen.
  - `dict_encode` starts from an empty table.
  - `encode_with_dict` extends a caller's table in place. Here that table is
    the class `Dictionary`.
- **Run-length encoding** (`rle.dfy`, module `Rle`) scans the input once and
  emits a `RunPair(value, run)` for every maximal run of equal values.
- **Delta encoding** (`delta_encode.dfy`, module `DeltaEncode`):
  - `delta` keeps the first value and replaces every later value with its
    difference to the previous one.
  - `delta_delta` applies `delta` once more to the tail of those differences.

Each loop of the source is a Dafny `method` with the same loop. The method is
proved equal to a specification function (`Encoding`, `Assign`, `Runs`,
`Differences`), and the properties are lemmas about those functions.

Where the code and its description disagree, the model follows the code:

- **Selectors 0 and 1 are dead.** They are meant for runs of ones, but for
  width 0 the source computes `(1 << 0) - 1 == 0` as the maximum, while also
  requiring each value to be 1. So `can_pack` never accepts them, and the
  encoder never emits selector 0 or 1.
- **`can_pack` looks at `len % 256`.** It compares `num_elements` with
  `data.len() as u8`, which is the length modulo 256. When that is not below
  `num_elements`, it inspects the whole remaining buffer, not just the values
  the mode will pack.
- **Large values hang the encoder.** A value of 2^60 or more fits no mode, and
  the source has no error for it; its `while` loop never advances. `Encode`
  therefore requires every value to be below 2^60, and `NoModeForLargeValue`
  shows why.
- **`delta_delta` on short input.** On a one-element input it returns that
  element. On empty input it panics, which is modelled as a precondition.

Integers are mathematical. `u64` is the subset type `uint64` of `int` (values
in [0, 2^64)). The operators `<<` and `|` are written out on that range: bits
shifted past bit 63 are dropped, and OR is computed bit by bit.

## Model

| member | source | states |
|---|---|---|
| Simple8b.TableInvariant | src/simple8b.rs:6-8 | The three tables have 16 entries and `SELECTOR_VALUE[s] == s`. Each mode has at least one slot and `INTEGERS_CODED[s] * BPI[s] <= 60`, so no shift in `pack` is negative. Only selectors 0 and 1 have width 0. |
| Simple8b.CanPack | src/simple8b.rs:53-76 | The loop version of `can_pack`, with its early `return false` exits, returns exactly `Packable`: enough values remain, and every inspected value fits the width (and equals 1 when the width is 0). |
| Simple8b.CanPackNeedsEnough | src/simple8b.rs:55-57 | With fewer than `num_elements` values left, `can_pack` is false for every width. |
| Simple8b.InspectedPrefix | src/simple8b.rs:58-61 | The inspected prefix contains the `num_elements` values to be packed. It is the whole buffer exactly when `len % 256 <= num_elements` or the lengths are equal, and otherwise exactly `num_elements`. |
| Simple8b.CanPackWidth | src/simple8b.rs:58-75 | For a non-zero width, `can_pack` holds if and only if enough values remain and every inspected value is at most `2^bits - 1`. |
| Simple8b.PackableFits | src/simple8b.rs:58-75 | If `can_pack` holds, every value that `pack` will take is below `2^bits`. |
| Simple8b.ZeroBitsNeverPack | src/simple8b.rs:62-74 | Width 0 never packs: `(1 << 0) - 1 == 0`, so an inspected value would have to be both 1 and 0. |
| Simple8b.CanPackExamples | src/simple8b.rs:108-133 | The twelve expected answers of the `can_pack` tests, on sixty 1s, thirty 2s and seven 255s. |
| Simple8b.TopIsProduct | src/simple8b.rs:48 | The slot shift `Top(bits, k)` equals `60 - bits * k`, the shift `pack` uses for slot `k - 1`. |
| Simple8b.TopMono | src/simple8b.rs:48 | Later slots sit at lower bit positions. |
| Simple8b.Pack | src/simple8b.rs:45-51 | The `pack` loop, with the selector shifted to bit 60 and each value ORed in at `60 - bits * (i + 1)`, yields `PackedWord`. The requires are exactly what keeps the source's `u8` shift arithmetic in range. |
| Simple8b.OrSlot | src/simple8b.rs:48 | ORing a fitting value into bits that are still zero equals adding it at that position. |
| Simple8b.PackStep | src/simple8b.rs:47-49 | One iteration of the `pack` loop adds `data[k-1] * 2^Top(bits, k)` to the word. |
| Simple8b.PackLayout | src/simple8b.rs:45-51 | When every value fits its width, the packed word reads back its selector from bits 63..60 (`word >> 60`). Each slot `i` reads back `data[i]` via `(word >> (60 - bits * (i + 1))) & (2^bits - 1)`, and the bits below the last slot are zero. |
| Simple8b.PackedWordIsSum | src/simple8b.rs:45-51 | With disjoint slots, OR is addition: the word is `selector * 2^60 + sum of data[i] * 2^(60 - bits * (i + 1))`. |
| Simple8b.PackAllMax | src/simple8b.rs:45-51 | A mode with every slot at `2^bits - 1` sets every payload bit from 59 down to the last slot. |
| Simple8b.PackExampleTwoSlots | src/simple8b.rs:82-88 | `pack([1, 1], 14, 2, 30) == 0xE000000040000001`. |
| Simple8b.PackExampleOnes | src/simple8b.rs:90-96 | `pack([1; 60], 2, 60, 1) == 0x2FFFFFFFFFFFFFFF`. |
| Simple8b.PackExampleBytes | src/simple8b.rs:98-105 | `pack([255; 7], 9, 7, 8) == 0x9FFFFFFFFFFFFFF0`. |
| Simple8b.Selector15Usable | src/simple8b.rs:14-24 | If every value is below 2^60, selector 15 packs any non-empty buffer. So the `for` loop always finds a mode, and the `while` loop always advances. |
| Simple8b.NoModeForLargeValue | src/simple8b.rs:14-24 | A buffer whose first value is 2^60 or more fits no mode, so the source's `while` loop would never end. |
| Simple8b.FirstSelector | src/simple8b.rs:15-22 | The selector the `for` loop stops at: a usable one, with no selector before it usable. |
| Simple8b.FirstSelectorIs | src/simple8b.rs:15-22 | The first usable selector is the one that is usable with none usable below it. |
| Simple8b.EncodingStep | src/simple8b.rs:14-24 | One round of the encoder emits the word of the first usable selector, and the buffer advances by exactly that selector's count. |
| Simple8b.Encode | src/simple8b.rs:11-26 | The `while`/`for` loop of `simple8b_encode`, calling `CanPack` and `Pack`, returns `Encoding(data)`. It returns the empty sequence on empty input. |
| Simple8b.UnpackFirstWord | src/simple8b.rs:11-26 | The first emitted word reads back, slot by slot under its own selector, as exactly the values it consumed. |
| Simple8b.EncodeRoundTrip | src/simple8b.rs:11-26 | Lossless: reading back every word's slots, in order, reproduces the input. |
| Simple8b.FirstWordSelector | src/simple8b.rs:14-24 | Each emitted word carries, in bits 63..60, the selector that produced it, and that selector is at least 2. |
| Simple8b.EncodeAvoidsAllOnes | src/simple8b.rs:14-24 | No emitted word has selector 0 or 1. |
| Simple8b.OnesLead | src/simple8b.rs:11-26 | A buffer that starts with sixty 1s, and whose inspected prefix is those sixty, first emits `0x2FFFFFFFFFFFFFFF` and then continues 60 values later. |
| Simple8b.BytesSelector | src/simple8b.rs:15-22 | For 7 to 14 values starting with seven 255s, selector 9 is the first usable one. Selectors 2 to 5 want more values, and 6 to 8 are too narrow. |
| Simple8b.BytesLead | src/simple8b.rs:11-26 | Such a buffer first emits `0x9FFFFFFFFFFFFFF0` and then continues 7 values later. |
| Simple8b.SixtyOnes | src/simple8b.rs:135-141 | `simple8b_encode([1; 60]) == [0x2FFFFFFFFFFFFFFF]`. |
| Simple8b.HundredTwentyOnes | src/simple8b.rs:143-149 | `simple8b_encode([1; 120])` is two such words. |
| Simple8b.OnesThenBytes | src/simple8b.rs:151-160 | A hundred and twenty 1s followed by fourteen 255s encode to two `0x2FFF…` words followed by two `0x9FFF…F0` words. |
| Simple8b.EncodeExamples | src/simple8b.rs:135-160 | The three expected outputs of the encoder tests, on the source's own inputs. |
| Simple8b.TenSmallSelector | src/lib.rs:18-28 | `[1, 5, 2, 4, 3, 2, 4, 1, 5, 1]` fits 6-bit slots but is too short for any mode with more slots, so it takes selector 7. |
| Simple8b.RunPairsEncoding | src/lib.rs:18-28 | `[1, 5, 2, 4, 3, 2, 4, 1, 5, 1]` encodes to the single word `0x70450840C2101141`, which is the test's binary constant. |
| DictEncode.DictEncode | src/dict_encode.rs:3-21 | The `dict_encode` loop returns the codes and table of `Assign(data, map[])`: a known value gets its code, and an unseen one gets the table's current size and is inserted. |
| DictEncode.Dictionary.EncodeWithDict | src/dict_encode.rs:23-39 | The `encode_with_dict` loop returns the codes of `Assign(data, old table)` and leaves the table at that assignment's table. With an empty table, this is exactly what `DictEncode` returns. |
| DictEncode.Dictionary.constructor | src/dict_encode.rs:23 | A caller's table wrapped for in-place extension. |
| DictEncode.InsertSize | src/dict_encode.rs:15-16 | Inserting an unseen key grows the table by one, so the counter `num_items` always equals the table's size. |
| DictEncode.AssignExtends | src/dict_encode.rs:28-37 | Existing entries are never changed or removed. |
| DictEncode.AssignKeys | src/dict_encode.rs:28-37 | The keys afterwards are the old keys plus the values of `data`. |
| DictEncode.AssignLookup | src/dict_encode.rs:7-20 | Every value of `data` is in the table afterwards, and `codes[i] == table[data[i]]`. The output length equals the input length. |
| DictEncode.AssignDense | src/dict_encode.rs:28-37 | If the codes were `{0, …, len-1}`, each used once, they are `{0, …, newlen-1}` afterwards, each used once. |
| DictEncode.CodesFaithful | src/dict_encode.rs:9-17 | Against a dense table, two positions get equal codes if and only if they hold equal values. |
| DictEncode.FreshTable | src/dict_encode.rs:3-21 | `dict_encode`'s table holds exactly the input's values, coded densely from 0. |
| DictEncode.AssignPrefix | src/dict_encode.rs:29-37 | Code `i` depends only on `data[..i+1]`. |
| DictEncode.FirstSeenCode | src/dict_encode.rs:28-35 | The first occurrence of a value the table lacked gets the number of distinct values seen so far, counting the table's and the earlier ones of `data`. So unseen values get `dict.len()`, `dict.len()+1`, … in first-seen order. |
| DictEncode.AllKnown | src/dict_encode.rs:29-37 | If the table already has every value, it is unchanged and each code is the table's entry. |
| DictEncode.ReencodeStable | src/dict_encode.rs:62-81 | Encoding again against the resulting table repeats the codes and leaves the table unchanged. |
| DictEncode.FiveValues | src/dict_encode.rs:45-60 | For any two distinct values `a, b`, the input `a a b a b` encodes to `[0, 0, 1, 0, 1]` with table `{a: 0, b: 1}`. |
| DictEncode.ExtendWithNew | src/dict_encode.rs:83-110 | Extending `{test: 0, other: 1}` with `test test other test new` gives `[0, 0, 1, 0, 2]` and adds `new: 2`. |
| DictEncode.Examples | src/dict_encode.rs:45-110 | The expected values of the three tests. |
| Rle.RleEncode | src/rle.rs:7-25 | The scan of `rle_encode` returns `Runs(data)`: an equal value lengthens the current run, and any other value flushes it and starts a run of one. It requires a non-empty input of non-negative values below 2^64, which is where the source's `unwrap` calls succeed. |
| Rle.RunsExtend | src/rle.rs:14-21 | One step of the scan, either lengthening the run or flushing it, keeps the pairs equal to `Runs` of the prefix read so far. |
| Rle.RunsMaximal | src/rle.rs:14-23 | Every run is at least 1, and neighbouring pairs carry different values. |
| Rle.RunsEnds | src/rle.rs:12-23 | The first pair carries `data[0]`, and the last pair carries the last value. |
| Rle.RunsExpand | src/rle.rs:14-23 | Lossless: expanding each pair into `run` copies of `value`, in order, reproduces the input. |
| Rle.RunsTotal | src/rle.rs:14-23 | The runs add up to the input's length. |
| Rle.ExpandLength | src/rle.rs:1-5 | A list of pairs expands to as many values as its runs add up to. |
| Rle.RunsUnique | src/rle.rs:14-23 | `rle_encode`'s output is the only maximal list of pairs that expands to the input. |
| Rle.ExampleRuns | src/rle.rs:31-37 | `[1,1,1,1,1,2,2,2,2,3,3,4,5]` encodes to `(1,5) (2,4) (3,2) (4,1) (5,1)`. |
| Rle.Examples | src/rle.rs:31-37 | The test's expected output, and a single value gives one run of 1. |
| DeltaEncode.Differences | src/delta_encode.rs:3-28 | `delta` preserves length. |
| DeltaEncode.DifferencesAt | src/delta_encode.rs:12-25 | `out[0] == data[0]`, and `out[i] == data[i] - data[i-1]` for `i >= 1`. |
| DeltaEncode.DifferencesAll | src/delta_encode.rs:12-25 | The same for every index at once. |
| DeltaEncode.Delta | src/delta_encode.rs:3-28 | The enumerate loop of `delta`, with `prev` and the skipped index 0, returns `Differences(data)`, and `[]` on empty input. |
| DeltaEncode.DifferencesPrefixSum | src/delta_encode.rs:12-25 | `out[0] + … + out[i] == data[i]`. |
| DeltaEncode.DeltaRoundTrip | src/delta_encode.rs:3-28 | Lossless: running prefix sums of `delta(data)` reproduce `data`. |
| DeltaEncode.DeltaDelta | src/delta_encode.rs:30-40 | `delta_delta` preserves length; it panics on empty input. `out[0] == data[0]`, `out[1] == data[1] - data[0]`, and `out[i]` is the difference of consecutive differences for `i >= 2`. A one-element input gives `[data[0]]`. |
| DeltaEncode.DeltaDeltaRoundTrip | src/delta_encode.rs:30-40 | Lossless: running sums of the tail, then running sums again, recover the input. |
| DeltaEncode.ArithmeticProgression | src/delta_encode.rs:30-40 | For an arithmetic progression, every first difference is the step, and `delta_delta` is the step at index 1 and zero from index 2 on. |
| DeltaEncode.Examples | src/delta_encode.rs:9-11 | `delta([]) == []`; `delta(1..10)` is ten 1s; `delta_delta(1..10) == [1, 1, 0, …, 0]`. |

## Left out

- `simple8b_decode` and `unpack` (src/simple8b.rs:28-43) are unfinished in the source. They return nothing, one statement is incomplete, and `unpack` indexes the tables by the whole word. They are not modelled. The ghost functions `Unpack` and `ReadBack` read a word back by its selector as a specification of what decoding should give, and they are used only in lemmas.
- There is no decoder for run-length, delta or dictionary encoding in the source. `Expand` and `RunningSums` are specification inverses, not models of source code.
- The tests in src/lib.rs call functions that do not exist (`rle_decode`, `RunPair::as_bytes`, `delta_delta_encode`, `delta_delta_decode`). Only the expected word of `test_rle_with_pack` is used, as an example.
- src/float_xor.rs is a stub that prints and returns nothing, and it works on floating point. It is not part of this model.
- `BIT_WIDTH` (src/simple8b.rs:9) is unused in the source.
- Simple8b.Encode: values of 2^60 or more are excluded by a precondition, because on such input the source never terminates; no error value is invented for them.
- DictEncode.DictEncode: the `u64` counter `num_items` is an unbounded `nat`. It could only wrap after 2^64 distinct values.
- DictEncode.Dictionary.EncodeWithDict: the `u64` counter is likewise a `nat`. `HashMap` hashing, iteration order and capacity are not modelled; a Dafny `map` has the same lookup and insert behaviour.
- Rle.RleEncode: `usize` is taken to be 64 bits wide. Generic element types are modelled as integers, and a negative value or an empty input, on which the source panics, is excluded by the precondition. `run` is an unbounded `nat`.
- DeltaEncode.Delta: the generic `Sub` is integer subtraction on `int`, so machine overflow (a panic in debug builds, wrap-around in release builds) is not modelled.
- DeltaEncode.DeltaDelta: the panic on empty input is a precondition rather than an error value.
- Concurrency: none of the codecs shares state between threads.
