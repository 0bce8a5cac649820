# Bloom filter (`bf`) in Dafny

A model of the Go package `bf`: a plain, non-counting Bloom filter that keeps
its bits in a fixed slice of 64-bit words.

- **Adding a string.** `Add` hashes the string once and derives `k` probes
  from that hash:
  - probe 0 is the base hash written into an 8-byte buffer through a
    `*uint64` pointer and read back big-endian;
  - every later probe is the hash of the buffer's 8 bytes, the buffer being
    incremented as a `uint64` after each probe.

  Each probe `h` sets bit `h % (64 * len(b))`: bit `num % 64` of word
  `num / 64`.
- **Querying.** `Contains` derives the same probes and answers false at the
  first clear bit.
- **Batches.** `AddAll` and `ContainsAll` are the list forms.
- **Accessors.** `Cap`, `K` and `BitSet` expose the word count, the probe
  count and the words.

The project has two modules:

- `ByteOrder` (`bytes.dfy`) holds the byte layouts of a `uint64`:
  little-endian (the host's pointer view), big-endian (`binary.BigEndian`)
  and their relation through a byte swap.
- `BloomFilter` (`bloomfilter.dfy`) holds:
  - the probe sequence as the pure function `Probes(hash, s, k)`;
  - the bit array as a sequence of words, with `Insert` as the reference
    definition of what adding a probe sequence does;
  - the class `Filter`, whose `array<bv64>` field is updated in place by
    `Add`.

  The methods are proved against `Probes`, `Insert`, `InsertAll` and
  `Member`. The filter's properties are lemmas about those functions:
  - no false negatives;
  - monotone bits;
  - only probed words change;
  - idempotence.

The hash primitive is a parameter of type `seq<byte> -> u64`, fixed at
construction, so every property holds for any hash function.

## Model

| member | source | states |
|---|---|---|
| BloomFilter.Filter.New | bloomfilter.go:17-25 | a zero word count or probe count becomes 1; the filter has exactly `m` words, all zero, and keeps the hash it was given |
| BloomFilter.Filter.Add | bloomfilter.go:45-66 | the loop with its counter buffer leaves exactly `Insert(old words, Probes(hash, s, k), k)`: the old words with each probe's bit set, and nothing else touched |
| BloomFilter.Filter.AddAll | bloomfilter.go:39-43 | the words afterwards are those of calling `Add` on each input in order, and every input of the batch is then a member |
| BloomFilter.Filter.Contains | bloomfilter.go:78-103 | the answer is true exactly when every probe bit of `s` is set; it stops at the first clear bit and changes nothing |
| BloomFilter.Filter.ContainsAll | bloomfilter.go:68-76 | true exactly when every input of the batch is a member; returns false at the first miss and changes nothing |
| BloomFilter.Filter.Cap | bloomfilter.go:106-108 | returns the stored word count: at least 1 and equal to the array length, not the number of bits |
| BloomFilter.Filter.K | bloomfilter.go:111-113 | returns the stored probe count `k` verbatim: at least 1, and the length of every input's probe sequence |
| BloomFilter.Filter.BitSet | bloomfilter.go:116-118 | returns the current words: one per word of capacity, element by element those of the array |
| BloomFilter.AddThenContains | bloomfilter.go:39-103 | after `Add(s)` and then `AddAll(later)`, the words are `later` inserted into `s`'s insertion, `s` is still a member, and `Contains(s)` returns true |
| BloomFilter.NoFalseNegatives | bloomfilter.go:39-66 | after a batch is added to any bit array, every input of the batch is a member |
| BloomFilter.MemberAfterInsert | bloomfilter.go:45-66 | adding `s` makes `s` a member, whatever the words were before |
| BloomFilter.MemberSurvivesInsert | bloomfilter.go:64 | a member stays a member when any further probe sequence is added, because bits are only ORed in |
| BloomFilter.InsertEffects | bloomfilter.go:51-65 | adding a probe sequence keeps every bit already set, sets every probe bit, and leaves every word outside the probed buckets unchanged |
| BloomFilter.InsertCovers | bloomfilter.go:64 | adding probes never clears a bit, and the array length never changes |
| BloomFilter.InsertSetsProbes | bloomfilter.go:60-64 | after the first `n` probes are added, each of their bits is set |
| BloomFilter.InsertFrame | bloomfilter.go:60-64 | a word whose index is not `probe % bits / 64` for any probe keeps its value |
| BloomFilter.InsertAllCovers | bloomfilter.go:39-43 | adding a batch never clears a bit |
| BloomFilter.InsertIdempotent | bloomfilter.go:60-64 | adding the same probe sequence twice leaves the same words as adding it once |
| BloomFilter.InsertNoop | bloomfilter.go:64 | adding probes whose bits are all set already changes nothing |
| BloomFilter.ClearBitRulesOut | bloomfilter.go:97-99 | one clear probe bit means the input is not a member, which justifies the early `return false` |
| BloomFilter.EmptyHoldsNothing | bloomfilter.go:17-25 | a freshly zeroed filter contains no input |
| BloomFilter.ProbesByCounter | bloomfilter.go:51-59 | the probe sequence is the byte-swapped base hash followed by the hashes of the counter values base+1, base+2, … that the loop steps through |
| BloomFilter.CounterHashAt | bloomfilter.go:57-59 | after `j` increments the counter buffer holds `ctr + j` mod 2^64, and its hash is what the loop reads |
| BloomFilter.CounterHashIsProbe | bloomfilter.go:56-59 | probe `i > 0` is the hash of the little-endian bytes of `base + i` mod 2^64 |
| BloomFilter.FirstProbeIsByteSwap | bloomfilter.go:53-55 | on a little-endian host, probe 0 is the base hash with its 8 bytes reversed |
| BloomFilter.WrapAdd | bloomfilter.go:59 | incrementing the 64-bit counter with wrap-around step by step equals adding the step count once, mod 2^64 |
| BloomFilter.ProbeBit | bloomfilter.go:60-62 | the bit index of a probe is below `64 * len(b)`, so the word index is within the array and the shift is below 64 |
| BloomFilter.ProbeBitIsMod | bloomfilter.go:60 | the bit index is exactly `hi % (64 * len(b))` |
| BloomFilter.SetBitSets | bloomfilter.go:63-64 | ORing the mask into the word sets the probe's bit |
| BloomFilter.SetBitCovers | bloomfilter.go:64 | ORing a mask into one word keeps every bit of every word |
| ByteOrder.LittleEndianRoundTrip | bloomfilter.go:48-54 | storing a `uint64` through the pointer and reading it back gives the value, and the buffer's bytes are determined by the value |
| ByteOrder.BigEndianReadSwaps | bloomfilter.go:54-55 | reading a little-endian-stored word with `binary.BigEndian.Uint64` gives the word byte swapped |
| ByteOrder.ByteSwapInvolutive | bloomfilter.go:55 | swapping the bytes twice restores the word, so probe 0 loses none of the base hash |

## Left out

- `EstimateParameters` and `NewWithEstimates` (bloomfilter.go:27-37) are left out. They are `float64` `Log`/`Pow`/`Ceil` arithmetic, which is not modelled. Their `m` is a bit count that `New` takes as a word count.
- `xxhash.Sum64` is not part of this model. It is the parameter `hash` of type `seq<byte> -> u64`, and no property depends on its definition.
- The `unsafe.Pointer` view of the counter buffer `tmp` (bloomfilter.go:48, 81) depends on the host's byte order. The model fixes a little-endian host: the buffer is `LeBytes(counter)`. On a big-endian host probe 0 would be the base hash itself rather than its byte swap.
- `unsafe.StringData` and `unsafe.Slice` (bloomfilter.go:49-50, 82-83) only view a string's bytes. Strings are modelled directly as `seq<byte>`.
- `BitSet` returns the words' contents. In Go it returns the slice itself, which aliases the filter's storage; that aliasing is not modelled.
- Concurrency is not modelled. The source has no synchronisation.
- False-positive rates are probabilistic claims with no exact contract, so they are not stated.
- BloomFilter.Filter.New: requires a word count below 2^58. At 2^58 words and above, `len(b) * 64` wraps around in Go, and the array (2^61 bytes or more) cannot be allocated anyway.
- BloomFilter.Filter.Add: its `ensures` gives only the new words, as `Insert` of the probe sequence. Monotonicity, the frame, membership and idempotence are proved as lemmas about `Insert` (`InsertEffects`, `MemberAfterInsert`, `InsertIdempotent`), and `AddThenContains` combines them for callers.
