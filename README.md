# bytepair in Dafny

A model of the byte-pair codec of `bytepair.go`: `Encode` compresses a byte string by
repeatedly replacing its most frequent adjacent pair of bytes with a byte value that
does not occur in the data, recording each replacement in a dictionary; `Decode`
replays the dictionary from its last entry to its first. The model keeps the source's
imperative shape: the encoder works in place on an `array<Slot>` working buffer (a
slot is either a live byte or the tombstone the source writes as `-1`) and an
`array<int>` of 256 usage counts, and every loop of the source is a loop here, proved
against a specification function.

Files and modules:

- `types.dfy`, module `BytePair`: bytes, slots, dictionary entries, and `LiveBytes`
  (the bytes of a buffer with its tombstones dropped).
- `decode.dfy`, module `Decoding`: `Decode` and its specification `Decoded`/`Expand`.
- `scan.dfy`, module `PairScan`: the counting pass (pair tally, overlap rule, winner
  rule), specified by the left fold `Scan` over the buffer.
- `rewrite.dfy`, module `Rewriting`: the rewriting pass, specified by `Rewritten`
  and `MatchCount`, and the round trip of one pass.
- `encode.dfy`, module `Encoding`: the helpers, one pass of the encoder's loop,
  `Encode` itself, and `EncodeTotal`, a corrected encoder whose loop always ends.
- `stuck.dfy`, module `EncoderLoop`: inputs on which the source's loop never ends.

The packed value of a pair is `first * 256 + second`. While counting, the source can
also form a bigram whose first byte is a tombstone (only at the very start of the
buffer); its value there is `second - 256`, as in the source, because the overlap
tracker compares such values with the tracker's "no bigram" value `-1`. When
rewriting, a raw pair that involves a tombstone never matches.

## Model

| member | source | states |
|---|---|---|
| BytePair.LiveBytesLength | bytepair.go:110-114 | dropping the tombstones shortens the buffer by exactly their number |
| BytePair.LiveBytesOfAllLive | bytepair.go:142-147 | a buffer made of live copies of the input holds exactly the input's bytes |
| BytePair.LiveBytesAppend | bytepair.go:110-114 | compaction distributes over concatenation of buffers |
| BytePair.LiveBytesMember | bytepair.go:110-114 | a byte is in the output exactly when some slot holds it live |
| Decoding.Decode | bytepair.go:119-139 | the nested loops, applying entries from last to first, compute `Decoded(input, dict)` |
| Decoding.DecodedEmpty | bytepair.go:120-138 | an empty dictionary returns the input unchanged |
| Decoding.DecodedSnoc | bytepair.go:120-135 | the last entry of the dictionary is expanded first, then the rest |
| Decoding.ExpandLength | bytepair.go:123-133 | one decoding pass adds exactly one byte per occurrence of the key |
| Decoding.ExpandAppend | bytepair.go:123-133 | one decoding pass works byte by byte: it distributes over concatenation |
| Decoding.ExpandAbsentKey | bytepair.go:124-127 | an entry whose key does not occur changes nothing |
| Decoding.ExpandRemovesKey | bytepair.go:129-132 | after expanding an entry whose bytes differ from its key, the key no longer occurs |
| Decoding.DecodedAppend | bytepair.go:119-139 | decoding a concatenation decodes each part |
| PairScan.CountPairs | bytepair.go:39-76 | the counting loop computes the fold `Scan` (best count, best pair, the tracker handed to the next pass); the count is 0 or above 1, and a winning pair is two bytes |
| PairScan.StartTallied | bytepair.go:39-45 | the scan starts with an empty tally and nothing won |
| PairScan.TallyStep | bytepair.go:56-69 | a counted bigram is appended to the history and its tally grows by one |
| PairScan.StepKeys | bytepair.go:44-56 | only the first bigram of a pass can start with a tombstone, so a negative bigram is tallied at most once |
| PairScan.StepBest | bytepair.go:71-75 | each step keeps `maxCnt`/`maxPair` the best tally of the history, first to reach it |
| PairScan.StepTallied | bytepair.go:47-76 | each step of the counting loop, including the skips of tombstones and overlaps, keeps the scan's invariant |
| PairScan.ScanTallied | bytepair.go:47-76 | the invariant holds after the whole pass |
| PairScan.WinnerRule | bytepair.go:71-80 | `maxCnt` is 0 iff no bigram was tallied twice; otherwise it is the largest tally, reached by `maxPair`, a pair of two bytes that reached it before any other pair (later ties lose) |
| PairScan.RunTalliedEveryOther | bytepair.go:58-66 | overlap rule: in a run of equal bytes only the non-overlapping pairs are tallied (`aaa` once, `aaaa` twice), and the tracker ends as the source leaves it |
| Rewriting.Rewritten | bytepair.go:96-105 | the rewritten buffer has the length of the original |
| Rewriting.RewritePairs | bytepair.go:96-105 | the in-place loop leaves `Rewritten(old buffer)`, adds one use of the code per match, and leaves every other count alone |
| Rewriting.RewrittenNoMatch | bytepair.go:96-105 | a pair that never matches leaves the buffer unchanged |
| Rewriting.RewrittenSlots | bytepair.go:100-103 | every slot is unchanged, a tombstone, or the code |
| Rewriting.RewrittenTombs | bytepair.go:100-103 | exactly one tombstone is added per match |
| Rewriting.RewrittenLive | bytepair.go:100-103 | a live byte after the pass was live before, or is the code and something matched |
| Rewriting.TombFollowedByCode | bytepair.go:96-105 | matches do not overlap: every new tombstone is followed by the code |
| Rewriting.PackedHalves | bytepair.go:98 | `High` and `Low`, as `Decode` computes them, invert `PackLive`: they give back the two bytes of a packed pair |
| Rewriting.MatchExpands | bytepair.go:98-102 | a `(tombstone, code)` pair decodes back to the pair it replaced |
| Rewriting.RewrittenExpandsFrom | bytepair.go:96-105 | one pass decodes back, from a buffer whose first slot may be a freshly written code |
| Rewriting.RewrittenExpands | bytepair.go:96-105 | round trip of one pass: expanding the new entry on the rewritten buffer gives back the bytes before the pass, when the code did not occur |
| Rewriting.RewrittenRun | bytepair.go:96-105 | a run of `2k` equal bytes rewritten with its own pair becomes `k` tombstone-code pairs, with `k` matches |
| Encoding.StringToSlots | bytepair.go:142-147 | one live slot per input byte, in order |
| Encoding.CountUsage | bytepair.go:29-31 | `used[b]` is the number of occurrences of `b` in the input |
| Encoding.GetUnused | bytepair.go:150-158 | the smallest index with count 0, and -1 exactly when every count is nonzero |
| Encoding.Compact | bytepair.go:110-114 | the output is the live bytes, as long as the buffer minus its tombstones |
| Encoding.InitialConsistent | bytepair.go:16-31 | the state set up from the input satisfies the encoder's invariant with an empty dictionary |
| Encoding.PassCounts | bytepair.go:29-31 | after a pass every live byte and input byte still has a nonzero count, and the code is not an input byte |
| Encoding.PassConsistent | bytepair.go:91-105 | appending the entry and rewriting with a code of count 0 keeps the invariant, including that decoding gives back the input |
| Encoding.PassEffect | bytepair.go:91-105 | the same, plus one tombstone per match, and a pass that rewrote nothing changed nothing |
| Encoding.ApplyEntry | bytepair.go:92-105 | the rewrite in place with its count update keeps the invariant with the entry appended |
| Encoding.Setup | bytepair.go:16-31 | the buffer holds the input, the counts are the input's, and the invariant holds |
| Encoding.EncodePass | bytepair.go:37-106 | one pass: the winner of `Scan`, the first free code, no entry exactly when no pair repeats or no code is free, the rewritten buffer and counts, the invariant kept |
| Encoding.Encode | bytepair.go:11-117 | short inputs come back unchanged with no dictionary; every returned result decodes to the input, is no longer than it, and its keys are bytes absent from the input |
| Encoding.KeysStayDistinct | bytepair.go:83-103 | a key taken where the count is 0 and then used differs from every earlier key |
| Encoding.EncodeTotal | bytepair.go:11-117 | the corrected encoder always returns: round trip, no longer than the input, fresh keys, and no key used twice |
| Encoding.PassesUntilNoMatch | bytepair.go:36-107 | the corrected loop ends (each going-on pass adds a tombstone) and keeps the invariant and distinct keys |
| EncoderLoop.FirstScan | bytepair.go:39-76 | the first pass over eight equal bytes tallies `aa` four times and leaves it in the tracker |
| EncoderLoop.FirstRewrite | bytepair.go:96-105 | and rewrites the run to four tombstone-code pairs with code 0 |
| EncoderLoop.LaterScan | bytepair.go:44-76 | every later pass picks the pair `00` with count 2 |
| EncoderLoop.LaterRewrite | bytepair.go:96-105 | and matches nothing, since a tombstone separates any two codes |
| EncoderLoop.SetupOfRun | bytepair.go:16-31 | the set-up state for eight copies of a byte above 1 |
| EncoderLoop.FirstPassOutcome | bytepair.go:78-105 | the first pass's contract on the run: entry `(0, aa)` and the stuck state |
| EncoderLoop.FirstPassOfRun | bytepair.go:36-106 | the first pass of `Encode` on the run appends `(0, aa)` and reaches the stuck state |
| EncoderLoop.StuckPassRepeats | bytepair.go:36-107 | from the stuck state, each pass appends `(1, 00)`, rewrites nothing and returns to the same state: the loop never ends |

## Left out

- Encode: the source's loop has no bound, so the model takes a bound `fuel` on its passes and returns `OutOfFuel` when the source would still be looping; results are stated only for runs that return.
- Encode: does not claim that dictionary keys are distinct, because in the source they are not (a pass that rewrites nothing leaves the code's count at 0, and the next pass picks the same code); `EncodeTotal` claims it.
- 32-bit widths: the counts in `used` and in the pair tally are `int32` in the source and could overflow on inputs of more than 2^31 bytes; the model uses unbounded integers. Packed pairs never leave the `int32` range, and the final `byte(u)` conversion only sees values 0..255, so neither needs a wrap.
- The slice aliasing of the short-input path (the caller's own slice comes back) and nil versus empty slices and dictionaries: all are plain sequences.
- Capacity hints (`make(map..., 100)`, `make([]byte, 0, len(in)*2)`): allocation only.
- `bytepair_test.go`: the test's round trip on `"aaabdaaabac"` is covered by `Encode`'s contract whenever `Encode` returns; that it returns on this input is not proved; the benchmark and the assertion library are not part of this model.
- Decode's round trip is stated for dictionaries the encoder produced; on arbitrary dictionaries `Decode` is still modelled exactly.

## Findings

| source | as written | input that shows it | evidently intended | confidence | as-written member | corrected member |
|---|---|---|---|---|---|---|
| bytepair.go:36-107 | the loop ends only when no pair repeats or no code is free; a pass whose winning pair only occurs across a tombstone rewrites nothing, leaves the code's count at 0, and the next pass picks the same pair and code again | `"aaaaaaaa"` (any eight equal bytes other than 0 and 1): the first pass turns it into four (tombstone, 0) pairs, and every later pass picks `00`, which never occurs as a raw pair, and appends `(1, 00)` forever | the loop terminates, each entry encoding at least one pair | not executed | EncoderLoop.StuckPassRepeats | Encoding.EncodeTotal |
