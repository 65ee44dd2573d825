# Verified model of the lmdb-js write path, read path and compression

A Dafny model of the four cores of this repository and proofs about all of their runs:

- the LZ4 block codec that compresses stored values (`Lz4Format`, `Lz4Copy`, `Lz4Decoder`, `Lz4Encoder`), the optimal parser of LZ4HC (`Lz4Hc`), the resumable frame decoder (`Lz4FrameFormat`, `Lz4FrameLayout`, `Lz4FrameHistory`, `Lz4Frame`) and the streaming hashes (`XxHash32`, `XxHash64`, on bit-vector words, with `XxHash32Facts` and `XxHash64Facts`);
- the asynchronous write protocol between the JavaScript thread, the write worker and the compression workers: the binary instruction layout (`InstructionLayout`), publication and execution through status words (`WriteProtocol`), settlement of promises (`Settlement`), the compression claim word (`CompressionClaim`), interruption by synchronous transactions (`Interruption`), and what a stream of instructions does to the store (`ConditionBlocks`);
- what the database holds for a value and how it is read back (`StoredValue`);
- ranges over a sorted store and the order of its keys (`RangeCursor`, `KeyOrder`).

Algorithms that work in place are methods on arrays or classes, each proved against a function of its inputs. Protocols are state machines whose steps are single memory accesses, atomic operations or lock operations; what is proved of them holds in every interleaving. Where the code does not have a property one would expect, a lemma gives a run or an input on which it fails, and another says exactly when it holds.

`dafny verify dfyconfig.toml` checks everything.

## What the code does where one might expect otherwise

- A put with a version condition writes the value it looked up for the comparison, not the value it was given (src/writer.cpp:209-216): `ConditionBlocks.PutStoresValue`.
- queueCommitResolution keeps only the first and the newest queued transaction end (write.js:368-378); an end that it overwrites and that is still unmarked when a later one is settled has the promises of its transaction settled early: `Settlement.SettledEarly`. `Settlement.TimelyRunIff` says exactly in which runs this does not happen; it cannot happen as long as nothing is overwritten (`Settlement.LosslessIsTimely`), nor if commit marks appear in order (`Settlement.OrderedIsTimely`).
- Compression that yields nothing after a worker has claimed a value leaves the claim word at 2, and the writer waits for ever (src/compression.cpp:129-150): `CompressionClaim.HangsIff`, `CompressionClaim.WaitsForEver`. If it is the writer that has claimed the value, it does not look at the result of compressInstruction and takes the bits of the pointer, still a double, for an address (src/writer.cpp:193-202): `CompressionClaim.UsesUncompressedIff`. The JavaScript side can ask for it for an empty value, because it looks at a byte behind it (write.js:160-178): `StoredValue.Store.Encode` says exactly when.
- There is always room for the link to the next instruction buffer exactly if the maximum key size is 1, 2 or 3 modulo 8 and no block end was written since the position was last compared with the threshold (write.js:48, write.js:210-219); finishBatch advances without that comparison (write.js:518-521), so an instruction behind it can leave no room whatever the maximum key size, the cap of 4026 in open.js:12 included. The stores of the link are then lost and the worker never gets to the next buffer: `InstructionLayout.AlwaysRoomIff`, `InstructionLayout.LosesLink`.
- A synchronous transaction that interrupts a batch waits once, without a condition (src/writer.cpp:81-93). If that wait returns before the worker has committed, by a spurious wake-up or by a compression worker's signal on the same condition variable (src/compression.cpp:138-142), it begins a transaction with the writing lock held while the worker, asleep, has its own open, and no thread can go on: `Interruption.DeadlockIff`, `Interruption.CanHang`; `Interruption.BeginsIff` says exactly when it can begin.
- While the LZ4 frame decoder flushes a block, the 64 KB that end at its dictionary's end are not always the most recent output; they are again when the block is flushed (dependencies/lz4/lib/lz4frame.c:1322-1341): `Lz4FrameHistory.WindowLateInFlush` gets the decoder there, `Lz4FrameHistory.WindowInFlushIff` says exactly when they are, and `Lz4FrameHistory.FlushedReady` that they are at the end.
- The block decoder accepts a match offset of 0 and produces zeros, and adds up lengths modulo 2^32; the reference decoder of `Lz4Format` does the same.

## Model

| member | source | states |
|---|---|---|
| Lz4Format.DecodeOfEncode | dependencies/lz4/lib/lz4.c:1737-2165 | for every dictionary, list of sequences and last literals, the reference decoder turns the laid-out block into the expansion of the sequences followed by the last literals |
| Lz4Format.LegalOfEncode | dependencies/lz4/lib/lz4.c:214-221 | sequences that keep their matches away from the end as an encoder must make a block that obeys the end-of-block rules |
| Lz4Format.ParseEncodedSequence | dependencies/lz4/lib/lz4.c:1028-1040 | a token, lengths, literals and offset laid out anywhere in a buffer parse back to the same sequence and extent |
| Lz4Format.ParseEncodedLast | dependencies/lz4/lib/lz4.c:1220-1231 | the last literals parse back to themselves and end the block |
| Lz4Format.ReadRunOfLengthBytes | dependencies/lz4/lib/lz4.c:1707-1729 | a run of length bytes reads back the length that was laid out |
| Lz4Format.CopyMatchAt | dependencies/lz4/lib/lz4.c:2103-2151 | every byte of a match equals the byte one offset before it, also inside the match itself |
| Lz4Format.CopyMatchUnique | dependencies/lz4/lib/lz4.c:2103-2151 | the byte-at-a-time copy is the only continuation of the history with that property |
| Lz4Format.LegalDecodes | dependencies/lz4/lib/lz4.c:214-221 | a block that obeys the end-of-block rules always decodes, into the capacity it was made for |
| Lz4Format.DecodeTrim | dependencies/lz4/lib/lz4.c:227-230 | history more than 65535 bytes back has no influence on decoding or on the end-of-block rules |
| Lz4Format.DecodeExtend | dependencies/lz4/lib/lz4.c:2404-2417 | what decodes against a dictionary decodes to the same bytes against any extension of it in front |
| Lz4Copy.WildCopyIn | dependencies/lz4/lib/lz4.c:408-415 | a strided copy from the input that overshoots stores exactly the wanted bytes up to its end, and nothing outside the stated overshoot |
| Lz4Copy.WildCopy8 | dependencies/lz4/lib/lz4.c:408-415 | an overshooting copy in strides of 8 inside the output extends the byte-at-a-time match, for every distance of at least 8 |
| Lz4Copy.WildCopy32 | dependencies/lz4/lib/lz4.c:462-470 | the same in strides of 32, as two copies of 16, for distances of at least 16 |
| Lz4Copy.TableRepeats | dependencies/lz4/lib/lz4.c:417-418 | the distances reached with inc32table and dec64table are multiples of the offset, so the match repeats at them |
| Lz4Copy.CopyFirst8 | dependencies/lz4/lib/lz4.c:2122-2135 | the first eight bytes of a match with a small offset, copied by way of the tables, are the byte-at-a-time match, and the source pointer then stands at a distance that repeats |
| Lz4Copy.CopyUsingOffset | dependencies/lz4/lib/lz4.c:436-457 | the table-driven copy of an overlapping match equals the byte-at-a-time match |
| Lz4Copy.CopyPattern | dependencies/lz4/lib/lz4.c:475-506 | for offsets 1, 2 and 4 storing a repeated 8-byte pattern equals the byte-at-a-time match |
| Lz4Decoder.ReadVariableLength | dependencies/lz4/lib/lz4.c:1707-1729 | reads the run of length bytes modulo 2^32, or reports that it reaches the end check |
| Lz4Decoder.FastLiterals | dependencies/lz4/lib/lz4.c:1806-1842 | in the fast loop literals are stored as the reference decoder stores them, or control passes to the safe loop, with every access in range |
| Lz4Decoder.SafeLiterals | dependencies/lz4/lib/lz4.c:1986-2053 | in the safe loop literals are stored, the block ends, or the block is refused; a block that obeys the end-of-block rules is not refused |
| Lz4Decoder.CopyExternal | dependencies/lz4/lib/lz4.c:1882-1911 | a match that starts in the external dictionary, and may run on into the prefix, stores the byte-at-a-time match |
| Lz4Decoder.CopySafe | dependencies/lz4/lib/lz4.c:2122-2150 | the safe loop's match copy near the end of the output stores the byte-at-a-time match and stays inside the output |
| Lz4Decoder.FastMatch | dependencies/lz4/lib/lz4.c:1862-1923 | the fast loop's match copies, with their overshoot, continue the history as the reference decoder does |
| Lz4Decoder.Shortcut | dependencies/lz4/lib/lz4.c:1930-1974 | the two-stage shortcut does what the general path does, or leaves off at a place the general path can take over |
| Lz4Decoder.FastLoop | dependencies/lz4/lib/lz4.c:1797-1924 | the whole fast loop keeps the meaning of the rest of the block |
| Lz4Decoder.SafeLoop | dependencies/lz4/lib/lz4.c:1929-2151 | the safe loop runs the rest of the block to its end or refuses it, keeping the meaning of the rest at every goto |
| Lz4Decoder.DecompressGeneric | dependencies/lz4/lib/lz4.c:1737-2165 | a result that is not negative is the length of exactly what the reference decoder produces; a legal block is never refused; nothing outside the output range is stored to |
| Lz4Decoder.DecompressSafeUsingDict | dependencies/lz4/lib/lz4.c:2404-2417 | the same for every dictionary, right before the output or elsewhere, of any size, in terms of the whole dictionary |
| Lz4Decoder.SameWindow | dependencies/lz4/lib/lz4.c:2404-2417 | histories that agree on the last 65535 bytes give the same decoding and the same verdict of the end-of-block rules |
| Lz4Encoder.PutLiterals | dependencies/lz4/lib/lz4.c:1022-1046 | literal run with token and lengths; succeeds exactly when the budget check does, and its overshoot stays below the capacity |
| Lz4Encoder.PutMatch | dependencies/lz4/lib/lz4.c:1062-1136 | offset and match length behind the literals, with the nibble in the token; the stores of four bytes at once stay below the capacity |
| Lz4Encoder.PutLast | dependencies/lz4/lib/lz4.c:1204-1231 | the last literals, exactly when they fit |
| Lz4Encoder.BudgetSuffices | dependencies/lz4/lib/lz4.h:170-171 | with LZ4_COMPRESSBOUND(n) bytes of room neither check of a sequence can fail |
| Lz4Encoder.Count | dependencies/lz4/lib/lz4.c:602-636 | the end of the longest match below the limit: everything before it repeats, and it cannot be continued |
| Lz4Encoder.MatchEnd | dependencies/lz4/lib/lz4.c:1074-1096 | the longest match, also when it starts in the external dictionary and runs on into the source |
| Lz4Encoder.CatchUp | dependencies/lz4/lib/lz4.c:1016-1019 | extends a match backwards over pending literals as far as it goes |
| Lz4Encoder.Probe | dependencies/lz4/lib/lz4.c:957-1011 | a candidate taken from the hash table is a real match of four bytes within 64 KB inside the window, and the table stays valid |
| Lz4Encoder.FindMatch | dependencies/lz4/lib/lz4.c:953-1014 | the search looks at the next position, then at ever larger steps, and gives the first at which the hash table, as filled so far, has a real match; it gives up only when the next but one position lies behind the last possible start |
| Lz4Encoder.EmitFound | dependencies/lz4/lib/lz4.c:1016-1136 | a found match becomes one more sequence, extended as far as it goes both ways, and the expansion reaches exactly the input consumed, within the budget |
| Lz4Encoder.EmitNext | dependencies/lz4/lib/lz4.c:1140-1198 | right behind a sequence the table is filled and looked up: a match there is emitted without literals, and without one the table says so |
| Lz4Encoder.EmitChain | dependencies/lz4/lib/lz4.c:1140-1198 | every match found right behind another is emitted, and the chain ends only where the table has none or the input is too short |
| Lz4Encoder.Round | dependencies/lz4/lib/lz4.c:948-1198 | one turn of the main loop: a search that finds nothing has looked everywhere it should; otherwise its match and the chain behind it are emitted |
| Lz4Encoder.CompressGeneric | dependencies/lz4/lib/lz4.c:851-1240 | a result above 0 is the size of a block that decodes, with the dictionary, to the source and obeys the end-of-block rules; with LZ4_COMPRESSBOUND(n) bytes of room the result is never 0 and at most n + n/255 + 16; the last literals begin where neither the table nor a search has another match; and a source of one byte over and over takes exactly 10 bytes and the length bytes of its one match, one less if the dictionary in front ends with that byte |
| Lz4Encoder.Stream.LoadDict | dependencies/lz4/lib/lz4.c:1475-1515 | resets the stream and leaves a hash table of positions of the last 64 KB of the dictionary |
| Lz4Encoder.Stream.CompressFastContinue | dependencies/lz4/lib/lz4.c:1565-1637 | the round trip and the bound for every source, empty and too large ones included; at most 11 + n/255 bytes for n times the same byte |
| Lz4Encoder.HashKnown | dependencies/lz4/lib/lz4.c:706-711 | a value of the hash of five bytes |
| Lz4Encoder.KeptSuffices | dependencies/lz4/lib/lz4.c:1500-1505 | what was compressed against the kept end of a dictionary decodes against the whole dictionary |
| Lz4Hc.PriceIsSize | dependencies/lz4/lib/lz4hc.c:1260-1283 | a sequence occupies exactly LZ4HC_sequencePrice bytes |
| Lz4Hc.EncodeSequenceHc | dependencies/lz4/lib/lz4hc.c:463-544 | emits the sequence in exactly its price, or refuses exactly when one of its two checks fails |
| Lz4Hc.SetFirst | dependencies/lz4/lib/lz4hc.c:1376-1410 | the entries set from the first match are steps of a parse that lead back to position 0 |
| Lz4Hc.LowerLiterals | dependencies/lz4/lib/lz4hc.c:1446-1461 | literals behind a position are entered where cheaper: no price rises, and each entry costs at most those literals |
| Lz4Hc.SetMatches | dependencies/lz4/lib/lz4hc.c:1463-1497 | entries set from a later match leave no gap below the last match position; no price rises, and the end of every part of the match costs at most that part |
| Lz4Hc.Search | dependencies/lz4/lib/lz4hc.c:1412-1512 | whatever matches are found, every entry read was set in this round, the last step chosen is a literal or a real match, and no entry up to the first match gets dearer; the first position at which a search is due and finds something ends the round if its match is long enough, and otherwise has its match in the table; if there is none, the table stays as it is |
| Lz4Hc.Reverse | dependencies/lz4/lib/lz4hc.c:1514-1532 | the reverse traversal turns the entries into a chain that leads from position 0 to the end of the last step without gap or overlap |
| Lz4Hc.EncodeChain | dependencies/lz4/lib/lz4hc.c:1534-1548 | encoding follows the chain exactly to its end and emits each of its matches |
| Lz4Hc.CompressOptimal | dependencies/lz4/lib/lz4hc.c:1314-1588 | for every match finder that returns real matches, the block decodes to the source; never 0 with LZ4_COMPRESSBOUND(n) bytes of room; without a find there are only literals, and a first find longer than sufficient_len is the first sequence |
| StoredValue.HeaderRoundTrip | src/compression.cpp:91-98 | the 254 and 255 headers decode to the length they were made for and begin with a status byte |
| StoredValue.HeaderLayout | src/compression.cpp:170-186 | their bytes: 254 and three bytes of length, or 255 and, from the fifth on, four, the most significant first |
| StoredValue.Store.Compress | src/compression.cpp:152-195 | small values that do not begin with a status byte stay untouched, others become a header and a block that decodes to them, except values too large for LZ4 |
| StoredValue.Store.Encode | write.js:160-188 | what is written stands for the value; nothing is written exactly for too large values and for empty values with a status byte behind them |
| StoredValue.Store.Decompress | src/compression.cpp:85-127 | the value's size, and the value itself exactly if the buffer has room; the dictionary in front stays intact |
| StoredValue.Store.GetByBinary | src/misc.cpp:128-182 | the size always, version and bytes if there is room, for raw and packed values |
| StoredValue.Store.GetBinaryFast | read.js:29-69 | returns the value with at most one reallocation, which happens exactly if the value is longer than the buffer |
| StoredValue.Store.PutThenGet | src/misc.cpp:289-306 | for every value, version, threshold and dictionary, a value that is written is read back byte for byte with its version |
| InstructionLayout.ReadsBack | src/writer.cpp:166-228 | an instruction laid out at any unit is read back with the same flags, dbi, key, value size and pointer, compressor, condition version and version, and its end |
| InstructionLayout.ReadsStreamBack | src/writer.cpp:301-303 | a stream of instructions is read back in order, following every link to another buffer |
| InstructionLayout.WriteInstruction | write.js:132-206 | stores exactly the instruction's image and leaves the rest of the zeroed buffer alone |
| InstructionLayout.FlagWord | src/writer.cpp:26-45 | the flag word is the code plus the weights of the options |
| InstructionLayout.Instructions.Append | write.js:206-219 | appends one instruction to the stream and goes on to a new buffer behind the threshold; takes every keyless instruction and every key of 1 to maxKeySize bytes, no longer one, and an empty key only with a bare DROP_DB; the stream stays readable exactly if there was room for the instruction and the link |
| InstructionLayout.Instructions.ReadBack | src/writer.cpp:301-303 | as long as no store was lost, what the worker reads from the buffers is everything appended, in order |
| InstructionLayout.Instructions.FinishBatch | write.js:518-525 | a block end is appended without a check for a new buffer, and is lost exactly if the buffer is full |
| InstructionLayout.EndsInside | write.js:48 | an instruction begun at or below newBufferThreshold ends inside the 64 KB buffer with room for the next flag word |
| InstructionLayout.AlwaysRoomIff | write.js:206-219 | there is room for the link behind every instruction, wherever it can begin after so many block ends since the last comparison with the threshold, if and only if there were none and the maximum key size is 1, 2 or 3 modulo 8 |
| InstructionLayout.LosesLink | write.js:518-521 | for every other maximum key size, and behind a block end for every maximum key size, a run of calls that loses the link |
| WriteProtocol.ExactlyOnceInOrder | src/writer.cpp:229-333 | in every interleaving the executed instructions are the first of the stream, each once, in order and published before; every outcome mark and every commit mark stays in its word |
| WriteProtocol.PublisherStarts | write.js:244-291 | a publication reads TXN_DELIMITER exactly when it fills the slot an idle worker stopped at, and then it alone sets the start address |
| WriteProtocol.BatchNeverStarts | write.js:244-258 | the plain load and store inside a batch never overwrites a delimiter |
| WriteProtocol.StartsWhereStopped | src/writer.cpp:246-254 | a worker begins exactly where the last one stopped, with no other about |
| WriteProtocol.NextIsExecuted | src/writer.cpp:233-254 | from every reachable state in which the next instruction is published, it can be executed without further publications |
| WriteProtocol.PrefixIsExecuted | src/writer.cpp:233-254 | so it is for every published prefix of the stream |
| WriteProtocol.InvKept | src/writer.cpp:164-333 | every step of either thread keeps the invariant behind these |
| Settlement.SettledOnceInOrder | write.js:380-421 | over every run, with workers active between any two turns of resolveWrites, promises are settled in stream order, each at most once, and each by the outcome of its instruction |
| Settlement.CommitIsTimelyIff | write.js:405-421 | a commit step settles a promise before the slot that ends its transaction shows TXN_COMMITTED if and only if some end in front of the one it acts on has dropped out of the queue unmarked |
| Settlement.TimelyRunIff | write.js:368-421 | in every run, no state has a promise settled early if and only if each commit step finds the ends that dropped out in front of it marked |
| Settlement.LosslessIsTimely | write.js:368-378 | in a run that never overwrites the successor of the first queued end, no promise is ever settled early, in whatever order commit marks appear |
| Settlement.OrderedIsTimely | src/writer.cpp:346-369 | nor in a run in which commit marks appear in the order of the transactions, whatever is overwritten |
| Settlement.SettledEarly | write.js:368-378 | a run in which a promise is settled early, because the queue lost a transaction end |
| CompressionClaim.CompressedOnce | src/compression.cpp:203-210 | in every interleaving, whichever values can be compressed, no value is compressed twice, and a value the writer uses has been compressed exactly if it can be |
| CompressionClaim.WaitIsSignalled | src/writer.cpp:183-203 | while the writer sleeps unsignalled, its worker is still to signal, unless the value cannot be compressed; it signals after the compressed pointer is in place; and it gives up on a waiting writer only if the value cannot be compressed |
| CompressionClaim.SleeperWakes | src/compression.cpp:129-150 | from every reachable state in which the writer sleeps for a value that can be compressed it can come to find it compressed |
| CompressionClaim.WaitsForEver | src/writer.cpp:186-192 | from every reachable state in which the writer waits for a value that cannot be compressed, no run gets it out of that wait |
| CompressionClaim.AbandonedForEver | src/writer.cpp:186-192 | nor from a wait for a worker that has given up |
| CompressionClaim.HangsIff | src/compression.cpp:129-150 | for every value, some run leaves the writer waiting for a worker that has given up on it if and only if it cannot be compressed |
| CompressionClaim.UsesUncompressedIff | src/writer.cpp:193-202 | for every value, some run has the writer use its uncompressed pointer if and only if it cannot be compressed |
| Interruption.CommitsOutsideBlocks | src/writer.cpp:114-157 | whatever AcquireTxn and UnlockTxn do, and whenever either thread wakes up, the worker's transaction ends only outside every block |
| Interruption.BlockInOneTransaction | src/writer.cpp:238-244 | in every run all instructions of a condition block or batch are executed in one LMDB transaction |
| Interruption.BeginsIff | src/writer.cpp:81-93 | when the wait of an interrupting synchronous transaction returns, it can begin if and only if the worker has committed and sleeps again or has stopped; otherwise both threads hang |
| Interruption.DeadlockIff | src/writer.cpp:81-157 | in every reachable state some thread can take a step, except where that wait has returned while the worker sleeps in its transaction: there none can |
| Interruption.CanHang | src/writer.cpp:81-93 | a run that ends there |
| Interruption.CanBegin | src/writer.cpp:134-149 | from every reachable state with an interruption pending, the worker can commit and the synchronous transaction begin, with nothing executed in between |
| ConditionBlocks.CountersAreAStack | src/writer.cpp:158-333 | for every well-nested stream the loop with conditionDepth and validatedDepth computes the meaning of nested condition blocks: the same store and the same marks |
| ConditionBlocks.DoWrites | src/writer.cpp:164-333 | so does the loop as written; a single write that takes effect changes the store key by key as it says, and keys that no write is on, in databases that are not dropped, stay as they are |
| ConditionBlocks.DeadMeaning | src/writer.cpp:229-325 | nothing below a failed condition reaches the store, and every write and block there is marked failed |
| ConditionBlocks.PutStoresValue | src/writer.cpp:209-216 | a put that takes effect stores its value if and only if it has no version condition or the value is what was there |
| ConditionBlocks.EffectWrites | src/writer.cpp:263-300 | key by key: a put stores version and value under its key alone, a deletion removes its key alone, a drop empties its database and no other |
| ConditionBlocks.OneWrite | src/writer.cpp:263-300 | a write on its own is done and marked finished, or leaves the store alone and is marked failed, by its condition |
| ConditionBlocks.OthersStay | src/writer.cpp:164-333 | whatever the nesting and the conditions, keys that no write is on, in databases that are not dropped, keep their values |
| XxHash32.OneShot | dependencies/lz4/lib/xxhash.c:352-389 | the loop over stripes computes the hash as defined on the whole string |
| XxHash32.State.Update | dependencies/lz4/lib/xxhash.c:452-510 | keeps accumulators, buffer, wrapped length and the flag for long input in step with everything hashed since the reset |
| XxHash32.State.Digest | dependencies/lz4/lib/xxhash.c:527-543 | the hash of everything since the reset |
| XxHash32.HashChunks | dependencies/lz4/lib/xxhash.c:437-543 | for every way of cutting a string into updates, the digest is the one-shot hash |
| XxHash32Facts.KnownEmpty | dependencies/lz4/lib/xxhash.c:352-389 | the hash of nothing, with seed 0 |
| XxHash32Facts.KnownEmptySeeded | dependencies/lz4/lib/xxhash.c:352-389 | and with another seed |
| XxHash32Facts.KnownByte | dependencies/lz4/lib/xxhash.c:352-389 | the hash of one byte, with seed 0 |
| XxHash32Facts.KnownByteSeeded | dependencies/lz4/lib/xxhash.c:352-389 | and with another seed |
| XxHash32Facts.KnownWord | dependencies/lz4/lib/xxhash.c:352-389 | the hash of four bytes, with seed 0 |
| XxHash32Facts.KnownWordSeeded | dependencies/lz4/lib/xxhash.c:352-389 | and with another seed |
| XxHash32Facts.KnownStripe | dependencies/lz4/lib/xxhash.c:352-389 | the hash of a whole stripe, with seed 0 |
| XxHash32Facts.KnownStripeSeeded | dependencies/lz4/lib/xxhash.c:352-389 | and with another seed |
| XxHash32Facts.KnownRest | dependencies/lz4/lib/xxhash.c:352-389 | the hash of a stripe and a rest that takes every kind of step, with seed 0 |
| XxHash32Facts.KnownRestSeeded | dependencies/lz4/lib/xxhash.c:352-389 | and with another seed |
| XxHash32Facts.AvalancheIsOneToOne | dependencies/lz4/lib/xxhash.c:278-286 | the final mixing can be undone, so it keeps different words different |
| XxHash32Facts.RoundIsOneToOne | dependencies/lz4/lib/xxhash.c:269-275 | so can a round, for the accumulator and for the input |
| XxHash64.OneShot | dependencies/lz4/lib/xxhash.c:811-852 | the loop over stripes computes the hash as defined on the whole string |
| XxHash64.State.Update | dependencies/lz4/lib/xxhash.c:912-963 | keeps accumulators, buffer and length in step with everything hashed since the reset |
| XxHash64.State.Digest | dependencies/lz4/lib/xxhash.c:981-1003 | the hash of everything since the reset |
| XxHash64.HashChunks | dependencies/lz4/lib/xxhash.c:898-1003 | for every way of cutting a string of less than 2^64 bytes into updates, the digest is the one-shot hash |
| XxHash64Facts.KnownEmpty | dependencies/lz4/lib/xxhash.c:811-852 | the hash of nothing, with seed 0 |
| XxHash64Facts.KnownEmptySeeded | dependencies/lz4/lib/xxhash.c:811-852 | and with another seed |
| XxHash64Facts.KnownByte | dependencies/lz4/lib/xxhash.c:811-852 | the hash of one byte, with seed 0 |
| XxHash64Facts.KnownByteSeeded | dependencies/lz4/lib/xxhash.c:811-852 | and with another seed |
| XxHash64Facts.KnownWord | dependencies/lz4/lib/xxhash.c:811-852 | the hash of four bytes, with seed 0 |
| XxHash64Facts.KnownWordSeeded | dependencies/lz4/lib/xxhash.c:811-852 | and with another seed |
| XxHash64Facts.KnownLong | dependencies/lz4/lib/xxhash.c:811-852 | the hash of eight bytes, with seed 0 |
| XxHash64Facts.KnownLongSeeded | dependencies/lz4/lib/xxhash.c:811-852 | and with another seed |
| XxHash64Facts.KnownStripe | dependencies/lz4/lib/xxhash.c:811-852 | the hash of a whole stripe, with seed 0 |
| XxHash64Facts.KnownStripeSeeded | dependencies/lz4/lib/xxhash.c:811-852 | and with another seed |
| XxHash64Facts.KnownRest | dependencies/lz4/lib/xxhash.c:811-852 | the hash of a stripe and a rest that takes every kind of step, with seed 0 |
| XxHash64Facts.KnownRestSeeded | dependencies/lz4/lib/xxhash.c:811-852 | and with another seed |
| XxHash64Facts.AvalancheIsOneToOne | dependencies/lz4/lib/xxhash.c:688-696 | the final mixing can be undone, so it keeps different words different |
| XxHash64Facts.RoundIsOneToOne | dependencies/lz4/lib/xxhash.c:672-678 | so can a round, for the accumulator and for the input |
| Lz4FrameHistory.History.UpdateDict | dependencies/lz4/lib/lz4frame.c:1300-1362 | after output straight to the caller's buffer the window of the output ends at dict + dictSize, wherever that is |
| Lz4FrameHistory.History.UpdateDictTmp | dependencies/lz4/lib/lz4frame.c:1300-1341 | after a flush from tmpOut the window still ends with the block, or with what has been flushed |
| Lz4FrameHistory.History.DecodeBlock | dependencies/lz4/lib/lz4frame.c:1654-1669 | a block decodes against the dictionary as it does against all output of the frame so far |
| Lz4FrameHistory.History.DecodeToTmp | dependencies/lz4/lib/lz4frame.c:1685-1721 | room is made in tmpOutBuffer without losing the window, and the block decoded there can be flushed |
| Lz4FrameHistory.History.Preserve | dependencies/lz4/lib/lz4frame.c:1846-1874 | at the end of a call a history in the caller's buffer moves to tmpOutBuffer |
| Lz4FrameHistory.History.CopyInFront | dependencies/lz4/lib/lz4frame.c:1329-1341 | in the middle of a flush the bytes the window will need are put in front of the block |
| Lz4FrameHistory.FlushedReady | dependencies/lz4/lib/lz4frame.c:1724-1744 | once a block is flushed, the last min(64 KB, history length) bytes ending at dict + dictSize are the most recent output |
| Lz4FrameHistory.WindowInFlushIff | dependencies/lz4/lib/lz4frame.c:1322-1327 | in the middle of a flush with the dictionary in tmpOutBuffer they are sure to be if and only if all of them have been flushed from this block, or none of it is left, or output and rest together fit in 64 KB |
| Lz4FrameHistory.WindowLateInFlush | dependencies/lz4/lib/lz4frame.c:1329-1341 | a run of the decoder to a state in which they are not: one byte to the caller's buffer, then a block of 64 KB to tmpOut, then the end of the call |
| Lz4FrameLayout.FrameOfLay | dependencies/lz4/lib/lz4frame.c:1113-1205 | for every header and every list of raw and compressed blocks, the bytes laid out from the magic number, the flag weights, the block sizes 2^16 to 2^22, lengths, checksums and end mark mean their content, and nothing behind them is touched |
| Lz4FrameLayout.FrameOfSkippable | dependencies/lz4/lib/lz4frame.c:1124-1138 | a skippable frame means no content, whichever of the 16 magic numbers it has |
| Lz4FrameLayout.HeaderRefused | dependencies/lz4/lib/lz4frame.c:1146-1185 | headers with another version, a reserved bit, a block size below 64 KB or a wrong check byte are refused |
| Lz4Frame.Dctx.DecodeHeader | dependencies/lz4/lib/lz4frame.c:1113-1205 | a header in the chunk or in the store is accepted, refused or found incomplete as the frame format says |
| Lz4Frame.Dctx.BlockHeader | dependencies/lz4/lib/lz4frame.c:1502-1532 | a block header leads to the stage that continues the meaning of the frame |
| Lz4Frame.Dctx.DoCopyDirect | dependencies/lz4/lib/lz4frame.c:1534-1572 | an uncompressed block goes through in pieces of any size |
| Lz4Frame.Dctx.DecodeCBlock | dependencies/lz4/lib/lz4frame.c:1639-1722 | a compressed block goes to the caller's buffer or to tmpOut with the same content |
| Lz4Frame.Dctx.DoFlushOut | dependencies/lz4/lib/lz4frame.c:1724-1744 | a block in tmpOut goes out in pieces of any size |
| Lz4Frame.Dctx.Step | dependencies/lz4/lib/lz4frame.c:1408-1841 | every stage keeps what the rest of the input means: what it puts out is what the frame's content begins with, and it makes progress |
| Lz4Frame.Dctx.Decompress | dependencies/lz4/lib/lz4frame.c:1384-1879 | a call fails only on an invalid frame, stops only when its input is used up or its buffer is full, keeps the history safe for the next call, and completes a frame it is given the rest of unless its buffer fills up, with the context back in its initial stage |
| Lz4Frame.DecodeInPieces | dependencies/lz4/lib/lz4frame.c:1384-1841 | for every valid frame, every split into chunks and all capacities the output is a prefix of the content, and on completion it is the content, with exactly the frame consumed; and more calls than the frame has bytes and content together, each with some input and some room, do complete it |
| Lz4Frame.DecodeAtOnce | dependencies/lz4/lib/lz4frame.c:1384-1841 | one call with the whole frame and room enough completes it |
| RangeCursor.EntryOfRange | src/cursor.cpp:108-137 | reading entry by entry from where the cursor positions to where the end test stops reads exactly the range |
| RangeCursor.RangeIsInterval | src/cursor.cpp:108-137 | the range holds exactly the keys in [start, end), ascending, or in (end, start], descending |
| RangeCursor.Cursor.Seek | src/cursor.cpp:160-209 | positions on the first entry of the range, in either direction |
| RangeCursor.Cursor.DoPosition | src/cursor.cpp:140-253 | positions after the offset and returns the entry there, or nothing |
| RangeCursor.Cursor.Count | src/cursor.cpp:205-249 | count mode gives the size of the range less the offset, or 0 |
| RangeCursor.Iterator.Next | read.js:279-296 | call number n yields entry offset + n of the range, if there is one and n is below the limit |
| RangeCursor.Collect | read.js:279-296 | in all, min(limit, size of the range less the offset) entries, entry i of them being entry offset + i of the range |
| RangeCursor.CountPairs | src/cursor.cpp:229-246 | counting pair by pair gives the number of key and value pairs in the range |
| RangeCursor.CountByKey | src/cursor.cpp:212-246 | so does the per-key shortcut, in a dupsort store read forward from offset 0 |
| KeyOrder.CompareFast | src/ordered-binary.cpp:10-38 | the word-wise comparison has the sign of the byte-lexicographic order, a proper prefix first |
| KeyOrder.LexDecided | src/ordered-binary.cpp:10-38 | the first byte that differs decides the order |
| KeyOrder.LexPrefix | src/ordered-binary.cpp:10-38 | a proper prefix comes first |
| KeyOrder.TotalOrder | src/ordered-binary.cpp:10-38 | that order is total: equal only for equal keys, antisymmetric and transitive |

## Left out

- LMDB itself (its B-tree, paging, sync and errors) is assumed to be a sorted map with transactions; runs in which LMDB returns errors, TXN_FAILED and rejected promises are not modelled.
- Bindings, option parsing and exports (src/env.cpp, src/dbi.cpp, src/txn.cpp, src/lmdb-js.cpp, mod.ts, open.js, external.js): little to prove.
- Encoders of keys and values, and the cache of caching.js: their code is not part of this model.
- LZ4 fillOutput and destSize modes, partial decoding, LZ4_decompress_fast, the 16-bit and pointer hash tables, attached dictionary contexts, chained calls of a stream after its first block, and a source that overlaps the dictionary.
- Lz4Hc.CompressOptimal: the match finder (hash chains and pattern analysis) is a parameter that returns real matches; the unlimited-output mode, in which the checks are dropped, is not modelled separately.
- Lz4FrameHistory.History.UpdateDict: the caller's buffers and tmpOutBuffer are ranges of one memory with at least one byte between them; LZ4F_decompress_usingDict and failed allocations are not modelled.
- Lz4Frame.Dctx.Decompress: the size hint is reduced to whether it is zero; a context abandoned in the middle of a frame and reset, which keeps its frameRemainingSize, is not followed.
- XxHash64.HashChunks: strings of 2^64 bytes or more, for which the one-shot form does not exist.
- Endianness, alignment and compiler variants: little-endian, 64 bits.
- WriteProtocol.ExactlyOnceInOrder: slots are positions of the stream, the links between buffers are in InstructionLayout; user callbacks only appear as the worker being busy; back-pressure delays and timers do not appear.
- Settlement.SettledOnceInOrder: promise clients only; a write with a callback settles synchronously (write.js:309-311, write.js:411-416), and a callback that publishes and re-enters resolveWrites before uncommittedResolution advances is not modelled.
- Lz4Encoder.Stream.CompressFastContinue: the first block after LoadDict, which is all the value compressor asks for; a stream that goes on to a second block is not modelled.
- CompressionClaim.CompressedOnce: only the writer and the compression workers use the condition variable here.
- ConditionBlocks.DoWrites: databases without duplicates, no append flag, versions compared by their eight bytes, values shorter than a version never match one.
- StoredValue.Store.PutThenGet: put and get of a value without a version condition; the block is compressed in a buffer of its own and then put behind its header.
- InstructionLayout.Instructions.Append: stores beyond the end of a typed array are dropped, as JavaScript does, and what the worker would then make of such a buffer is not followed; a refused key leaves no bytes behind, where the code leaves the dbi word that the next instruction overwrites.
- RangeCursor.Collect: snapshot ranges over keys; renewal of cursors, exactMatch, valuesForKey, and reverse or offset counts over duplicates are not modelled.
