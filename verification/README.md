# A verified model of the hand-off buffer, the ledger and the record formats

This project models three parts of the repository in Dafny and proves what they guarantee.

1. **The hand-off buffer** (`src/fpsc`). One writer task and one reader task share a byte buffer, a four-state
   flag and two waker slots. Every poll body is an atomic step. `RingBuffer` has the polls as methods of a class
   that updates the shared fields, `Transfer` composes them with the loops of `produce_all`,
   `produce_from_stream`, `consume_all` and a loop over `read` into a state machine, and `Sessions` has those
   loops as code driven by an executor's schedule. Proved over every schedule, spurious polls included: bytes are
   conserved and delivered in order, no wake-up is lost, there is no deadlock, and under a fair executor the
   transfer completes exactly when a condition on the configuration holds (`Completion`, `Streams`).

2. **The ledger** (`hash.rs`, `block.rs`, `chain.rs`, `keeper.rs`, `executor.rs`). Chains of blocks linked by hashes are
   digested by a Merkle root and a length into a block of a main chain. Proved: the level-by-level loop computes the
   root of the top-down tree; root and length bind the leaves; the last hash of a chain binds all of it; every run of
   `add_chain`, failing calls included, keeps the ledger invariant; and the last hash of a main chain binds every
   stored side chain (`Merkle`, `Blocks`, `Chains`, `Ledgers`, `Executors`).

3. **Length-prefixed records** (`serializer.rs`, `db.rs`, `network/protocol.rs`). Proved: parsing is the inverse of
   framing in both directions and a homomorphism for appending; the buffer-growing loops succeed exactly when
   stated; bundles and metadata logs read back what was saved; a message decodes to itself and an accepted one is
   authentic (`Framing`, `Serializers`, `Bundles`, `MetaLogs`, `Messages`).

## How it is put together

Code that changes state is a class whose methods are proved equal to a function on values; the results about whole
runs are lemmas about those functions. Expressions of the source are functions.

Libraries are parameters. SHA-256 is a function `H` from byte strings to 32 bytes; a binding result assumes only
that `H` has no collision among the finitely many byte strings that were hashed for the two structures compared
(`CollisionFree(H, inputs)`), never that `H` is injective. The bincode encoding is a pair `Codec(enc, dec)` for which
`Lawful` states that an encoding decodes to its value. The Ed25519 signatures are a pair `Scheme(sign, verify)` for which
`Sound` states that signatures verify. The clock is an argument `now`. Files and streams are byte sequences or sequences
of read results, chosen by the environment.

A panic of the source (a slice out of range, an `unwrap` of nothing) and a loop that never ends are outcomes of their
own (`Panics`, `SlicePanics`, `ReadPanics`, `LoopsForever`, `Underflows`, `OutOfBounds`), so that the results can say when
they occur.

## Where the code does less than its comments say

Each of these follows the code and is proved as an exact condition or as a witness.

- A transfer never completes on a buffer without capacity, for `produce_all` of no bytes, for a stream that fails, or for
  a `read` whose destination is smaller than a chunk; in every other configuration it completes (`TransferCompletes`). How each
  side is left then, and with which error, follows from the configuration (`TransferOutcome`, `OutcomeWithoutCapacity`).
- Without `reuse` a second transfer fails with `WriteZero`, or returns 0 without reading its stream
  (`SecondTransferNeedsReuse`).
- After the closure rejects a slice the writer ends exactly when the flag was `WriteFinished`; in state `Readable` it is
  parked forever, whether it was parked already or still running (`RejectedSliceStrandsWriter`).
- `produce_from_stream` takes a short read for the end of the stream; it delivers the whole stream exactly when no
  short read comes early (`WholeStreamAccepted`).
- `verify` neither checks the first block nor any index, although its comment speaks of index order. Replacing the first
  block goes unnoticed exactly when the hash field stays and the window it opens still holds all later timestamps
  (`FirstBlockIsNotFixed`). The indices are distinct and every lookup by index is right exactly when they are consecutive
  (`LookupRightIffConsecutive`), which those of a verified chain need not be (`VerifyIgnoresIndices`).
- `add_chain` extends the main chain before it verifies the side chain, so a rejected side chain leaves a main block without
  one; over a run that happens exactly when some call brings a chain that `verify` rejects while the main chain has room
  and time for its digest (`RunStaysCompleteIff`).
- A Merkle root without the length does not bind the leaves, with no collision at all (`RootNeedsLength`): two lists of leaves
  share a root exactly when one is a level of the other's tree (`RootsEqualIff`).
- `encode_vec_into` resizes its buffer to one fixed size only. It succeeds exactly when the records fit that size or the
  buffer at hand and none starts in a place without room for its header (`PackSucceedsIff`); otherwise it panics, reports
  an element that cannot be encoded, or repeats the same attempt forever, as its first failing element does (`PackFailsIff`,
  `RetriesForeverIff`).
- `read_all_from_stream` panics exactly on a read longer than the buffer was at the start, and returns the stream exactly when no
  read is longer and each that is as long repeats the bytes already in its place (`ReadBackIsStreamIff`). So a bundle whose first
  read fills a new buffer is not read back, unless its first record is empty (`FullFirstReadIsLost`).
- A value that cannot be saved is lost: the serializer is empty after a failure (`EncodeIntoVecWithHeader`,
  `SaveIntoAsyncWrite`).
- A file that ends inside a record is an error if it ends inside the four size bytes, and makes parsing panic if it ends
  behind them (`CutOffRecord`).
- `save_chains_to_bundle` overwrites the start of the file and does not cut it off: the file holds the saved chains exactly when it
  was not longer before (`Bundle.SaveChains`).
- `save_file` does not refresh the index that a search loads; a later search is right exactly when the saves left the last
  record of the uuid as it was, or nothing was on file at the first search (`SearchAfterSavesIsRightIff`).
- A bundle's summary is wrong when the end of one window overflows the 64-bit clock, except in one case of two such ends
  (`UpdateIsTightIff`).

## Model

| member | source | states |
|---|---|---|
| RingBuffer.Ringbuf.constructor | src/fpsc/ringbuf.rs:28-37 | a new buffer is empty and `Writable`, with no waker stored |
| RingBuffer.Ringbuf.TakeWriterWaker | src/fpsc/ringbuf.rs:102-108 | waking the writer hands out its waker once and leaves the slot empty |
| RingBuffer.Ringbuf.TakeReaderWaker | src/fpsc/ringbuf.rs:110-116 | the same for the reader |
| RingBuffer.Ringbuf.WritePoll | src/fpsc/ringbuf.rs:172-234 | a write waits exactly while bytes are unread; any other takes what the buffer holds, or 0 after the end, wakes the reader, and ends the transfer exactly if it took everything |
| RingBuffer.Ringbuf.ReadPoll | src/fpsc/ringbuf.rs:244-302 | a read waits exactly while the buffer is writable, refuses exactly a destination that is too small, and otherwise hands over everything and wakes a writer that has more |
| RingBuffer.Ringbuf.ProducerPoll | src/fpsc/producer_cosumer.rs:78-164 | the poll of a producer fed by a stream: which answers of the stream make it wait, fail (with which error) or fill the buffer, and that nothing else changes |
| RingBuffer.Ringbuf.ConsumerPoll | src/fpsc/producer_cosumer.rs:283-363 | when the closure is called and with which slice, and what an accepted, a rejected and an unread slice do to flag, wakers and count |
| RingBuffer.NoClosureDrops | src/fpsc/producer_cosumer.rs:312-352 | without a closure the shared state goes on as if a closure had accepted the bytes, and the count is 0 |
| RingBuffer.Ringbuf.ReuseBuffer | src/fpsc/ringbuf.rs:145-149 | `reuse` empties the buffer and resets the flag but keeps stored wakers |
| Sessions.Session.constructor | src/fpsc/producer_cosumer.rs:252-256 | both tasks start runnable, on any buffer |
| Sessions.Session.WakeTask | src/fpsc/ringbuf.rs:102-116 | a wake-up makes only a waiting task runnable |
| Sessions.Session.TurnWriteAll | src/fpsc/producer_cosumer.rs:26-29 | one turn of tokio's `write_all` over the buffer is the writer step of the state machine |
| Sessions.Session.TurnFromStream | src/fpsc/producer_cosumer.rs:58-67 | one turn of the `produce_from_stream` loop is the writer step |
| Sessions.Session.TurnReader | src/fpsc/producer_cosumer.rs:255-270 | one turn of the `consume_all` loop, whose state check is a step of its own, or of a loop over `read`, is the reader step |
| Sessions.Session.Take | src/fpsc/producer_cosumer.rs:404-404 | one decision of the executor, spurious polls included, is a step of the state machine |
| Sessions.Session.Drive | src/fpsc/producer_cosumer.rs:404-404 | driving both tasks by a schedule is a run of the state machine |
| Transfer.NextSafe | src/fpsc/ringbuf.rs:172-302 | every step of either task keeps byte conservation and the no-lost-wake-up invariant |
| Transfer.EveryRunIsSafe | src/fpsc/producer_cosumer.rs:252-363 | in every run the slices handed over are in order a prefix of the data, the count is their length, a parked task has its waker stored where the other side finds it, and the two are never parked together |
| Completion.NextProgress | src/fpsc/producer_cosumer.rs:58-363 | every poll that changes anything lowers an explicit measure, and polling a ready task always changes something |
| Completion.SomethingIsEnabled | src/fpsc/ringbuf.rs:180-233 | no deadlock: a transfer that will finish and whose reads fit has, until it is complete, a task that is ready, or whose stream will wake it |
| Completion.FairRunSettles | src/fpsc/producer_cosumer.rs:26-363 | any fair executor brings any transfer, whatever its configuration, to rest within as many rounds as the measure |
| Completion.SettledIsFinal | src/fpsc/producer_cosumer.rs:26-363 | a transfer at rest changes no more, spurious polls included |
| Completion.TransferCompletes | src/fpsc/producer_cosumer.rs:26-363 | a fairly run transfer completes if and only if a condition checkable before it holds, and then the reader was handed exactly the payload, both counts are its length and the flag is `ReadFinished` |
| Completion.TransferOutcome | src/fpsc/producer_cosumer.rs:26-363 | how every transfer through a buffer with capacity ends: who is done, who waits, who failed with `StreamFailed` or `BufferTooSmall`, and what was delivered |
| Completion.OutcomeWithoutCapacity | src/fpsc/ringbuf.rs:181-222 | without capacity nothing is delivered or completes, and writing something fails with `WriteZero` |
| Completion.SecondTransferNeedsReuse | src/fpsc/ringbuf.rs:228-232 | over a buffer whose transfer ended, `produce_all` fails, a stream is not read, and only old bytes can be handed over |
| Completion.ReusedBufferCompletes | src/fpsc/mod.rs:20-33 | after any run whatever, `reuse` makes the same buffer fit for another transfer, stale wakers notwithstanding |
| Completion.RejectedSliceStrandsWriter | src/fpsc/producer_cosumer.rs:288-349 | after the closure rejects a slice, the writer ends if and only if the flag was `WriteFinished` and it gets its turn; in state `Readable` it ends up parked under every schedule that gives it a turn |
| Streams.WholeStreamAccepted | src/fpsc/producer_cosumer.rs:111-124 | a stream is delivered whole if and only if no read leaves space unused, or fails, before its end; what is delivered is always a prefix |
| Streams.FillingStreamAccepted | src/fpsc/producer_cosumer.rs:50-68 | a stream that fills every read until it ends, with any pauses, is accepted whole and ends cleanly, also when it is empty or a multiple of the capacity |
| Streams.FillingStreamDelivered | src/fpsc/producer_cosumer.rs:50-68 | a fair executor completes the transfer of such a stream: exactly its bytes are delivered and both sides return its length |
| Merkle.HashNeighbor | src/hash.rs:92-107 | the stepped loop builds the next level pair by pair, a lone last hash hashed alone |
| Merkle.HeightIsLogarithm | src/hash.rs:81-86 | the number of rounds is max(1, ceil(log2 n)) |
| Merkle.TreeDropsLevel | src/hash.rs:81-106 | one round of pairwise hashing takes one level off the top-down tree |
| Merkle.MerkleRoot | src/hash.rs:72-90 | the loop fails exactly on no leaves, and otherwise computes the root of the top-down tree in exactly that many rounds |
| Merkle.RootBinding | src/hash.rs:72-107 | equal roots of trees of the same height, so in particular over equally many leaves, force equal leaves, odd levels included, if the inputs hashed in the two trees do not collide |
| Merkle.RootsEqualIff | src/hash.rs:72-107 | without such collisions two lists of leaves have the same root if and only if the one with the lower tree is a level of the other's tree |
| Merkle.RootNeedsLength | src/block.rs:408-417 | without the length the root binds nothing: four leaves and the two nodes above them share it |
| Blocks.Seal | src/block.rs:198-221 | a created block carries the hash of its own other fields |
| Blocks.DataPreimageLayout | src/block.rs:268-278 | position and big-endian value of every field in what is hashed for a data block |
| Blocks.DigestPreimageLayout | src/block.rs:408-417 | the same for a digest block |
| Blocks.VotePreimageLayout | src/network/protocol.rs:375-389 | the same for a vote block |
| Blocks.VoteIsText | src/network/protocol.rs:382-382 | the vote is hashed as the letters of "true" or "false" |
| Blocks.Genesis | src/block.rs:257-266 | a genesis block of any kind carries the time it was made, follows nothing, has its own hash and the given digest id, and is empty otherwise |
| ByteStrings.MostSignificantFirst | src/block.rs:270-275 | integers are written most significant byte first |
| Blocks.DataPreimageInjective | src/block.rs:268-278 | data blocks hashed from the same bytes agree in every field but the hash |
| Blocks.DigestPreimageInjective | src/block.rs:408-417 | the same for digest blocks |
| Blocks.VotePreimageInjective | src/network/protocol.rs:375-389 | the same for vote blocks, although the vote is text of varying length in the middle |
| Blocks.PreimageInjective | src/block.rs:268-278 | no block of one kind is hashed from the bytes of a block of another kind |
| Blocks.VerifyBlock | src/block.rs:44-70 | accepts exactly a block with its own hash, inside the window, linked to the given hash; the first check that fails names the error |
| Blocks.InWindowMeaning | src/block.rs:58-70 | the wrapping window test accepts a time if and only if it lies in the window and the window ends before the clock overflows |
| Blocks.HashFixesBlock | src/block.rs:280-290 | two blocks that pass the hash check with the same hash are the same block |
| Chains.VerifyChain | src/chain.rs:68-91 | accepts exactly chains of two or more blocks linked from the second on; otherwise reports the first block that fails |
| Chains.BlockChain.constructor | src/chain.rs:292-301 | a new chain is the genesis block of its kind and digest id |
| Chains.BlockChain.Verify | src/chain.rs:68-91 | the same on the object |
| Chains.BlockChain.Add | src/chain.rs:326-351 | appends the block or, on any error, changes nothing |
| Chains.AddBlockOutcome | src/chain.rs:303-351 | what `add` answers for every chain, empty and full ones included, and every block |
| Chains.AddBlockKeepsWellGrown | src/chain.rs:303-351 | one successful `add` keeps the chain linked, rooted and within its limit |
| Chains.GrownChainsVerify | src/chain.rs:292-351 | every chain reached by any offers of blocks passes `verify` once it has two, keeps its length limit and all timestamps in its window |
| Chains.AddAllIffLinked | src/chain.rs:303-351 | checking block by block accepts a list of blocks if and only if checking it as a whole does and it is within the limit |
| Chains.LastHashFixesChain | src/chain.rs:68-91 | of two verified chains ending in the same hash the shorter is a suffix of the longer in every field, its first block only in the hash field |
| Chains.FirstBlockIsNotFixed | src/chain.rs:81-89 | a verified chain with its first block replaced still verifies if and only if the hash field is the same and all later timestamps lie in the new window |
| Chains.ContainIndex | src/chain.rs:606-619 | the search returns the first place with the index, and nothing exactly when there is none; by the blocks' own index fields where these count up |
| Chains.LookupByField | src/chain.rs:126-138 | where the index fields of data, digest or vote blocks count up, the lookup finds the block with the index and nothing outside |
| Chains.LookupOutcome | src/chain.rs:126-138 | in any chain, exactly when the lookup panics and when it finds nothing |
| Chains.LookupRightIffConsecutive | src/chain.rs:126-138 | indices are distinct and the lookup by offset agrees with a search for every index if and only if they are consecutive |
| Chains.VerifyIgnoresIndices | src/utils/utils.rs:54-65 | chains numbered the way the helper numbers them verify and answer a lookup with the wrong block |
| Chains.SelectByIndex | src/chain.rs:486-520 | refuses exactly unverified chains and reversed ranges; by the blocks' own index fields, which segment it spans |
| Chains.CutOutcome | src/chain.rs:502-519 | on any blocks, exactly when the length underflows and when the segment goes out of bounds |
| Chains.CutIsExact | src/chain.rs:502-519 | with consecutive indices a range yields a segment if and only if it overlaps, always in bounds, contiguous and holding exactly the blocks in the range |
| Ledgers.AddChainOutcome | src/executor.rs:119-160 | exactly when the main chain grows, by which block, exactly when the call succeeds, and exactly which error it gives otherwise |
| Ledgers.FirstCallOutcome | src/executor.rs:47-160 | the first call on a new ledger succeeds if and only if the limit allows a second main block, the clock is in the window opened at the start, and the chain verifies |
| Ledgers.AddChainKeepsLedgerOk | src/executor.rs:119-160 | every call keeps the ledger invariant; success adds one fresh key, failure leaves the sides alone, history only grows |
| Ledgers.RunKeepsLedgerOk | src/executor.rs:119-160 | over any run main block i has id i+1, main is linked and in its window, every side chain is verified and digested by the main block of its id |
| Ledgers.RunStaysCompleteIff | src/executor.rs:150-156 | every main block keeps a side chain if and only if no call of the run brought an unverifiable chain while main had room and time |
| Ledgers.NewLedgerOk | src/keeper.rs:85-92 | a new keeper satisfies the invariant |
| Ledgers.MainBinding | src/chain.rs:68-91 | main chains that end in the same hash are equally long and equal |
| Ledgers.SideBinding | src/block.rs:408-417 | side chains under the same digest block have the same hashes and the same blocks from the second on |
| Ledgers.LastHashFixesLedger | src/executor.rs:119-160 | two ledgers reached by any runs that end in the same main hash store the same main chain and, under every id in both, the same hashes and the same blocks from the second on |
| Executors.MainChain.constructor | src/chain.rs:676-681 | a main chain starts as its genesis block |
| Executors.MainChain.AddBlock | src/chain.rs:684-705 | extends the main chain, or changes nothing |
| Executors.Sides.constructor | src/chain.rs:762-766 | no side chains at first |
| Executors.Sides.AddChain | src/chain.rs:768-773 | stores exactly the chains that verify, and nothing else changes |
| Executors.ChainKeeper.constructor | src/keeper.rs:85-92 | a keeper starts as the new ledger |
| Executors.ChainKeeper.SideRef | src/keeper.rs:39-48 | the side chain of an id, and none exactly when there is none |
| Executors.ChainExecutor.constructor | src/executor.rs:47-66 | an executor starts on the new ledger, with the invariant, and with a chain buffer of one genesis data block |
| Executors.ChainExecutor.CreateDigest | src/executor.rs:137-148 | the digest block links to the last main block and holds root, length and the next id; there is none exactly for a chain without blocks |
| Executors.ChainExecutor.AddChain | src/executor.rs:119-160 | the in-place transaction over main and sides is the ledger transaction, keeps the invariant and leaves the chain buffer alone |
| Executors.ChainExecutor.AddChains | src/executor.rs:119-160 | any number of calls is a run of the ledger |
| Framing.DecodeFromSliceWithHeader | src/serializer.rs:186-227 | the loop parses as the recursive definition does, errors and panics included |
| Framing.FrameLayout | src/serializer.rs:99-102 | four bytes of size, most significant first, then the payload |
| Framing.ParseFrames | src/serializer.rs:186-227 | framed encodings parse back to their values |
| Framing.ParsedIsFrames | src/serializer.rs:186-227 | and only they: whatever parses is the concatenation of frames whose payloads decode to the result |
| Framing.ParseAppend | src/serializer.rs:186-227 | parsing a concatenation is parsing the parts, failures of the second part included |
| Framing.FramesInjective | src/serializer.rs:144-183 | a buffer is the framing of at most one list of payloads |
| Framing.CutOffRecord | src/serializer.rs:287-303 | a buffer that ends inside a record: an error inside the size bytes, a panic behind them, whatever came before |
| Serializers.Serializer.constructor | src/serializer.rs:335-340 | a serializer starts with 128 KB of zeros and the given value |
| Serializers.Serializer.TakeData | src/serializer.rs:372-374 | moves the value out |
| Serializers.Serializer.SetData | src/serializer.rs:379-381 | stores a value |
| Serializers.Serializer.EncodeIntoVecWithHeader | src/serializer.rs:51-123 | succeeds if and only if some number of doublings within the cap makes room, then makes the fewest; the result parses to the stored value, which is kept exactly on success; which error otherwise |
| Serializers.Serializer.SaveIntoAsyncWrite | src/serializer.rs:230-283 | appends exactly one frame, or nothing, exactly according to whether the value fits; keeps the value exactly on success; which error otherwise |
| Serializers.Serializer.EncodeVecInto | src/serializer.rs:144-183 | on success the buffer starts with the frames of all values in order, which parse back to them; otherwise the first failing element says how |
| Serializers.Serializer.PackOne | src/serializer.rs:152-180 | one element: appended behind what is there, with at most one useful resize |
| Serializers.SaveSizeHeader | src/serializer.rs:451-458 | reading the four bytes back gives the size, and every byte before and behind them is unchanged |
| Serializers.PackSucceedsIff | src/serializer.rs:144-183 | packing succeeds if and only if the total fits the fixed size or the buffer at hand and no record starts without room for its header |
| Serializers.PackFailsIff | src/serializer.rs:152-180 | packing fails with an outcome if and only if some element, the ones before it being packed, is retried forever, cannot be encoded, or has no place for its header |
| Serializers.PackFits | src/serializer.rs:144-183 | any list whose framed size fits the buffer is packed |
| Serializers.RetriesForeverIff | src/serializer.rs:153-180 | the retry loop goes on for any number of attempts if and only if the value can be encoded, its header fits before and after the resize and the value at neither length; otherwise it ends within two attempts |
| Serializers.PlaceRead | src/serializer.rs:424-444 | where the bytes of one read end up, and when taking them panics |
| Serializers.ReadAllFromStream | src/serializer.rs:409-449 | the loop does this for every read until the stream ends |
| Serializers.ShortReadsArePlaced | src/serializer.rs:409-449 | if every read is shorter than the starting length, the buffer holds the stream at its front and has grown by its length |
| Serializers.PanicsIffReadTooLong | src/serializer.rs:430-444 | the loop panics if and only if some read is longer than the starting length |
| Serializers.ReadBackIsStreamIff | src/serializer.rs:409-449 | for any reads in any order, the loop returns the stream if and only if no read is longer than the starting length and each that is as long repeats the bytes already in its place |
| Serializers.FullFirstReadIsLost | src/serializer.rs:424-444 | a file of records that fills a new buffer at the first read is not read back, unless its first record is empty |
| Serializers.Serializer.DecodeFromAsyncRead | src/serializer.rs:306-315 | decoding parses what the reading loop returns, which is the stream if and only if every read survives the loop |
| Bundles.UpdateIsTight | src/db.rs:414-424 | one update counts the chain and moves each end of the interval no further than needed |
| Bundles.UpdateIsTightIff | src/db.rs:414-424 | with windows that overflow the clock as well, exactly when an update is right |
| Bundles.DescriptionIsTightest | src/db.rs:403-430 | after any updates the counter is the number of chains and the interval the tightest that covers all windows |
| Bundles.DescriptionIgnoresOrder | src/db.rs:403-430 | whatever their order |
| Bundles.EmptyChainIsNotDescribed | src/db.rs:408-426 | a chain without blocks leaves the summary alone, wherever it comes |
| Bundles.IntervalContainsTimestamps | src/db.rs:403-430 | and it contains every timestamp of every verified chain |
| Bundles.Bundle.constructor | src/db.rs:391-399 | a bundle starts with an empty summary |
| Bundles.Bundle.UpdateDescriptionWithChain | src/db.rs:403-430 | the in-place update is that of the summary results |
| Bundles.Bundle.SaveToFile | src/db.rs:437-466 | appends one frame, updates the summary and hands the chain back, or changes nothing and gives the serializer's error; the serializer is empty afterwards |
| Bundles.SavedChainsParse | src/db.rs:437-466 | after any saves, failing ones included, the file parses to what was in it and then the stored chains in order |
| Bundles.SavedChainsDescribed | src/db.rs:452-459 | and the summary is that of exactly these chains |
| Bundles.SavedChainsLoad | src/db.rs:437-548 | the bytes of a saved bundle arrive through the serializer's buffer if and only if every read survives the loop, and then the stored chains come out in order |
| Bundles.LongerNeverParsesTheSame | src/serializer.rs:186-227 | bytes behind a list of records change what it parses to, whatever they are |
| Bundles.Bundle.SaveChains | src/db.rs:469-496 | overwrites the start of the file by the frames of all chains; the file then parses to them if and only if it was not longer; a failure leaves the file alone and is that of the first failing chain |
| Bundles.Bundle.LoadChains | src/db.rs:540-548 | loading parses what the reading loop returns, which is the file if and only if every read survives the loop |
| MetaLogs.LastWithMeaning | src/db.rs:329-332 | what "the last record with a uuid" is |
| MetaLogs.IndexHoldsLast | src/db.rs:329-332 | the index built by insertion answers with the last record of every uuid, or none |
| MetaLogs.ScanOfWellFramed | src/db.rs:325-340 | on a well-framed log the scan sees every record |
| MetaLogs.ScanStopsAtFirstError | src/db.rs:325-340 | behind a torn or undecodable record nothing counts any more, and everything before it does |
| MetaLogs.MetaDataIterator.constructor | src/db.rs:172-186 | an iterator starts at the first record |
| MetaLogs.MetaDataIterator.ReadExact | src/db.rs:117-121 | an exact read returns the next bytes and moves past them, or fails when there are too few |
| MetaLogs.MetaDataIterator.Next | src/db.rs:198-216 | the next record, the counted position being the bytes consumed; the end exactly at the end; which error, and that it resets the counted position |
| MetaLogs.Gather | src/db.rs:318-341 | the scanning loop returns the last record with the uuid and the index of all records before an error |
| MetaLogs.FileDataBase.constructor | src/db.rs:234-251 | a database starts without an index |
| MetaLogs.FileDataBase.SaveMeta | src/db.rs:91-107 | appends one frame if the record fits 256 bytes with its size, and otherwise changes nothing |
| MetaLogs.FileDataBase.FindMeta | src/db.rs:294-343 | searches the index if there is one, and otherwise scans the log and keeps the index |
| MetaLogs.EverySearchIsRight | src/db.rs:294-343 | with no save in between the first search and every later one return the last record with the uuid, or none |
| MetaLogs.SavesAreOnFile | src/db.rs:91-126 | after any saves the log holds what it held and then the saved records |
| MetaLogs.SearchAfterSavesIsRightIff | src/db.rs:258-343 | a search after a search and some saves is right if and only if the saves left the last record of the uuid as it was, or nothing was on file at first |
| Messages.HeaderLayout | src/network/protocol.rs:66-79 | length at 0 to 4, signature at 4 to 68, key at 68 to 100 |
| Messages.HeaderRoundTrip | src/network/protocol.rs:50-109 | a header decodes to itself whatever follows it |
| Messages.HeaderBytesRoundTrip | src/network/protocol.rs:87-109 | any 100 bytes are the encoding of the header they decode to |
| Messages.WriteAt | src/network/protocol.rs:66-79 | writes its bytes at the place and nothing else |
| Messages.Encode | src/network/protocol.rs:564-599 | exactly when it succeeds, and then length, signature of the message bytes, key and message stand at their places; which error otherwise, the header's place being untouched |
| Messages.MessageRoundTrip | src/network/protocol.rs:458-599 | an encoded message, with anything behind it, decodes to the original if and only if its sender is the signing key and its receiver this node |
| Messages.DecodeOutcome | src/network/protocol.rs:458-520 | every answer of decoding, by the bytes at their places: which slices are accepted, and which error the others give |
| Messages.AcceptedIsAuthentic | src/network/protocol.rs:458-520 | every accepted slice is an envelope whose signature verifies on exactly the message bytes under the message's own sender, addressed to this node |
| Messages.TruncatedIsRefused | src/network/protocol.rs:496-511 | a message cut off anywhere is refused |

## Left out

- Completion.TransferCompletes: assumes that a stream never fills more than the space offered, as the stream interface requires, and that the closure accepts every slice; `RejectedSliceStrandsWriter` is about a closure that does not.
- Completion.FairRunSettles: fairness is stated by rounds in which every party gets its turn, in any order and with anything in between.
- Transfer.EveryRunIsSafe: a poll is one atomic step, as under `tokio::join!`; data races on the raw pointer and the reference count in `Drop` are not modelled.
- RingBuffer.Ringbuf.ConsumerPoll: a consumer without a closure is modelled as a poll but takes no part in the runs, since it delivers nothing.
- RingBuffer.Ringbuf.ReadPoll: the capacity of the destination is its free room, as it is for the buffers tokio's `read` passes in.
- The single-shot `produce` and `consume`, whose comments warn of deadlock, are not runs of their own; they are one poll each.
- Ledgers.LastHashFixesLedger: assumes a main chain limit and side chain lengths below 2^32, because ids and lengths are stored in 32 bits.
- Ledgers.RunKeepsLedgerOk: assumes a main chain limit below 2^32.
- Executors.ChainExecutor.AddChain: a chain is moved into the keeper, so side chains are held as values; the lock around the keeper is not modelled.
- Blocks.VerifyBlock: 64-bit sums wrap around as in a release build; a debug build panics there.
- Bundles.DescriptionIsTightest: assumes windows that end before the 64-bit clock overflows and fewer than 2^32 chains; `UpdateIsTightIff` is about one update without these assumptions.
- Bundles.SavedChainsParse: assumes a serializer buffer of at most 2^32 bytes.
- Chains.SelectByIndex: the raw pointer is modelled by the segment it spans; a difference below zero and a segment past the last block are outcomes.
- Serializers.EncodeIntoSlice: what a failed encoding leaves in its part of the buffer is arbitrary.
- Serializers.Serializer.SaveIntoAsyncWrite: the write to the stream does not fail.
- Serializers.ReadAllFromStream: a read error ends the sequence of reads just as the end of the stream does, which is what the loop makes of it.
- Framing.ParseFrames: a decoded value is that of the whole payload; that the library would ignore trailing bytes inside a payload is part of the parameter `dec`.
- MetaLogs.FileDataBase.SaveMeta: copying the file itself and failures of the file system are not modelled.
- Bundles.Bundle.SaveChains: a write shorter than requested, and failures of the file system, are not modelled.
- Messages.Encode: the in-process variant `encode_into_slice` differs only in its return value and in panicking when signing fails.
- Sockets, ports, timeouts and address checks (`network/udp.rs`, `tcp.rs`, `network.rs`, `signal.rs`): input and output.
- The node pipeline, handler registration, worker channels and the signing task (`nodes`, `identity.rs`): thin layers over channels.
- `network/handlers.rs`, the node builders and the test helpers of `utils.rs`: unfinished code, except the one helper cited above.
- SHA-256, Ed25519, bincode, UUIDs and the clock: libraries, taken as parameters.
- The executor's `add_block`, which builds a block on its chain buffer and does not store it.
- `contain_hash`, `contain_uuid`, `contain_data_hash` and `from_chain`: the same loop or slice as the operations modelled.
- Chain information builders, getters, error texts and logging: they would only add easy members.
