# Verified core of a UTXO node

A Dafny model of the parts of the node whose code is far from its simple specification:
the layered coins cache with the blocks connected to it and taken back, the address manager,
the parallel check queue, the difficulty path from block index to 256-bit limb arithmetic,
the block index, three probabilistic set structures, and the two text codecs. Code that updates objects or buffers in place is
modelled by classes and methods with loops; code that only computes is modelled by
functions; what the code promises is stated in contracts and lemmas over all inputs, all
states or all sequences of operations.

Modules, by component:

| component | modules |
|---|---|
| coins views, transactions and blocks | `Coins`, `CoinsCache`, `CoinsTx`, `CoinsBlock` |
| address manager | `AddrTables`, `AddrManager`, `AddrRuns` |
| check queue | `CheckQueue` |
| 256-bit arithmetic, compact encoding, ASERT, difficulty | `Limbs`, `Uint256`, `Compact`, `Asert`, `Difficulty` |
| block index, active chain, median time past | `Blocks`, `Skips`, `ActiveChain`, `MedianTime` |
| invertible Bloom lookup table | `Iblt` |
| shared lemmas | `Finite`, `Powers`, `Bits` |
| cuckoo cache | `Cuckoo` |
| rolling Bloom filter | `RollingBloom` |
| Base58 | `Radix`, `Base58` |
| CashAddr | `Words`, `CashAddr`, `CashAddrText` |

Hash functions are arbitrary functions, randomness is a parameter or a nondeterministic
choice, and clocks are parameters. Integer widths are explicit wherever they matter: limbs
are numbers below 2^32 and arithmetic on them is proved modulo 2^256, every step of the
ASERT schedule is proved to fit 64 bits for 32-bit headers and its shift count is taken
modulo 2^32, the epoch size of the cuckoo cache wraps at 32 bits, the IBLT sums are numbers
proved to fit their widths, and the filter words, the flag bytes and the checksum states
are bit vectors.

## Where code and expectation part

- Multiplying a 256-bit number by itself in place gives zero, because the operand is
  cleared first; that is the right product if and only if the number is a multiple of
  2^128 (`Uint256.BaseUint.MulAssign`, `Uint256.SquareVanishes`).
- Dividing by zero throws after the dividend has been set to zero
  (`Uint256.BaseUint.DivAssign`).
- The assertion that guards the ASERT fixed-point product uses the height difference
  without the one that the product adds, so it admits inputs whose product leaves 64 bits;
  the exact bound is an if-and-only-if (`Asert.LatenessFits`,
  `Asert.AssertionMissesOneSpacing`). The product of spacing and height is not guarded at
  all and can leave 64 bits even where the lateness is small
  (`Asert.ScheduleProductEscapes`); with 32-bit headers it cannot
  (`Difficulty.LatenessBounded`).
- The ASERT shift count is handed over as a 32-bit number. The target is that of the
  formula at every admitted lateness if and only if the half life exceeds 2^15 seconds;
  for any smaller one there is a lateness at which the count wraps to sixteen
  (`Asert.HalfLifeBound`, `Asert.CountWraps`).
- The comment on the ASERT anchor speaks of an activation in November 2020; the code walks
  to the genesis block of the branch (`Blocks.AnchorCache.GetASERTAnchorBlock`).
- Adding a coin without permission to overwrite marks an uncached entry as absent from the
  base even if the base holds it; the cache stays coherent if and only if overwriting was
  allowed, the entry was cached, or the base has no such coin (`Coins.AddCoinCoherence`).
- When adding a coin throws, the memory counter has already been reduced
  (`CoinsCache.Cache.AddCoin`).
- The value of inputs counts an input that is not there as minus one
  (`CoinsTx.GetValueIn`).
- A coin created at height zero is recorded in undo data as if its height were missing, so
  a block that spends one cannot be taken back: disconnecting fails if and only if a spent
  coin has no height (`CoinsTx.ConnectAndDisconnect`, `CoinsBlock.ConnectAndDisconnectBlock`).
- A success reported at time zero promotes an address whose entry the self check then
  refuses; the check passes if and only if no time is negative and no tried address has a
  success time of zero (`AddrRuns.GoodAtZero`, `AddrRuns.ValidPasses`).
- Adding an address reports success even if its bucket has no room and the entry is dropped
  in the same call (`AddrManager.AddrMan.Add`).
- Decoding a CashAddr text that is not accepted yields the empty pair; a text with fewer
  than eight values whose checksum holds makes the source step before the start of the
  values, which the model reports as its own outcome: it is reached, by "c:qvdy2z3" for
  one, and never with eight or more values (`CashAddrText.UnderrunReached`,
  `CashAddrText.UnderrunExactly`).
- A CashAddr prefix in upper case with a payload of digits only is accepted and comes back
  in lower case, "DYT:24904024" for one (`CashAddrText.UpperCaseAccepted`), so the round
  trip holds if and only if the prefix is a nonempty run of lower-case letters (`CashAddrText.DecodeEncode`, `CashAddrText.RoundTrip`).

## Model

| member | source | states |
|---|---|---|
| Coins.AddCoinCoherence | src/coins.cpp:126-154 | the entry an addition writes keeps "FRESH means the base has no unspent coin here" if and only if overwriting is allowed, the entry was cached, or the base has no such coin |
| Coins.MergeWrites | src/coins.cpp:257-330 | merging a child's entry into a coherent cache never meets a FRESH entry over an unspent coin, keeps the cache coherent and changes the visible coins exactly as the entry says |
| Coins.FlushedBase | src/coins.cpp:332-337 | writing only the dirty entries to the base yields exactly what cache and base showed together |
| Coins.FetchNeutral | src/coins.cpp:76-112 | caching what the base has, or a spent FRESH marker for what it lacks, changes no visible coin |
| Coins.UncacheNeutral | src/coins.cpp:369-380 | dropping an entry with no flags changes no visible coin |
| Coins.SpendRemoves | src/coins.cpp:156-176 | spending erases a FRESH entry or leaves a spent dirty one, and either way exactly that coin disappears from the view |
| Coins.UsageShape | src/memusage.h:52-71 | the memory of a coin is none for scripts up to 28 bytes, otherwise the multiple of sixteen that is 16 to 31 above the length of the script |
| CoinsCache.CoinsDB.BatchWrite | src/txdb.cpp:181-255 | the database becomes what the written entries and its old content showed together, and the memory left with the caller counts exactly the entries kept |
| CoinsCache.Cache.FetchCoin | src/coins.cpp:76-112 | no view of any layer changes, every visible coin is cached afterwards, and what was cached before stays as it was |
| CoinsCache.Cache.GetCoin | src/coins.cpp:114-124 | returns the coin of the flat map, or nothing |
| CoinsCache.Cache.HaveCoin | src/coins.cpp:194-199 | true exactly for coins of the flat map |
| CoinsCache.Cache.AddCoin | src/coins.cpp:126-154 | adds exactly that coin to the view unless its script starts with 0x6a or is longer than 10000 bytes; the entry written is dirty, and FRESH exactly if the old one was or if overwriting is ruled out and the old one is not dirty; throws exactly when an unspent cached coin would be overwritten without leave, and then leaves the memory counter reduced |
| CoinsCache.Cache.SpendCoin | src/coins.cpp:156-176 | removes exactly that coin from the view, hands it out, and touches no lower layer; a cached FRESH entry leaves no trace, any other cached one a spent dirty marker |
| CoinsCache.Cache.Uncache | src/coins.cpp:369-380 | removes the entry exactly if it has no flags and takes exactly its coin off the memory counter; no view changes |
| CoinsCache.Cache.Trim | src/coins.cpp:339-367 | removes only entries without flags, none if the size fits at first, stops once it fits (with the last entry removed still there it did not) or none is left to remove; no view changes |
| CoinsCache.Cache.MergeEntry | src/coins.cpp:257-330 | one entry is merged and the memory counter moves by exactly the change of the entries |
| CoinsCache.Cache.AbsorbEntries | src/coins.cpp:257-330 | after the whole batch the view is the child's view, the cache is coherent and the counter is the exact sum over entries |
| CoinsCache.Cache.BatchWrite | src/coins.cpp:257-330 | the receiving layer shows the child's view and lower layers do not change |
| CoinsCache.Cache.Flush | src/coins.cpp:332-337 | the base shows what the cache showed before, and the cache still does |
| CoinsCache.PerformOnTop | src/coins.cpp:76-380 | each operation on the top cache has exactly its effect on one flat map, touches no lower level and keeps every level valid, counters included |
| CoinsCache.Perform | src/coins.cpp:76-380 | each operation, opening and dropping a cache included, has exactly its effect on the flat maps of all levels and keeps every level valid, counters included |
| CoinsCache.Replay | src/coins.cpp:76-380 | every sequence of operations on any stack, with caches opened, flushed and dropped on the way, shows at every level what the same sequence does to a list of flat maps |
| CoinsCache.ReplayFrom | src/coins.cpp:47-380 | so does every sequence from a cache newly opened over a database of unspent coins |
| CoinsCache.OneLevel | src/coins.cpp:76-380 | operations on the top cache act on the first flat map alone, as on a single map |
| CoinsCache.LayerCommits | src/coins.cpp:332-337 | work in a cache of its own that is flushed and dropped is the same as work done directly |
| CoinsCache.LayerVanishes | src/coins.cpp:332-337 | work in a cache that is dropped without a flush never happened |
| CoinsTx.AddCoins | src/coins.cpp:510-520 | exactly the spendable outputs appear in the view, each with its own value and script, the given height, and the coinbase mark exactly if the transaction has no inputs |
| CoinsTx.SpendCoins | src/coins.cpp:522-534 | exactly the inputs disappear and the undo list records, in order, what each of them was |
| CoinsTx.UpdateCoins | src/coins.cpp:536-542 | for any inputs, repeated and missing ones included: the view is the connected one, every spendable output is on it with its value, script, height and coinbase mark, and the undo list records, in order, what each input was when it was spent |
| CoinsTx.RecordsSpent | src/coins.cpp:522-542 | for distinct available inputs the undo list is exactly the spent coins in order |
| CoinsTx.ApplyTxInUndo | src/validation/validation.cpp:2030-2061 | result and view in every case: unclean exactly if a coin was there, failed exactly if the height is missing and there is none to borrow it from, otherwise the coin is back, with a borrowed height if its own is missing |
| CoinsTx.RestoreInputs | src/validation/validation.cpp:2093-2115 | for any undo data: the records are put back from the last input to the first up to the first failure; data of another length fails and changes nothing; for distinct inputs, coins still there included, it fails exactly if a record lacks its height and no coin is there to lend one, is unclean exactly if some coin was still there, and otherwise every coin is back and nothing else has changed |
| CoinsTx.PutBackGone | src/validation/validation.cpp:2030-2061 | putting back any coins that are gone succeeds, cleanly, if and only if every record has a height, and then brings back every spendable one |
| CoinsTx.PutBackDistinct | src/validation/validation.cpp:2030-2061 | putting coins back at distinct places of any map fails if and only if a height is missing with none to borrow, is unclean if and only if one of them was still there, and otherwise puts back exactly those coins |
| CoinsTx.DistinctBack | src/validation/validation.cpp:2093-2115 | the same for the inputs of a transaction, taken from the last to the first |
| CoinsTx.InputsRestored | src/validation/validation.cpp:2093-2115 | restoring the spent coins of a transaction brings all spendable ones back, or fails exactly if one has no height |
| CoinsTx.RemoveOutputs | src/validation/validation.cpp:2117-2138 | removes exactly the spendable outputs, and is clean exactly if each of them was on the view once and as the transaction says |
| CoinsTx.DisconnectRestores | src/validation/validation.cpp:2065-2144 | adding the spent coins back and removing the outputs undoes a connected transaction, and every output is found unchanged |
| CoinsTx.ConnectAndDisconnect | src/validation/validation.cpp:2065-2144 | connecting and disconnecting a transaction through the cache leaves every level as it was, but for unspendable inputs, or fails exactly if a spent coin has no height |
| CoinsBlock.AddOutputs | src/validation/validation.cpp:2294-2302 | the outputs of all transactions are on the view, each with its value, script, height and coinbase mark, and nothing else has changed |
| CoinsBlock.ConnectBlock | src/validation/validation.cpp:2294-2430 | a block is refused exactly if an input is missing or spent twice; else the view gains every spendable output with its value, script, height and coinbase mark, loses every input, and the undo data records the spent coins, those of the block itself included |
| CoinsBlock.BlockStored | src/coins.cpp:510-520 | every spendable output of a block that it does not spend itself is stored with its value, script, height and coinbase mark |
| CoinsBlock.RestoreAllInputs | src/validation/validation.cpp:2093-2115 | all inputs but the coinbase's are restored in order, up to the first failure |
| CoinsBlock.RemoveAllOutputs | src/validation/validation.cpp:2117-2138 | all spendable outputs are removed, cleanly exactly if each was found as the block says |
| CoinsBlock.DisconnectBlock | src/validation/validation.cpp:2065-2144 | result and view for any block and any undo data, inconsistent sizes and failures included |
| CoinsBlock.RestoredAll | src/validation/validation.cpp:2093-2115 | every spendable coin a block spent comes back, or restoring fails exactly if one of them has no height |
| CoinsBlock.BlockRestores | src/validation/validation.cpp:2065-2144 | with the inputs back, every output is found as it was added, and removing them all leaves the map before the block |
| CoinsBlock.ConnectAndDisconnectBlock | src/validation/validation.cpp:2065-2430 | connecting any accepted block, one that spends its own outputs included, and disconnecting it is clean and leaves every level as it was, but for unspendable inputs, or fails exactly if a spent coin has no height |
| CoinsTx.GetValueIn | src/coins.cpp:394-405 | the sum over the inputs in the flat map, zero for a coinbase, minus one for a missing input |
| CoinsTx.ValueConserved | src/coins.cpp:510-542 | the total value changes by the spendable outputs minus the inputs |
| AddrTables.ClearSlotKeeps | src/addrman.cpp:144-161 | emptying a slot with one reference of its entry keeps all reference counts equal to the slots held |
| AddrTables.FillSlotKeeps | src/addrman.cpp:340-357 | filling an empty slot with one more reference keeps all reference counts equal to the slots held |
| AddrTables.EnterTried | src/addrman.cpp:209-213 | an entry in neither table enters its empty slot of the tried table and the whole book stays sound |
| AddrTables.LeaveTried | src/addrman.cpp:186-196 | an entry leaves its slot of the tried table and the whole book stays sound but for that entry |
| AddrTables.PromotedKeeps | src/addrman.cpp:163-214 | a promotion deletes entries at most, changes no address and empties no occupied slot of the tried table |
| AddrTables.CollisionsKept | src/addrman.cpp:672-701 | waiting addresses keep waiting for occupied slots as long as slots stay occupied and ids are not reused |
| AddrTables.TerribleExactly | src/addrman.cpp:39-59 | exactly which addresses are terrible, in seconds: none tried in the last minute; otherwise those more than ten minutes in the future, without a time, not seen for thirty days, with three attempts and no success ever, or with ten attempts and none for a week |
| AddrTables.GroupsAreConfined | src/addrman.cpp:12-31 | whatever the hashes are, the addresses of one group reach at most 8 of the 256 tried buckets, and those learnt from one source group at most 64 of the 1024 new buckets |
| AddrManager.AddrMan.Find | src/addrman.cpp:77-90 | finds the one entry of an address exactly if there is one |
| AddrManager.AddrMan.Create | src/addrman.cpp:92-104 | a fresh id, last in the random order, in neither table, everything else unchanged |
| AddrManager.AddrMan.SwapRandom | src/addrman.cpp:106-126 | two places are swapped and every entry still knows its place |
| AddrManager.AddrMan.Delete | src/addrman.cpp:128-142 | exactly that entry is gone from map, address map and random order; the counter follows |
| AddrManager.AddrMan.ClearNew | src/addrman.cpp:144-161 | the slot is empty, its entry has one reference less and is deleted exactly if that was the last |
| AddrManager.AddrMan.RemoveFromNew | src/addrman.cpp:167-180 | the entry is gone from every bucket and its count has reached zero |
| AddrManager.AddrMan.LeaveSlot | src/addrman.cpp:186-196 | the occupant of a tried slot is taken out of the tried table |
| AddrManager.AddrMan.ReenterNew | src/addrman.cpp:198-208 | the evicted entry is in the new bucket of its source with one reference, which the entry in that slot has lost |
| AddrManager.AddrMan.MakeTried | src/addrman.cpp:163-214 | the entry is in its tried slot and in no new bucket, an occupant is back in the new table, and nothing else has changed |
| AddrManager.AddrMan.FindBucket | src/addrman.cpp:249-266 | scanning from a random start always finds a bucket that holds the entry |
| AddrManager.AddrMan.Advance | src/addrman.cpp:249-286 | an address not tried yet is promoted, or set aside while its slot is taken and is to be tested |
| AddrManager.AddrMan.Good | src/addrman.cpp:216-287 | at any time: an unknown address or another port changes nothing; a known one has that time as its last try and success and no attempts left, and is promoted, or set aside while its tried slot is taken, is to be tested and fewer than ten wait; occupied tried slots stay occupied |
| AddrManager.AddrMan.Place | src/addrman.cpp:338-366 | an entry takes an empty slot, a terrible occupant's or, if in no bucket, that of an occupant with other references; otherwise an entry in no bucket is dropped |
| AddrManager.AddrMan.Refresh | src/addrman.cpp:299-330 | the entry afterwards differs from the one before only in time and services: the time never falls and moves to the reported one less the penalty, but not below zero, exactly if that is ahead by more than a day, or by more than an hour if it was reported within the last day; the new services join the old ones; the entry goes on exactly if there is news, it is not tried, it has fewer than eight references and the random number hits a share of two to the power of its references |
| AddrManager.AddrMan.UpdateSeen | src/addrman.cpp:303-313 | what a second sighting leaves of an entry, field by field |
| AddrManager.AddrMan.AddNew | src/addrman.cpp:331-367 | a first sighting gets the next id, its penalised time, and is placed |
| AddrManager.AddrMan.Add | src/addrman.cpp:289-367 | true exactly for a routable address not known before; a new one has its penalised time, services and source, and is in the table if its slot is open; a known one is updated as a second sighting and takes one more slot exactly if it may spread and that slot is open to it |
| AddrManager.AddrMan.Attempt | src/addrman.cpp:369-392 | at any time: only the entry of exactly that service is changed; a failure counts once since the last success |
| AddrManager.AddrMan.Connected | src/addrman.cpp:580-600 | only the entry of exactly that service is changed, and only after twenty minutes |
| AddrManager.AddrMan.GetAddr | src/addrman.cpp:556-578 | at most 23 percent and 2500 addresses, none terrible, none twice, and all that are not terrible if there are fewer |
| AddrManager.AddrMan.ResolveOne | src/addrman.cpp:606-668 | the competitor keeps its slot if it worked in the last four hours, loses it if tried and failed, and otherwise the address goes on waiting |
| AddrManager.AddrMan.ResolveCollisions | src/addrman.cpp:602-670 | every waiting address is looked at once, and each is forgotten, promoted or left waiting as the book left by the ones before it decides; every condition of the book is kept |
| AddrManager.AddrMan.SelectTriedCollision | src/addrman.cpp:672-701 | the competitor returned is always a tried entry: the slot of a waiting address is never empty |
| AddrRuns.Perform | src/addrman.cpp:216-701 | every operation, at any time, keeps the book valid, empties no occupied tried slot and never reuses an id; proper times keep the times in order |
| AddrRuns.RunFrom | src/addrman.cpp:216-701 | so does every sequence of operations |
| AddrRuns.ValidPasses | src/addrman.cpp:467-553 | a valid book satisfies every condition of the self check, slots counted over the whole tables of 1024 and 256 buckets of 64, if and only if no time is negative and no tried entry has a success time of zero |
| AddrRuns.TriedOfGroup | src/addrman.cpp:12-20 | in every valid book at most 512 tried addresses are of one group |
| AddrRuns.Replay | src/addrman.cpp:467-553 | from a fresh manager every sequence of operations ends in a valid book, which passes the self check if all times were proper |
| AddrRuns.GoodAtZero | src/addrman.cpp:216-287 | a success reported at time zero for an address not tried yet always leaves a book the self check refuses |
| CheckQueue.StepKeeps | src/checkqueue.h:72-151 | every step of every thread, every addition and every quit request keeps the counters exact and every check accounted for |
| CheckQueue.EveryRunKeeps | src/checkqueue.h:72-151 | so does every schedule from a fresh queue with any number of workers |
| CheckQueue.NoUnderflow | src/checkqueue.h:84-105 | the unsigned counters never go below zero, total minus idle is the number of running batches, and a finished batch never exceeds the work left |
| CheckQueue.TakesItsShare | src/checkqueue.h:128-141 | the batch is the tail of the queue, reversed, and its size is exactly the smaller of the limit and the queue divided by the number of threads inside plus the idle ones plus one, but at least one |
| CheckQueue.WaitIsSound | src/checkqueue.h:108-122 | waiting returns only when nothing is queued or running and the queue is idle again; false means some added check fails; without a quit request true means all were run once and passed |
| CheckQueue.IdleBetweenRounds | src/checkqueue.h:210-230 | after a wait has returned the queue is idle and empty in every state of every schedule until work is added or the master enters again |
| CheckQueue.IdleBeforeFirstRound | src/checkqueue.h:210-230 | so it is in every schedule of a fresh queue until then |
| CheckQueue.QuitEmpties | src/checkqueue.h:95-100 | a worker that ends its batch after a quit request empties the queue and waits, and the work left is what the other threads hold |
| CheckQueue.QuitEndsRound | src/checkqueue.h:72-151 | in every schedule, from then on until work is added no thread takes another batch |
| CheckQueue.FailureStops | src/checkqueue.h:141-149 | once the queue and every batch in hand know of a failure, no schedule runs another check before waiting returns |
| CheckQueue.LastComesFirst | src/checkqueue.h:133-141 | of the checks just added the last one leads the next batch |
| CheckQueue.TakeBatch | src/checkqueue.h:133-141 | taking checks from the back one at a time yields the tail of the queue reversed |
| CheckQueue.ExecuteBatch | src/checkqueue.h:143-149 | a batch is run up to its first failure and not at all once a failure is known |
| Uint256.BaseUint.AddAssign | src/arith_uint256.h:141-151 | addition modulo 2^256, also of a number to itself |
| Uint256.BaseUint.Increment | src/arith_uint256.h:179-187 | addition of one modulo 2^256 |
| Uint256.BaseUint.Negated | src/arith_uint256.h:82-89 | the additive inverse modulo 2^256 |
| Uint256.BaseUint.SubAssign | src/arith_uint256.h:153-157 | subtraction modulo 2^256, also of a number from itself |
| Uint256.BaseUint.MulAssign32 | src/arith_uint256.cpp:59-69 | multiplication by a 32-bit number modulo 2^256 |
| Uint256.BaseUint.MulAssign | src/arith_uint256.cpp:72-87 | the product modulo 2^256 if the operands are different objects, zero if they are the same; the result is the product if and only if the objects differ or the number is a multiple of 2^128 |
| Uint256.SquareVanishes | src/arith_uint256.cpp:72-88 | a square is a multiple of 2^2n if and only if its root is one of 2^n |
| Uint256.BaseUint.DivAssign | src/arith_uint256.cpp:90-115 | the floor quotient; throws exactly for a zero divisor, after clearing the dividend |
| Uint256.BaseUint.CompareTo | src/arith_uint256.cpp:118-128 | the numeric order |
| Uint256.BaseUint.EqualTo | src/arith_uint256.cpp:131-143 | numeric equality with a 64-bit number |
| Uint256.BaseUint.ShiftLeft | src/arith_uint256.cpp:23-38 | multiplication by a power of two modulo 2^256, for every shift |
| Uint256.BaseUint.ShiftRight | src/arith_uint256.cpp:41-56 | division by a power of two, for every shift |
| Uint256.BaseUint.Bits | src/arith_uint256.cpp:195-210 | the number of significant bits |
| Uint256.BaseUint.GetLow64 | src/arith_uint256.h:252-256 | the remainder modulo 2^64 |
| Compact.SetCompact | src/arith_uint256.cpp:231-250 | the decoded number, with exact sign and overflow flags |
| Compact.OverflowExact | src/arith_uint256.cpp:245-248 | the overflow test holds exactly if mantissa times 256^(size-3) reaches 2^256 |
| Compact.GetCompact | src/arith_uint256.cpp:252-277 | the encoded word of the number |
| Compact.DecodeEncoded | src/arith_uint256.cpp:231-277 | decoding an encoded number gives the number with its trailing bytes cut off |
| Compact.CompactRoundTrip | src/arith_uint256.cpp:231-277 | decoding an encoding never exceeds the number, loses less than its 2^15th part, is nonzero for nonzero numbers, and encodes to the same word |
| Compact.CompactMonotone | src/arith_uint256.cpp:231-277 | decoding an encoding is monotone |
| Asert.LatenessFits | src/daa.cpp:165-167 | the fixed-point product fits 64 bits if and only if the lateness lies in [-2^47, 2^47) |
| Asert.AssertionMissesOneSpacing | src/daa.cpp:166-167 | an input that passes the source's assertion and leaves 64 bits |
| Asert.ScheduleProductEscapes | src/daa.cpp:166-167 | 64-bit arguments with a small lateness whose product of spacing and height leaves 64 bits |
| Asert.FactorRange | src/daa.cpp:183-191 | the cubic stays below 2^64 and the factor lies between 65536 and 131071 |
| Asert.FactorNear | src/daa.cpp:183-191 | at every eighth of a half life the eighth power of the cubic factor is within 0.013 percent of the power of two it stands for |
| Asert.ExponentRounds | src/daa.cpp:167-168 | the exponent is the lateness in 65536ths of a half life, rounded toward zero |
| Asert.FixedPoint | src/daa.cpp:165-196 | for every positive half life, factor and shift count are those of the exact exponent rounded toward zero, and everything fits 64 bits |
| Asert.ShiftTarget | src/daa.cpp:196-216 | the target is scaled exactly by the shift count modulo 2^32, or overflow is noticed and the limit taken |
| Asert.OverflowDetected | src/daa.cpp:204-215 | shifting left and back restores a number if and only if nothing was lost |
| Asert.ClampTarget | src/daa.cpp:218-228 | the result lies between one and the limit and is the given number if that does |
| Asert.CalculateASERT | src/daa.cpp:140-229 | for every positive half life the limb computation equals the formula with the wrapped shift count, and above 2^15 seconds the unbounded-integer formula, clamped |
| Asert.HalfLifeBound | src/daa.cpp:167-216 | the computation equals the unbounded formula at every admitted lateness if and only if the half life exceeds 2^15 seconds |
| Asert.CountWraps | src/daa.cpp:195-201 | for every smaller half life, a lateness at which the reference target comes out instead of one |
| Asert.TargetMonotone | src/daa.cpp:140-229 | the later the block, the larger the target |
| Asert.ScheduleMonotone | src/daa.cpp:140-229 | the target grows with the time difference and shrinks with the height difference |
| Asert.OnSchedule | src/daa.cpp:140-229 | exactly on schedule the target is the reference target |
| Asert.HalfLives | src/daa.cpp:140-229 | every half life behind schedule doubles the target and every one ahead of it halves it, clamped |
| Asert.TargetInRange | src/daa.cpp:140-229 | the target is never zero and never above the limit |
| Difficulty.LatenessBounded | src/daa.cpp:120-131 | with 32-bit times and heights every step of the schedule fits 64 bits, and the lateness stays in the range where the computation is exact |
| Difficulty.ScheduledBits | src/daa.cpp:116-135 | the word of the scheduled target, for any anchor not above the block; what that schedule is, OnScheduleFrom says |
| Difficulty.OnScheduleFrom | src/daa.cpp:116-135 | from any anchor, a block exactly one spacing per block, and one more, after the anchor's parent, or after the anchor if it has none, leaves the anchor's target |
| Difficulty.OnScheduleBits | src/daa.cpp:88-136 | a chain exactly on schedule since its genesis asks for the genesis target |
| Difficulty.LaterIsEasier | src/daa.cpp:88-136 | over the same genesis time and target, a later block at the same or a lower height never asks for a harder target |
| Difficulty.HalfLivesBits | src/daa.cpp:88-136 | every half life a chain is behind the schedule of its genesis doubles its target, and every one ahead halves it, clamped |
| Difficulty.GetNextASERTWorkRequired | src/daa.cpp:88-136 | the required bits for any such anchor in every case: minimum difficulty, second block, scheduled |
| Difficulty.GetNextWorkRequired | src/daa.cpp:231-247 | the required bits for every block of a grown chain, always in range, and those of the genesis target for a chain exactly on schedule since its genesis |
| Difficulty.NextBitsInRange | src/daa.cpp:88-136 | required bits on top of bits in range are in range |
| Difficulty.GrownInRange | src/daa.cpp:231-247 | on every chain grown by the rules from a genesis in range, every block's bits pass the range test |
| Difficulty.CheckPow | src/chainparams.cpp:162-172 | accepts exactly hashes at or below a target that is non-negative, nonzero, not overflowing and within the limit |
| Blocks.GetSkipHeight | src/chain.cpp:118-127 | the skip height is below the height |
| Blocks.SkipIs | src/chain.cpp:115-127 | from an even height the lowest power of two in it is taken off; from an odd one the lowest two in what is below it |
| Skips.SkipsAreFew | src/chain.cpp:118-192 | from a height below 2^L to any other the walk takes at most (L^2 + 17 L + 16) / 4 steps |
| Blocks.BlockIndex.BuildSkip | src/chain.cpp:199-203 | the skip pointer is the parent walk's ancestor at the skip height; if all blocks below have theirs, the whole branch has |
| Blocks.BlockIndex.GetAncestor | src/chain.cpp:165-192 | walking skip pointers reaches the same block as walking parents, for every height; with all pointers built, in exactly the steps that SkipsAreFew bounds |
| Blocks.AncestorOfAncestor | src/chain.cpp:165-192 | ancestors compose |
| Blocks.LineageIsAncestors | src/chain.cpp:165-192 | a block lies on a branch exactly if it is the branch's ancestor at its height |
| Blocks.AnchorCache.GetASERTAnchorBlock | src/daa.cpp:37-76 | the anchor is the genesis of the given block's own branch after any history of calls, cached or not |
| ActiveChain.Chain.SetTip | src/chain.cpp:49-65 | entry h of the chain is the tip's ancestor at height h, although the loop stops early |
| ActiveChain.Chain.ContainsIsLineage | src/chain.h:519-524 | the chain contains exactly the ancestors of its tip |
| ActiveChain.Chain.NextIsChild | src/chain.h:536-542 | the next block is the child on the chain, and exists exactly below the tip |
| ActiveChain.Chain.FindFork | src/chain.cpp:101-113 | the highest ancestor of a block that is on the chain |
| ActiveChain.LastCommonAncestor | src/chain.cpp:278-298 | the highest block both descend from; none exactly if their genesis blocks differ |
| ActiveChain.AreOnTheSameFork | src/chain.cpp:300-306 | true exactly if one block is an ancestor of the other |
| MedianTime.GetMedianTimePast | src/chain.h:309-326 | of the block and its ten ancestors, or fewer near the genesis, at least half, rounded up, have at least that time and fewer have more |
| MedianTime.MedianOfBlocks | src/chain.h:309-326 | the same, counted over the heights of the ancestors |
| MedianTime.MedianCounts | src/chain.h:309-326 | a median counted: half of the numbers, rounded up, are at least it and fewer are above it |
| MedianTime.SlidingMedian | src/chain.h:309-326 | sliding the window by a time at or above its median does not lower the median |
| MedianTime.MedianMonotone | src/chain.h:309-326 | if every block time is at least its parent's median, the median never decreases along a branch |
| MedianTime.ActivationStays | src/chain.cpp:224-234 | once activated on a branch, a fork stays activated |
| MedianTime.NextBlockAgrees | src/chain.cpp:248-258 | activation asked of the parent agrees with activation of every child |
| MedianTime.ForkBlockUnique | src/chain.cpp:238-270 | at most one block of a branch is the fork block, and at most one precedes it |
| MedianTime.ForkBlockExists | src/chain.cpp:238-243 | a branch has a fork block if and only if it is activated and its genesis median lies before the fork time |
| MedianTime.FirstActivated | src/chain.cpp:224-243 | an activated branch has a first activated height above the genesis, exactly the blocks from it on are activated, and it is the fork block if and only if the genesis median lies before the fork time |
| MedianTime.NoForkBlock | src/chain.cpp:238-270 | if the genesis median has already reached the fork time, no block of the branch is the fork block or precedes it |
| Iblt.Table.Update | src/iblt.cpp:170-201 | in every cell the key hashes to, one for each hash function in its own stretch of the table, the count moves by one and key, masked check and value are mixed in; no other cell changes |
| Iblt.TouchesHashed | src/iblt.cpp:170-189 | the cells of a key are those its hashes select, each modulo the size of its stretch |
| Iblt.CellOf | src/iblt.cpp:182-186 | the cell one hash function selects |
| Iblt.ValueTwice | src/iblt.cpp:64-78 | a value added to nothing is the value, and adding it twice takes it away but for zeros at the end |
| Iblt.Table.Build | src/iblt.cpp:170-204 | every cell is the total over all insertions and erasures; a table of insertions also adds up the values |
| Iblt.SumsFit | src/iblt.cpp:170-201 | the sums of 64-bit keys and of 32-bit checks fit 64 and 32 bits |
| Iblt.OrderDoesNotMatter | src/iblt.cpp:170-201 | cells depend only on the multiset of insertions and erasures |
| Iblt.EraseUndoes | src/iblt.cpp:203-204 | erasing a key undoes its insertion, whatever happened in between |
| Iblt.Table.Subtract | src/iblt.cpp:324-349 | refused exactly for unequal sizes; otherwise every cell is the difference of the cells, values included |
| Iblt.DifferenceTotal | src/iblt.cpp:324-349 | the difference of two tables is the table of the difference of their key sets |
| Iblt.ExactBothWays | src/iblt.cpp:51-61 | where the tests do not err on anything peeling can leave, a cell is pure exactly if it holds one key and empty exactly if it holds none |
| Iblt.Table.Peel | src/iblt.cpp:285-304 | a pass lists and removes only keys that are there, on the right side and with their values, counts them, and takes out none only if no key is left alone in a cell |
| Iblt.StuckSurvives | src/iblt.cpp:285-304 | a set of keys none of which is alone in a cell survives every peeling of a larger set |
| Iblt.PeelableFits | src/iblt.cpp:285-304 | keys that can all be peeled are no more than the cells they touch |
| Iblt.SpreadPeels | src/iblt.cpp:276-304 | keys that one hash function tells apart can be peeled |
| Iblt.ValueShown | src/iblt.cpp:285-304 | a cell that one key is alone in shows the value of that key |
| Iblt.ValueTakenOut | src/iblt.cpp:170-201 | taking a listed key out takes its value out of every cell; a cell that is cleared has no value to lose |
| Iblt.ValueInserted | src/iblt.cpp:170-201 | insertions clear no cell, and each adds its value |
| Iblt.ValuesParted | src/iblt.cpp:324-349 | subtraction leaves the values of the differing keys if common keys carry common values |
| Iblt.Table.ListEntries | src/iblt.cpp:276-322 | always terminates; on a table where the tests do not err it succeeds if and only if every hash has cells and no nonempty subset of the keys leaves every cell without a key or with several, and then lists exactly the inserted and exactly the erased keys; every key it lists, on success or not, comes with its own value but for zeros at the end, and exactly if values have one length |
| Iblt.Reconcile | src/iblt.cpp:276-349 | from the tables of two sets, success yields exactly the keys of either that the other lacks; it succeeds if and only if the difference can be peeled; listed values are right if common keys carry common values |
| Iblt.InsertionsHold | src/iblt.cpp:170-201 | inserting distinct keys builds the table of their set |
| Iblt.ReconcileKeys | src/iblt.cpp:170-349 | two sequences of distinct keys with their values, inserted, subtracted and listed, yield exactly the keys of either that the other lacks, if and only if the difference can be peeled, and always if one hash function tells the differing keys apart; listed values are those inserted, but for zeros at the end if values differ in length |
| Cuckoo.ByteWritten | src/cuckoocache.h:93-106 | writing one bit of a byte changes that bit only |
| Cuckoo.BitFlags.constructor | src/cuckoocache.h:62-69 | all flags are set |
| Cuckoo.BitFlags.BitSet | src/cuckoocache.h:93-93 | exactly that flag is set |
| Cuckoo.BitFlags.BitUnset | src/cuckoocache.h:100-100 | exactly that flag is cleared |
| Cuckoo.BitFlags.BitIsSet | src/cuckoocache.h:106-106 | the flag's value |
| Cuckoo.LocsInRange | src/cuckoocache.h:208-218 | the eight places of an element lie in the table |
| Cuckoo.LocIsTopBits | src/cuckoocache.h:208-218 | in a table of 2^d slots a place is the top d bits of a 32-bit hash |
| Cuckoo.EverySlotReached | src/cuckoocache.h:208-218 | for every slot there is a hash that selects it |
| Cuckoo.Cache.constructor | src/cuckoocache.h:301-317 | every slot is free; the size is the largest power of two up to the request, at least two, and the depth its exponent; the epoch size is 45 percent in 32-bit arithmetic, at least one |
| Cuckoo.Cache.EpochCheck | src/cuckoocache.h:242-281 | ages the epochs exactly when the counter has run out and the current epoch is full, and frees no slot otherwise; the counter goes down by one, or starts again at the epoch size, or at the largest of one, a sixteenth of it and what is missing from it |
| Cuckoo.Cache.Search | src/cuckoocache.h:357-368 | finds an element in one of its places exactly if one holds it |
| Cuckoo.Cache.Settle | src/cuckoocache.h:370-406 | exactly which slots an element that is not there displaces: the first free place in its turn takes it, and only where all eight are taken does the next one move on, up to the depth limit |
| Cuckoo.Cache.FindFree | src/cuckoocache.h:372-383 | the first free place of an element, none exactly if all eight are taken |
| Cuckoo.StoredDirectly | src/cuckoocache.h:372-383 | an element with a free place is stored in the first of them and nothing is displaced |
| Cuckoo.InsertConserves | src/cuckoocache.h:352-407 | every chain of displacements conserves the entries but for one at most, keeps every entry in one of its places and adds at most one live entry |
| Cuckoo.Cache.Insert | src/cuckoocache.h:352-407 | the slots freed beforehand are exactly those of the old epoch, and only if the epoch was due and full; the element is found, or stored along the chain of displacements, or, after exactly as many displacements as the depth limit, the last one displaced is dropped; old entries plus the element are the new entries plus at most one dropped; live entries stay within the epoch size plus its sixteenth, at least one; the counter moves as the epoch check says |
| Cuckoo.Cache.Contains | src/cuckoocache.h:434-447 | true exactly if one of the places holds the element; every entry that must be kept is found; erasing frees that slot only |
| RollingBloom.WipeBits | src/bloom.cpp:332-341 | the word-wide mask clears exactly the positions of one generation |
| RollingBloom.WriteBit | src/bloom.cpp:345-353 | writing a position changes that bit only |
| RollingBloom.WipeRemembers | src/bloom.cpp:324-342 | starting a generation forgets no key of the last two |
| RollingBloom.MarkRemembers | src/bloom.cpp:345-353 | relabelling shared positions forgets no key of the last three generations |
| RollingBloom.TracedWipe | src/bloom.cpp:324-342 | starting a generation leaves no label that a key of the last three did not put there |
| RollingBloom.TracedExtend | src/bloom.cpp:345-353 | inserting a key labels no position that is not its own |
| RollingBloom.TraceShared | src/bloom.cpp:345-353 | a labelled position is selected by the low six bits of the hash and the rest modulo the size, as for the key that put the label there |
| RollingBloom.Filter.constructor | src/bloom.cpp:287-312 | an empty filter with two words for every 64 positions and half the elements per generation |
| RollingBloom.Filter.Reset | src/bloom.cpp:386-397 | all positions are empty |
| RollingBloom.Filter.Wipe | src/bloom.cpp:332-341 | clears exactly the positions of the given generation |
| RollingBloom.Filter.Insert | src/bloom.cpp:322-354 | exactly the key's positions are labelled, after the wipe if a generation was started; every key of the current and the two preceding generations is remembered |
| RollingBloom.Filter.Contains | src/bloom.cpp:363-377 | true exactly if all positions are labelled, hence for every key of the last three generations; and only if each position, given by the hash bits that select it, is also one of some key of the last three generations |
| RollingBloom.LastElements | src/bloom.cpp:294-296 | the last nElements keys are in the last three generations |
| RollingBloom.LastKeysContained | src/bloom.cpp:287-377 | after any insertions every one of the last nElements keys is reported as contained |
| Radix.MulAdd | src/base58.cpp:48-55 | multiplying and adding in place is exact, with what does not fit carried out |
| Radix.CanonicalDigits | src/base58.cpp:62-69 | digits without leading zeros are the digits of their number |
| Base58.EncodeFits | src/base58.cpp:82-95 | a buffer of 138 percent plus one holds every number of n bytes in base 58 |
| Base58.DecodeFits | src/base58.cpp:36-53 | a buffer of 73.3 percent plus one holds every number of n base 58 digits in base 256 |
| Base58.ToBase58 | src/base58.cpp:82-97 | the digits denote the same number, and the carry is zero for every length |
| Base58.ToBase256 | src/base58.cpp:37-57 | the bytes denote the same number, and the carry is zero for every length |
| Base58.Encode | src/base58.cpp:73-109 | a 1 for every leading zero byte, then the digits of the number |
| Base58.Decode | src/base58.cpp:24-71 | rejects exactly other characters inside or text after the token; otherwise zero bytes for leading 1s, then the bytes of the number |
| Base58.AlphabetExactly | src/base58.cpp:21-22 | the letters are the digits without 0, the capitals without I and O, and the small letters without l |
| Base58.PaddingIgnored | src/base58.cpp:26-71 | blanks, tabs and line ends around a text of letters do not matter |
| Base58.OthersRejected | src/base58.cpp:38-65 | any other character makes a text bad |
| Base58.NulEnds | src/base58.cpp:24-71 | what follows the first NUL is not part of the text |
| Base58.DecodeEncode | src/base58.cpp:24-109 | every byte sequence survives, leading zeros included |
| Base58.EncodeDecode | src/base58.cpp:24-109 | text that decodes encodes back to itself without the white space around it |
| CashAddr.PolyMod | src/cashaddr.cpp:42-147 | the loop computes the state reached from one |
| CashAddr.ExpandedIs | src/cashaddr.cpp:164-173 | of every prefix character the low five bits count, and a zero ends the prefix |
| CashAddr.StepLinear | src/cashaddr.cpp:101-143 | a step is linear over exclusive or |
| CashAddr.StepKernel | src/cashaddr.cpp:101-143 | only the zero state steps to zero, so a step is injective on the 40-bit state |
| CashAddr.FoldFew | src/cashaddr.cpp:101-143 | at most eight values are packed without loss |
| CashAddr.CreateChecksum | src/cashaddr.cpp:194-209 | the eight groups of five bits of the remainder |
| CashAddr.ChecksumVerifies | src/cashaddr.cpp:179-209 | appending the created checksum verifies, for every prefix and every values |
| CashAddr.BurstDetected | src/cashaddr.cpp:42-147 | any change confined to eight consecutive values of a valid word makes it invalid |
| CashAddr.BurstRejected | src/cashaddr.cpp:179-189 | no burst of up to eight wrong values verifies |
| CashAddrText.RevOfLetter | src/cashaddr.cpp:17-26 | the two character tables are inverse |
| CashAddrText.Encode | src/cashaddr.cpp:218-232 | prefix, colon and the characters of values and checksum |
| CashAddrText.Scan | src/cashaddr.cpp:240-281 | accepts exactly letters and digits with at most one colon after letters only, in one case, and finds the colon |
| CashAddrText.DecodeBody | src/cashaddr.cpp:302-326 | rejects invalid characters and checksums, otherwise returns all but the last eight values |
| CashAddrText.Decode | src/cashaddr.cpp:237-327 | the outcome for every text and default prefix |
| CashAddrText.UnderrunExactly | src/cashaddr.cpp:302-326 | decoding steps before the start of the values if and only if the text is well formed, its characters are valid, there are fewer than eight and the checksum holds; never with eight or more |
| CashAddrText.UnderrunReached | src/cashaddr.cpp:326-326 | a text that does so |
| CashAddrText.UpperCaseAccepted | src/cashaddr.cpp:240-300 | a text with an upper-case prefix and digits only that is accepted in lower case |
| CashAddrText.CapitalsDecode | src/cashaddr.cpp:240-327 | a text without capitals decodes to the same when written in capitals |
| CashAddrText.DecodeEncode | src/cashaddr.cpp:218-327 | for every prefix and values: what decoding an encoded address gives |
| CashAddrText.RoundTrip | src/cashaddr.cpp:218-327 | prefix and values survive if and only if the prefix is a nonempty run of lower-case letters |

## Left out

- Locks, lock ordering and atomics' memory ordering: only the check queue is modelled concurrently, one critical section at a time.
- Shutdown of the check queue: the exit flag is not part of the states.
- CheckQueue.WaitIsSound: once a quit request has been made a true result says nothing about queued checks, because the source discards them then, as `CheckQueue.QuitEmpties` says.
- Coins cache: lookup that bypasses the cache (GetCoinFromDB), cursors, priorities and the access guards; they add easy members.
- CoinsCache.Cache.Trim: the memory a container itself takes is an arbitrary function of its size, because the allocator's accounting is not part of this model.
- CoinsTx.UpdateCoins: the outputs of a transaction that is not a coinbase are required to be new; where one is not, adding it throws or leaves the cache incoherent, as `Coins.AddCoinCoherence` says.
- CoinsBlock.ConnectBlock: outputs are required to be new, for the same reason; the order of transactions, amounts, lock times, scripts and signature limits of a block are not modelled, nor is a parallel validation that is called off.
- CoinsBlock.DisconnectBlock: reading undo data from disk and moving the best block are not modelled; recorded coins are required to be unspent, as the source asserts.
- Address manager: choosing an address to connect to (Select_), which weighs addresses in floating point, serialization, and clearing a used manager.
- AddrManager.AddrMan.ResolveCollisions: waiting addresses are taken in any order; the source takes them by ascending id, which is one of these orders.
- Address groups and keys: the group of an address and the hashes are arbitrary functions; how they are combined into buckets and positions is modelled.
- Uint256: decrement, bitwise operators on two numbers, hexadecimal and floating-point conversion.
- Blocks.GetSkipHeight: heights are unbounded naturals; the narrowing of 64-bit heights to int is not modelled.
- Difficulty.CheckPow: the signature that replaces the hash under the second algorithm is outside the model; the comparison and the range test are in it.
- GetLocator and the consensus ancestor helpers of the block index: easy members.
- Iblt.Table.Build: values are followed through insertions only; an erasure with another value than the inserted one leaves what the source leaves, which is not specified.
- Iblt.Table.Update: the count of a cell is unbounded; the source's 32-bit counter overflows only beyond 2^31 entries.
- IBLT lookup by key (get): it peels as listing does, but by a recursion without listing's bound on erased keys, so it is sure to end only on tables with exact cell tests.
- The sizing of IBLT tables by tabulated overhead, which is floating point, and serialization. The bound on erased keys is taken over the reals.
- Cuckoo.Cache.constructor: the logarithm is exact; the rounding of the source's floating-point one is not modelled.
- RollingBloom.Filter.constructor: takes the number of hash functions and of filter bits as parameters; the source derives them by logarithms. At least one element and one bit are required.
- False-positive rates and hash quality of the three set structures.
- Base58Check and address objects: a hash and thin wrappers around the two conversions.
- Base58.Decode: characters are compared as such; the source's use of isspace on negative characters is undefined.
- CashAddr.PolyMod: the guarantees about up to six scattered errors are properties of the code's generator and are not proved; bursts of up to eight are.
- CashAddr destinations: the packing of hashes into 5-bit values is not part of this model.
