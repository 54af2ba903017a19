# Verified models of a Nexa full node

This project models the parts of the Nexa node where a small slip would be hard to see, and proves what they promise.
The statements are for all inputs, all runs or all reachable states; concrete values stand only where they show that a
property fails, or that the prefixes of the networks are safe.

* **Coins** (`Coins.dfy`, `CoinsTx.dfy`): the stack of coin caches with its DIRTY and FRESH flags refines plain maps, at
  any depth and over any sequence of operations; applying a transaction or a block and undoing it.
* **Script-check queue** (`CheckQueue.dfy`): a transition system over the locked sections of `CCheckQueue`; safety over
  every run and progress.
* **Cuckoo cache** (`Cuckoo.dfy`): the signature cache with packed flags, epochs and eviction chains.
* **Block index** (`BlockChain.dfy`): skip list, active chain, fork point, locator, cached ASERT anchor.
* **Difficulty** (`Arith.dfy`, `Limbs.dfy`, `LimbShifts.dfy`, `Compact.dfy`, `Asert.dfy`, `Work.dfy`, `Tailstorm.dfy`):
  in-place limb arithmetic against the integers, the compact format as an ordered floating-point format, ASERT, and the
  work a Tailstorm summary block has to show.
* **Address manager** (`AddrTables.dfy`, `AddressManager.dfy`, `AddrCheck.dfy`, `AddrStore.dfy`): the invariant of
  `Check_` is kept by every operation in any order, and by writing the tables out and reading them back; what `Check_`
  itself establishes.
* **Address texts** (`CashAddr.dfy`, `CashAddrField.dfy`, `CashAddrText.dfy`, `CashAddrShort.dfy`, `Base58.dfy`,
  `Base58Text.dfy`): both round trips, what the cashaddr checksum is over the field of 32 elements, and what it detects.
* **Filters and sketches** (`RollingBloom.dfy`, `FastFilter.dfy`, `PackedBits.dfy`, `Iblt.dfy`): no false negatives
  within the promised window; exact listing of a set difference.

State that the source updates in place is a class or an array here, with methods specified by functions of the old
state. The caches and the chain carry the abstract state (views, path) as ghost fields that `Valid()` ties to the real
ones. Hash functions are uninterpreted parameters; clocks and random draws are parameters of the call.

`Basics.dfy` holds a few shared definitions. `dafny verify dfyconfig.toml` checks the whole project.

## Findings

Where the code does not do what its comments or callers expect, the model follows the code and states the exact condition.

* `src/cuckoocache.h:383-399` says that the eviction chain starts at the first location and never moves the element just
  put in; it starts at the second one (`Cuckoo.FirstVictim`), and repeated locations undo the other (`Cuckoo.NextVictim`).
* `src/cuckoocache.h:301-317` computes 45 percent in 32 bits, which is exact only while 45 times the size fits
  (`Cuckoo.EpochSizeIsAsDocumented`).
* `src/addrman.h:520-546` clears the tables and not the set of waiting numbers (`AddressManager.AddrMan.Clear`); a later
  draw can then read an empty slot (`AddressManager.StaleNumber`, condition in `AddressManager.AddrMan.SelectTriedCollision`).
* `src/addrman.cpp:510` looks an address up in a way that makes a missing one lead to number 0 (`AddrCheck.ConsistentIs`).
* `src/addrman.cpp:716-724` resets the last success, which the self-check demands of tried entries
  (`AddressManager.AddrMan.ResetCounters`).
* `src/addrman.cpp:296-374` reports a new address also when it finds no slot and is forgotten at once
  (`AddressManager.AddrMan.Add`).
* `src/daa.cpp:404-425` hands a 64-bit shift count to an operator that takes 32 bits (`Asert.CountExact`).
* `src/daa.cpp:72-78` ends for work up to 2^255, not for every work (`Work.GetCompactBitsForRequiredWork`).
* `src/arith_uint256.cpp:73-89` clears the target before it reads the operand, so squaring in place gives 0
  (`Limbs.MulAssign`).
* `src/cashaddr.cpp:326` cuts eight values off the end without a check that there are eight; which prefixes this can
  happen under is `CashAddrShort.DecodeIsDefined`, and no network has one (`CashAddrShort.NetworkPrefixesAreSafe`).

## Model

| member | source | states |
|---|---|---|
| `Coins.CleanEntriesAreInvisible` | src/coins.cpp:347-352 | after a write-back leaves no DIRTY entry, the view of a cache is exactly the view below it |
| `Coins.FetchStep` | src/coins.cpp:76-112 | caching what lies below changes neither the flag invariant nor the view |
| `Coins.WriteStep` | src/coins.cpp:138-191 | a DIRTY write gives the written view, and the FRESH flag may be set exactly if nothing lies below |
| `Coins.DropFreshStep` | src/coins.cpp:168-191 | a FRESH entry may be erased when spent: the view loses exactly that coin |
| `Coins.DropCleanStep` | src/coins.cpp:354-395 | dropping entries that are neither DIRTY nor FRESH leaves the view as it was |
| `Coins.MergeStep` | src/coins.cpp:272-345 | entries of a child can be merged one by one: each gives the overlaid view restricted to what is merged so far |
| `Coins.MergeChild` | src/coins.cpp:272-345 | merging a child whose flags are sound keeps the flags sound, gives the view of the child on top of this one, and never reaches the logic_error of the FRESH clash |
| `Coins.CleanEntriesSurviveWriteBack` | src/coins.cpp:272-345 | the entries a child keeps after a write-back are sound over the new view below |
| `Coins.CoinsViewCache.constructor` | src/coins.cpp:47-49 | a new cache shows the view and the best block of its base |
| `Coins.CoinsViewCache.FetchCoin` | src/coins.cpp:76-112 | no layer's view changes; an entry is found exactly if it is cached afterwards, and it agrees with the view |
| `Coins.CoinsViewCache.GetCoin` | src/coins.cpp:114-124 | returns the coin of the view; on a miss the outpoint is not in the view; no layer changes what it shows |
| `Coins.CoinsViewCache.HaveCoin` | src/coins.cpp:209-214 | true exactly if the outpoint is in the view |
| `Coins.CoinsViewCache.AddCoin` | src/coins.cpp:138-166 | throws exactly if an unspent cached coin would be overwritten without leave; the flags stay sound if and only if it threw, the output is unspendable, overwriting is allowed, or the view has no such coin; new view exact |
| `Coins.CoinsViewCache.SpendCoin` | src/coins.cpp:168-191 | removes exactly this outpoint from the view, at any depth of the stack; succeeds if and only if it was there, and moves out the coin that was there |
| `Coins.CoinsViewCache.BatchWrite` | src/coins.cpp:272-345 | writes a child in: the view becomes the child's view, nothing below changes, the exception is unreachable |
| `Coins.CoinsViewCache.Flush` | src/coins.cpp:347-352 | the view stays, the layer below takes it over, nothing stays DIRTY; the best block survives if and only if the cache has one of its own, or the base is the database, or the base shows the block under it |
| `Coins.CoinsViewCache.Uncache` | src/coins.cpp:384-395 | view and layers unchanged; only an entry that is neither DIRTY nor FRESH goes |
| `Coins.CoinsViewCache.Trim` | src/coins.cpp:354-382 | view and layers unchanged, and no DIRTY or FRESH entry goes |
| `Coins.CoinsViewCache.GetBestBlock` | src/coins.cpp:251-257 | answers the best block of the view, looked up through any number of layers that have none |
| `Coins.CoinsViewCache.SetBestBlock` | src/coins.cpp:266-270 | sets the best block; a null hash makes the one below show through |
| `Coins.CoinsViewCache.Apply` | src/coins.cpp:76-395 | one operation at any layer of the stack keeps every layer valid and gives the views that the plain-map semantics gives |
| `Coins.CoinsViewCache.Run` | src/coins.cpp:76-395 | any sequence of operations on a stack of caches of any depth refines plain maps, layer by layer, and never throws |
| `Coins.LowerOpsKeepTheTop` | src/coins.cpp:347-395 | fetching, flushing, uncaching and trimming, on any layer, never change the top view |
| `CoinsTx.NewCoinsSound` | src/coins.cpp:571-582 | the coins a transaction creates are its spendable outputs, with their index, coinbase mark and height |
| `CoinsTx.NewCoinsComplete` | src/coins.cpp:571-582 | every spendable output becomes a coin |
| `CoinsTx.AddCoins` | src/coins.cpp:571-582 | adds exactly the created coins; never throws, and only a coinbase may overwrite |
| `CoinsTx.SpendCoins` | src/coins.cpp:584-608 | succeeds if and only if every input that is not read-only is in the view and none is spent twice; then the undo data is the spent coins in order; on failure the view has lost exactly the inputs before the bad one |
| `CoinsTx.UpdateCoins` | src/coins.cpp:610-616 | spend then add: exact new view and undo data, in the failing case too |
| `CoinsTx.UpdateThenUndo` | src/coins.cpp:584-616 | removing the created coins and putting the undo coins back gives the view before the transaction |
| `Coins.Database.constructor` | src/txdb.cpp:101-110 | an empty database has no coins and no best block |
| `Coins.Database.BatchWrite` | src/txdb.cpp:124-198 | the stored coins become the overlaid view, and the entries left in the cache are clean and sound over it |
| `CoinsTx.AddAllCoins` | src/validation/validation.cpp:3222-3243 | the outputs of all transactions of the block are in the view before any input is spent |
| `CoinsTx.SpendAllCoins` | src/validation/validation.cpp:3402-3428 | succeeds if and only if all inputs of all transactions are there and distinct; the undo data covers every transaction but the coinbase |
| `CoinsTx.ConnectCoins` | src/validation/validation.cpp:3222-3428 | a block connects if and only if its inputs are in the old view or created by the block, whatever the order of its transactions; exact new view and undo data |
| `CoinsTx.ApplyTxInUndo` | src/validation/validation.cpp:2676-2707 | fails exactly if the undo coin has height 0 and no coin stands there to take it from, unclean exactly if a coin is overwritten; exact new view |
| `CoinsTx.RestoreInputs` | src/validation/validation.cpp:2739-2764 | puts back exactly the spent coins of one transaction, walking backwards; fails if and only if one has height 0 |
| `CoinsTx.RestoreAllInputs` | src/validation/validation.cpp:2738-2764 | after all inputs are put back the view is the one with all outputs added and nothing spent |
| `CoinsTx.RemoveOutputs` | src/validation/validation.cpp:2785-2801 | removes exactly the created coins, and says whether all of them were there unchanged |
| `CoinsTx.RemoveAllOutputs` | src/validation/validation.cpp:2781-2802 | on a connected block the outputs always match, and all created coins go |
| `CoinsTx.DisconnectBlock` | src/validation/validation.cpp:2711-2808 | on a connected block the answer is ok or failed, never unclean, and ok if and only if no spent coin has height 0; the view is then the old one less what the block created, with the previous best block |
| `CoinsTx.BlockRoundTrip` | src/validation/validation.cpp:2711-3428 | connect then disconnect: gives the old view back if and only if the coinbase overwrote no coin |
| `CoinsTx.RestoredExactly` | src/validation/validation.cpp:2711-2808 | disconnecting loses a coin exactly if the coinbase overwrote one |
| `CoinsTx.OnlyTheCoinbaseOverwrites` | src/validation/validation.cpp:3222-3240 | of the coins a block creates only those of the coinbase can stand on older ones |
| `CoinsTx.CreatedCoinsStay` | src/validation/validation.cpp:3222-3240 | no later transaction of the block replaces a coin created by an earlier one |
| `CheckQueue.Start` | src/checkqueue.h:154-158 | the queue starts in a state of the invariant |
| `CheckQueue.BatchFits` | src/checkqueue.h:128-134 | the batch taken has at least one check and at most all of the queue, for any counts of idle and busy threads |
| `CheckQueue.Popped` | src/checkqueue.h:134-141 | checks are handed over, none lost and none doubled |
| `CheckQueue.StepKeeps` | src/checkqueue.h:72-187 | every atomic step of every thread keeps the invariant: counters equal what the threads hold, checks are conserved, the flag never says yes after a failure |
| `CheckQueue.CleanUpKeeps` | src/checkqueue.h:82-106 | handing in a finished batch keeps the counts exact |
| `CheckQueue.SettleKeeps` | src/checkqueue.h:107-144 | the wait-or-take part of the loop keeps the invariant, and a returning master reports the conjunction |
| `CheckQueue.ReturnReports` | src/checkqueue.h:72-151 | only the master returns, and with the result of its round |
| `CheckQueue.WaitIsExact` | src/checkqueue.h:72-187 | on every run with any number of workers and any interleaving: the number of outstanding checks is exact, no check is lost or doubled, and Wait returns true if and only if every check of the round passes, even though workers skip checks after a failure |
| `CheckQueue.NeverStuck` | src/checkqueue.h:72-151 | as long as the master waits some thread can take a step that brings the round closer to its end |
| `CheckQueue.SettleProgress` | src/checkqueue.h:107-144 | a thread that holds the lock with something to do reduces the work left or returns |
| `CheckQueue.WorkProgress` | src/checkqueue.h:145-150 | a working thread always has a step that reduces the work left |
| `PackedBits.FlagWrites` | src/cuckoocache.h:43-107 | setting or clearing one packed bit changes that bit and no other |
| `Cuckoo.AllCollected` | src/cuckoocache.h:57-86 | after set-up every slot is collectable |
| `Cuckoo.Locs` | src/cuckoocache.h:208-218 | all eight locations lie inside the table |
| `Cuckoo.ScaledBound` | src/cuckoocache.h:208-218 | scaling a 32-bit hash by multiply and shift stays below the table size |
| `Cuckoo.PutStep` | src/cuckoocache.h:352-390 | putting an element that is nowhere in the table into one of its own slots keeps every element findable and unique |
| `Cuckoo.FoundIffStored` | src/cuckoocache.h:434-447 | looking at the eight locations finds an element exactly if it is stored at all |
| `Cuckoo.Cache.constructor` | src/cuckoocache.h:301-317 | a new cache is valid and stores nothing; the size is two to the power of the depth limit |
| `Cuckoo.Cache.Contains` | src/cuckoocache.h:434-447 | found if and only if stored; with erase, the slot of the element and no other becomes collectable; nothing else changes |
| `Cuckoo.Cache.CountYoung` | src/cuckoocache.h:242-281 | the scan counts the live entries of the current epoch exactly |
| `Cuckoo.Cache.EpochCheck` | src/cuckoocache.h:242-281 | the cheap counter never lets the live entries of the current epoch reach the bound; a new epoch starts exactly when the counter is 0 and the epoch is full |
| `Cuckoo.Cache.Age` | src/cuckoocache.h:260-275 | old entries become collectable, current ones old, none is lost from the table |
| `Cuckoo.Cache.KeepIfPresent` | src/cuckoocache.h:359-368 | an element already stored is made live and young, and its copies stay one |
| `Cuckoo.Cache.PlaceIfFree` | src/cuckoocache.h:370-382 | succeeds if and only if one of the locations is collectable, and then loses no live element |
| `Cuckoo.Cache.Evict` | src/cuckoocache.h:399-405 | a swap keeps table and hand together the same, epochs included |
| `Cuckoo.FirstVictim` | src/cuckoocache.h:383-399 | the first element to make room stands at the second location, and at the documented first one if and only if the two coincide |
| `Cuckoo.NextVictim` | src/cuckoocache.h:383-399 | a later victim is the element just put in if and only if its location is repeated right away |
| `Cuckoo.Cache.Displace` | src/cuckoocache.h:370-406 | at most one element is lost, a live one only if no location on the whole chain was free; with a depth limit of one it is the one at the second location |
| `Cuckoo.Cache.Insert` | src/cuckoocache.h:352-407 | everything stored, and the new element, is stored afterwards except at most one; a live element is given up only if all eight locations of the new one were live |
| `Cuckoo.Cache.Run` | src/cuckoocache.h:352-447 | any run of inserts and lookups: each insert costs at most one element and a lookup none, and the live entries never exceed twice the epoch bound |
| `Cuckoo.KeptStep` | src/cuckoocache.h:352-407 | losses add up to at most one an insertion |
| `Cuckoo.YoungOrAged` | src/cuckoocache.h:242-281 | live entries split into the two epochs |
| `Cuckoo.EpochSizeIsAsDocumented` | src/cuckoocache.h:301-317 | the epoch size is 45 percent of the table if and only if 45 times the size fits in 32 bits |
| `BlockChain.GetSkipHeight` | src/chain.cpp:116-127 | the skip height is a proper ancestor height for every block but the first |
| `BlockChain.BlockIndex.BuildSkip` | src/chain.cpp:199-205 | sets the skip pointer to the ancestor at the skip height, and every index valid before stays valid |
| `BlockChain.BlockIndex.GetAncestor` | src/chain.cpp:165-192 | walking the skip list gives exactly the block of that height on the path to genesis, or null outside the range |
| `BlockChain.AncestorsAreValid` | src/chain.cpp:165-192 | every block on a path is itself a valid index with the path below it |
| `BlockChain.OnPath` | src/chain.cpp:165-192 | a block is an ancestor exactly if it is the one at its height |
| `BlockChain.CommonAt` | src/chain.cpp:213-233 | a common ancestor is a block that both paths have at its height |
| `BlockChain.SharedBelow` | src/chain.cpp:213-233 | two paths that share a block share everything below it |
| `BlockChain.LastCommonAncestor` | src/chain.cpp:213-233 | the highest common ancestor; null if and only if there is none |
| `BlockChain.Chain.SetTip` | src/chain.cpp:49-65 | filling downwards and stopping at the first match makes the vector the whole path of the new tip |
| `BlockChain.Chain.FindFork` | src/chain.cpp:101-113 | the highest block shared with the active chain, or null if none |
| `BlockChain.ForkIs` | src/chain.cpp:101-113 | below the last height at which two paths differ stands their highest common block |
| `BlockChain.Chain.Back` | src/chain.cpp:67-99 | the same ancestor whether it is read off the chain or found by skipping |
| `BlockChain.LocatorDescends` | src/chain.cpp:67-99 | the locator heights fall strictly from the start to genesis |
| `BlockChain.Chain.GetLocator` | src/chain.cpp:67-99 | the locator is the ancestors at those heights, whether they are read off the chain or by skipping |
| `BlockChain.Chain.At` | src/chain.h:675-692 | the block of the path at that height |
| `BlockChain.Chain.Contains` | src/chain.h:712-727 | true exactly for the blocks on the path of the tip |
| `BlockChain.Chain.Next` | src/chain.h:729-761 | the successor on the path; null exactly for the tip and for blocks off the chain |
| `BlockChain.AsertAnchor.GetASERTAnchorBlock` | src/daa.cpp:98-152 | with or without a cached anchor, and after any calls for other branches, the anchor is the ancestor at the anchor height, or the block itself below it |
| `Limbs.Complement` | src/arith_uint256.h:92-98 | the bitwise complement is 2^bits - 1 - x |
| `Limbs.Negate` | src/arith_uint256.h:100-107 | the negative modulo 2^bits |
| `LimbShifts.AssignUint64` | src/arith_uint256.h:112-119 | a 64-bit value is stored exactly |
| `Limbs.AddAssign` | src/arith_uint256.h:159-169 | the sum modulo 2^bits, also if both operands are one object |
| `Limbs.SubAssign` | src/arith_uint256.h:171-175 | the difference modulo 2^bits, also if both operands are one object |
| `Limbs.Increment` | src/arith_uint256.h:253-260 | plus one modulo 2^bits, by carrying over full limbs |
| `LimbShifts.GetLow64` | src/arith_uint256.h:348-352 | the value modulo 2^64 |
| `LimbShifts.Widen` | src/arith_uint256.h:402-411 | widening to 320 bits keeps the value |
| `LimbShifts.Reduce` | src/arith_uint256.h:412-416 | reducing to 256 bits is the value modulo 2^256 |
| `LimbShifts.ShiftLeft` | src/arith_uint256.cpp:24-40 | multiplication by 2^shift modulo 2^bits, for every shift |
| `LimbShifts.ShiftRight` | src/arith_uint256.cpp:42-58 | division by 2^shift rounded down, for every shift |
| `Limbs.MulAssignUint32` | src/arith_uint256.cpp:60-71 | the product with a 32-bit number modulo 2^bits |
| `Limbs.MulAssign` | src/arith_uint256.cpp:73-89 | the schoolbook product modulo 2^bits; squaring an object in place gives 0 |
| `Limbs.MulRow` | src/arith_uint256.cpp:78-87 | one row adds the partial product at its offset, the carry out of the top being the only loss |
| `LimbShifts.DivAssign` | src/arith_uint256.cpp:91-117 | shift and subtract gives quotient and remainder exactly; throws if and only if the divisor is 0 |
| `Limbs.CompareTo` | src/arith_uint256.cpp:119-130 | the sign of the comparison of the values |
| `LimbShifts.EqualTo` | src/arith_uint256.cpp:132-145 | equality of the values with a 64-bit number |
| `LimbShifts.Bits` | src/arith_uint256.cpp:239-255 | the bit length of the value |
| `LimbShifts.OrDisjoint` | src/arith_uint256.cpp:24-58 | or-ing words with disjoint bits adds them |
| `LimbShifts.WordSplit` | src/arith_uint256.cpp:24-58 | the two halves of a shifted word make up the product with the power of two |
| `Compact.SetCompact` | src/arith_uint256.cpp:287-306 | decodes modulo 2^256; the overflow flag is set if and only if the value does not fit, the negative flag if and only if the sign bit is set on a nonzero value |
| `Compact.OverflowExact` | src/arith_uint256.cpp:287-306 | the byte-count test for overflow is exact |
| `Compact.GetCompact` | src/arith_uint256.cpp:308-333 | the largest canonical encoding not above the value, with the sign bit exactly for a negative nonzero value |
| `Compact.OrderPreserved` | src/arith_uint256.cpp:287-333 | canonical encodings, compared as numbers, are ordered like their targets |
| `Compact.RoundsIsFloor` | src/arith_uint256.cpp:308-333 | no canonical encoding lies between the result and the value |
| `Compact.RoundTrip` | src/arith_uint256.cpp:287-333 | encoding the decoded value of a canonical encoding gives it back |
| `Compact.RoundingLoss` | src/arith_uint256.cpp:308-333 | rounding loses less than 1/2^15 of the value |
| `Compact.UnitApart` | src/arith_uint256.cpp:287-333 | neighbouring canonical targets are at least one unit of the smaller one apart |
| `Compact.CanonicalFits` | src/arith_uint256.cpp:287-333 | canonical encodings decode to less than 2^256 |
| `Compact.GetNextHarderCompactBits` | src/daa.cpp:35-70 | gives the canonical encoding just before the input, with none in between; the assertion holds if and only if the target is at least 2 |
| `Compact.Harder` | src/daa.cpp:51-68 | decrement, fold and mask step to the predecessor |
| `Compact.NoneBetween` | src/daa.cpp:51-68 | no canonical encoding lies strictly between |
| `Asert.FactorRange` | src/daa.cpp:394-399 | the cubic never overflows 64 bits and the factor lies in [2^16, 2^17) |
| `Asert.FactorMono` | src/daa.cpp:394-399 | the factor never falls as the fraction grows |
| `Asert.CalculateASERT` | src/daa.cpp:334-441 | the limb computation equals the integer formula with the shift count cut to 32 bits, and the ideal clamped target whenever the count fits |
| `Asert.CountExact` | src/daa.cpp:404-425 | the result is the ideal one if and only if the count fits or the product shifted by the rest of the count still reaches the bound; a condition on the inputs |
| `Asert.NumeratorExact` | src/daa.cpp:373-375 | beside the assertion, the multiplication stays in 64 bits if and only if one more block spacing keeps the difference in the asserted range |
| `Asert.NearSchedule` | src/daa.cpp:373-390 | the count fits as long as the chain is less than about 2^32 half lives off schedule |
| `Asert.ShortHalfLife` | src/daa.cpp:404-425 | a half life of one second and 2^32 + 16 seconds: an input for which the cut count gives another target |
| `Asert.ShiftUp` | src/daa.cpp:410-425 | shifting back finds out exactly whether bits were lost |
| `Asert.LostBits` | src/daa.cpp:410-425 | up and back is the identity exactly when the product fits |
| `Asert.ClampTo` | src/daa.cpp:427-440 | the result is clamped to 1 and the limit, decided in 320 bits |
| `Asert.IdealTargetMono` | src/daa.cpp:387-425 | the target never falls as the exponent grows, also where the fraction wraps to the next power of two |
| `Asert.TargetMono` | src/daa.cpp:334-441 | more elapsed time never makes the target harder, more blocks never make it easier |
| `Work.WorkFormula` | src/primitives/block.cpp:142-149 | the form of the quotient that avoids 2^256 equals 2^256 / (target + 1) |
| `Work.GetWorkForTarget` | src/primitives/block.cpp:142-149 | the work of a target, 0 for target 0; throws exactly for the largest target |
| `Work.WorkAntitone` | src/primitives/block.cpp:142-149 | an easier target never has more work |
| `Work.GetWorkForDifficultyBits` | src/primitives/block.cpp:127-140 | the work of an encoding, 0 for negative, overflowing or zero targets; never throws |
| `Work.NotTheLargest` | src/primitives/block.cpp:127-140 | no encoding decodes to the one target that would throw |
| `Work.GetTargetForRequiredWork` | src/daa.cpp:23-33 | the target that inverts the work formula, 1 if the quotient is 0 |
| `Work.TargetForWork` | src/daa.cpp:23-33 | every target up to that one has at least the required work, as long as the work is at most 2^255 |
| `Work.GetCompactBitsForRequiredWork` | src/daa.cpp:72-78 | the search ends with an encoding whose work is enough, if and only if the required work is at most 2^255; beyond that the assertion in the step fails |
| `Work.CanonicalWork` | src/daa.cpp:72-78 | canonical nonzero encodings never have more than 2^255 work |
| `Tailstorm.DefaultTarget` | src/daa.cpp:264-281 | K times the ASERT target, clamped, compared in 320 bits |
| `Tailstorm.IncludedWork` | src/daa.cpp:294-298 | the work of the referenced blocks modulo 2^256 |
| `Tailstorm.RequiredSummaryWork` | src/daa.cpp:288-309 | the larger of the default work and what is missing |
| `Tailstorm.RequiredMakesUp` | src/daa.cpp:300-309 | without wrap the required work and the included work reach K times the default work |
| `Tailstorm.NextBits` | src/daa.cpp:260-329 | an encoding no easier than the limit, whose work reaches the requirement for a summary block; there is one if and only if the required work is at most 2^255 |
| `Tailstorm.ClampedBits` | src/daa.cpp:323-329 | re-encoding after the clamp never lowers the work |
| `Tailstorm.SummaryWorkSuffices` | src/daa.cpp:283-311 | a summary block and the blocks it refers to together reach the expected work, and it is never easier than a subblock |
| `AddressManager.AddrMan.Create` | src/addrman.cpp:94-106 | a new number, known by address and placed last in the random order |
| `AddressManager.AddrMan.SwapRandom` | src/addrman.cpp:108-129 | swaps two positions and both back references |
| `AddressManager.AddrMan.Delete` | src/addrman.cpp:131-145 | forgets exactly one entry without references and closes the gap in the random order |
| `AddressManager.AddrMan.ClearNew` | src/addrman.cpp:147-168 | empties one new slot; its entry loses one reference and is forgotten if that was the last |
| `AddressManager.AddrMan.RemoveFromNew` | src/addrman.cpp:170-186 | the entry holds no new slot afterwards, nothing else is touched; the reference count is always 0, so the assertion holds |
| `AddressManager.AddrMan.EvictTried` | src/addrman.cpp:195-203 | takes the holder out of its tried slot; it is always known |
| `AddressManager.AddrMan.ReturnToNew` | src/addrman.cpp:205-214 | the evicted entry takes the new slot of its own source, and at most one entry is forgotten for it |
| `AddressManager.AddrMan.EnterTried` | src/addrman.cpp:216-220 | fills the free tried slot |
| `AddressManager.AddrMan.MakeTried` | src/addrman.cpp:170-221 | the invariant is kept, the tried table changes in one slot, what stood there is back in the new table, and at most one other entry is forgotten |
| `AddressManager.AddrMan.FindBucket` | src/addrman.cpp:254-271 | the search through the new buckets always finds the entry, so the bail-out is dead |
| `AddressManager.SomeBucketHolds` | src/addrman.cpp:254-271 | an entry outside the tried table is in some bucket of the new table, from whatever bucket the search starts |
| `AddressManager.AddrMan.Promote` | src/addrman.cpp:254-293 | moves the entry or makes it wait: exact tried table and waiting set |
| `AddressManager.AddrMan.Good` | src/addrman.cpp:223-294 | exact outcome for an unknown, a tried and a new entry, with and without testing first; the invariant is kept |
| `AddressManager.AddrMan.Meet` | src/addrman.cpp:304-343 | the entry for the address, refreshed or new, and whether it may get a slot |
| `AddressManager.AddrMan.Enroll` | src/addrman.cpp:337-343 | a new entry, counted and not yet in a slot |
| `AddressManager.AddrMan.Refresh` | src/addrman.cpp:307-336 | time and services of a known entry, and the decision on one more slot |
| `AddressManager.IsWanted` | src/addrman.cpp:318-335 | the decision: newer information, not tried, room for references, and a draw that each reference makes half as likely |
| `AddressManager.AddrMan.Place` | src/addrman.cpp:345-372 | the slot changes hands exactly under the documented conditions; the newcomer is forgotten exactly if it ends up without a reference; at most one entry goes |
| `AddressManager.AddrMan.Add` | src/addrman.cpp:296-374 | true exactly for a routable unknown address; exact new table and entries in every case; the invariant is kept |
| `AddressManager.AddrMan.Attempt` | src/addrman.cpp:376-399 | exact statistics of the one entry |
| `AddressManager.AddrMan.GetAddr` | src/addrman.cpp:569-591 | no address twice, none terrible, at most 23 percent and 2500; fewer only if every good entry is in; only the random order changes |
| `AddressManager.AddrMan.Connected` | src/addrman.cpp:593-613 | the time moves on exactly after twenty minutes |
| `AddressManager.AddrMan.ResolveCollisions` | src/addrman.cpp:615-683 | every waiting number is judged once; each state follows from the one before by that judgement; a number stays exactly if it is told to wait |
| `AddressManager.AddrMan.ResolveOne` | src/addrman.cpp:621-672 | discarded, swapped in, or left waiting; the branch for a slot that became free is dead |
| `AddressManager.AddrMan.SelectTriedCollision` | src/addrman.cpp:685-714 | on any consistent tables: they stay consistent if and only if the number drawn is unknown or its tried slot is filled, otherwise a made-up entry -1 appears; a valid manager always answers the holder of the slot |
| `AddressManager.MadeUp` | src/addrman.cpp:685-714 | no address can lead to the made-up entry, so the tables are broken |
| `AddressManager.AddrMan.ResetCounters` | src/addrman.cpp:716-724 | all statistics are cleared and the invariant is kept; the clause of the self-check on the last success holds afterwards if and only if there is no tried entry |
| `AddressManager.StepTransitive` | src/addrman.cpp:223-724 | numbers never reused, addresses never changed and tried slots never emptied: this composes |
| `AddressManager.CollisionsKept` | src/addrman.cpp:223-724 | a waiting number stays bound for a filled slot through every such step |
| `AddrCheck.Check` | src/addrman.cpp:480-566 | on any state: the code is 0 if and only if addresses lead to their entries, random order, both tables and all counters are sound, every tried entry has a success and the key is not null; on a sound state only -1 and -16 can be answered, each exactly when due |
| `AddrCheck.ConsistentIs` | src/addrman.cpp:480-566 | what the self-check misses: an address that leads nowhere, a number out of range, and a missing address of number 0 |
| `AddrCheck.CheckEntries` | src/addrman.cpp:490-518 | answers the code of an entry with a fault if and only if there is one, and otherwise collects both sides |
| `AddrCheck.AllOrdered` | src/addrman.cpp:487-513 | with as many places as entries, entries that stand where they say fill all places of the random order |
| `AddrCheck.CheckTried` | src/addrman.cpp:525-540 | passes with nothing left over if and only if the tried table is sound |
| `AddrCheck.CheckNew` | src/addrman.cpp:542-556 | passes with nothing left over if and only if the new table and the reference counts are sound |
| `AddrCheck.CheckNewSlot` | src/addrman.cpp:546-554 | one slot uses up one reference, and a code is given only for an unsound table |
| `AddrCheck.Apply` | src/addrman.cpp:223-724 | every operation keeps the invariant |
| `AddrCheck.Run` | src/addrman.cpp:223-724 | any sequence of operations, each at its own time and with its own draws, keeps the invariant, reuses no number, and never empties a tried slot |
| `AddressManager.AddrMan.constructor` | src/addrman.h:553-553 | a new manager is empty and valid |
| `AddressManager.AddrMan.Clear` | src/addrman.h:520-546 | the tables are empty and consistent and the waiting set is as before, so the manager is valid if and only if that set was empty |
| `AddressManager.StaleNumber` | src/addrman.h:520-546 | what that leads to, from any state with number 0 waiting: clear, add one address, and drawing the waiting number reads an empty slot and breaks the tables |
| `AddrStore.WriteNew` | src/addrman.h:327-339 | the entries with references in iteration order, each numbered by its place; the assertion on the count holds |
| `AddrStore.WriteTried` | src/addrman.h:340-350 | the tried entries in iteration order |
| `AddrStore.WriteRow` | src/addrman.h:351-368 | the filled slots of a bucket, as numbers of the written entries |
| `AddrStore.Serialize` | src/addrman.h:309-369 | the stream holds every entry once and every filled slot of the new table |
| `AddrStore.ReadNew` | src/addrman.h:426-447 | new entries are restored with fresh numbers |
| `AddrStore.ReadTried` | src/addrman.h:449-472 | every tried entry finds its slot free, so none is lost |
| `AddrStore.ReadRow` | src/addrman.h:477-494 | every reference is accepted |
| `AddrStore.ReadRows` | src/addrman.h:474-495 | the whole new table is refilled |
| `AddrStore.Prune` | src/addrman.h:497-511 | no entry is without a reference, so none is pruned |
| `AddrStore.Unserialize` | src/addrman.h:371-518 | reading back what was written gives the same state up to renumbering, it is consistent, and nothing is lost |
| `AddrStore.Reload` | src/addrman.h:309-518 | writing a consistent state and reading it back gives the same entries, tables and counts under new numbers, for every order of iteration |
| `AddrStore.RenamedConsistent` | src/addrman.h:371-518 | consistency survives the renumbering |
| `AddrStore.Capacity` | src/addrman.h:416-424 | the limits on the counts hold for every consistent state |
| `CashAddr.PolyMod` | src/cashaddr.cpp:42-147 | the loop computes the state after all values |
| `CashAddrField.PolyIsRemainder` | src/cashaddr.cpp:42-147 | that state is the remainder: over the field of 32 elements the input with a one in front is a multiple of the generator plus the state |
| `CashAddrField.RemainderUnique` | src/cashaddr.cpp:42-147 | no other eight coefficients are a remainder of the input |
| `CashAddrField.GroupStep` | src/cashaddr.cpp:103-143 | one round moves the coefficients up and adds the generator tail times the one that falls out |
| `CashAddrField.Constants` | src/cashaddr.cpp:109-143 | the five constants are the tail of the generator times the powers of the generator of the field |
| `CashAddr.StepLinear` | src/cashaddr.cpp:103-143 | one step is linear over xor |
| `CashAddr.StepInjective` | src/cashaddr.cpp:103-143 | one step loses nothing of the state |
| `CashAddr.PolyLinear` | src/cashaddr.cpp:42-147 | the checksum of a xor is the xor of the checksums |
| `CashAddr.PolyInjective` | src/cashaddr.cpp:42-147 | different states stay different under the same input |
| `CashAddr.PolySmall` | src/cashaddr.cpp:42-147 | eight values or fewer are not reduced: from state 0 only zeros give 0 |
| `CashAddr.PackUnpack` | src/cashaddr.cpp:194-209 | cutting into eight groups of five bits and feeding them back is the identity |
| `CashAddr.ChecksumVerifies` | src/cashaddr.cpp:194-209 | data followed by its checksum verifies |
| `CashAddr.BurstFrom` | src/cashaddr.cpp:42-147 | two inputs that differ only within eight consecutive values have different remainders |
| `CashAddrText.ExpandPrefix` | src/cashaddr.cpp:163-174 | the low five bits of the prefix and a zero |
| `CashAddrText.VerifyChecksum` | src/cashaddr.cpp:179-189 | true exactly if the remainder is 1 |
| `CashAddrText.CreateChecksum` | src/cashaddr.cpp:194-209 | the eight values that make it verify |
| `CashAddrText.OneChecksum` | src/cashaddr.cpp:179-209 | no other eight values verify behind the same data |
| `CashAddrText.RevChr` | src/cashaddr.cpp:17-26 | the reverse table inverts the character set |
| `CashAddrText.ChrRev` | src/cashaddr.cpp:17-26 | the character set inverts the reverse table up to case |
| `CashAddrText.Encode` | src/cashaddr.cpp:218-232 | prefix, separator, characters; the assertion holds exactly for 5-bit values |
| `CashAddrText.Decode` | src/cashaddr.cpp:237-327 | agrees with the checks on case, separator, digits, characters and checksum, the range that ends before it starts included |
| `CashAddrText.DecodeValues` | src/cashaddr.cpp:305-327 | the payload part of decoding |
| `CashAddrText.ScanSize` | src/cashaddr.cpp:239-286 | an accepted separator has only letters before it |
| `CashAddrText.DecodeEncode` | src/cashaddr.cpp:218-327 | decoding an encoding gives prefix and values back, for every lower-case prefix and whatever the default |
| `CashAddrText.OnlyEncodingsDecode` | src/cashaddr.cpp:218-327 | what decodes is, in lower case and with its prefix, exactly an encoding |
| `CashAddr.ShortClosing` | src/cashaddr.cpp:179-189 | at most eight values bring a state to 1 if and only if what is wanting fits in them, and then in one way |
| `CashAddrShort.DecodeIsDefined` | src/cashaddr.cpp:237-327 | texts with a given prefix never make the decoder cut more values off than there are, if and only if the state after the prefix exceeds a bound for each length below eight |
| `CashAddrShort.DecodeBareIsDefined` | src/cashaddr.cpp:237-327 | the same for texts without a prefix and the default one |
| `CashAddrShort.SafeFromMeans` | src/cashaddr.cpp:320-326 | that condition is decided by eight steps on the prefix alone |
| `CashAddrShort.NetworkPrefixesAreSafe` | src/cashaddr.cpp:320-326 | it holds for the prefixes of all five networks |
| `CashAddrShort.ShortText` | src/cashaddr.cpp:320-326 | it fails for the prefix c: a text whose seven payload values verify |
| `CashAddrText.BurstRejected` | src/cashaddr.cpp:179-189 | of two payloads that differ within eight consecutive characters at most one verifies |
| `Base58.NumUnique` | src/base58.cpp:22-107 | a number without leading zeros has one digit string in a base |
| `Base58.SameNumberUnique` | src/base58.cpp:22-107 | bytes and digits with as many leading zeros and the same value determine each other |
| `Base58.EncodeFits` | src/base58.cpp:81-81 | the encoding buffer is large enough for every length |
| `Base58.DecodeFits` | src/base58.cpp:35-35 | the decoding buffer is large enough for every length |
| `Base58.MulAdd` | src/base58.cpp:43-50 | the inner loop multiplies and adds over the whole buffer, exact with its final carry |
| `Base58.Append` | src/base58.cpp:43-51 | the final carry is 0, so the assertion holds |
| `Base58.Convert` | src/base58.cpp:80-95 | the buffer holds the same number in the other base |
| `Base58Text.DigitAlpha` | src/base58.cpp:20-20 | looking a digit up in the alphabet |
| `Base58Text.AlphaDigit` | src/base58.cpp:20-20 | only the alphabet has digits |
| `Base58Text.FirstDigit` | src/base58.cpp:59-62 | skips exactly the leading zeros |
| `Base58Text.Spell` | src/base58.cpp:100-106 | leading ones and the digits as characters |
| `Base58Text.EncodeBase58` | src/base58.cpp:71-107 | the text stands for the bytes: same number, one leading 1 for every leading zero byte |
| `Base58Text.ReadDigits` | src/base58.cpp:34-53 | stops at the first space or end with the number so far, or at the first other character |
| `Base58Text.DecodeFrom` | src/base58.cpp:27-68 | accepted exactly if digits are followed only by space |
| `Base58Text.CountOnes` | src/base58.cpp:27-33 | counts exactly the leading ones |
| `Base58Text.OnlySpace` | src/base58.cpp:54-58 | true exactly if nothing but space follows |
| `Base58Text.DecodeBase58` | src/base58.cpp:22-69 | succeeds if and only if the text is a run of digits between spaces, and gives the bytes it stands for |
| `Base58Text.DecodeEncode` | src/base58.cpp:22-107 | decoding an encoding gives the bytes back, for all bytes |
| `Base58Text.EncodeDecode` | src/base58.cpp:22-107 | encoding a decoding gives the text back, for all texts over the alphabet |
| `RollingBloom.WipePair` | src/bloom.cpp:335-341 | the mask clears exactly the cells of the generation number about to be reused |
| `RollingBloom.SetCell` | src/bloom.cpp:345-353 | both bits of one cell are set to the generation, other cells are untouched |
| `RollingBloom.RollingBloomFilter.constructor` | src/bloom.cpp:287-311 | two generations hold at least the promised number of elements |
| `RollingBloom.RollingBloomFilter.Reset` | src/bloom.cpp:386-397 | empty, with the new tweak |
| `RollingBloom.RollingBloomFilter.NextGeneration` | src/bloom.cpp:324-342 | every cell shows the generation it was last written in, cells of three generations ago being empty |
| `RollingBloom.WipeAll` | src/bloom.cpp:335-341 | the sweep over the table does this for all cells |
| `RollingBloom.RollingBloomFilter.Insert` | src/bloom.cpp:322-354 | the key joins the log, and every key of the live generations keeps its cells |
| `RollingBloom.RollingBloomFilter.SetCells` | src/bloom.cpp:345-353 | all cells of the key show the current generation |
| `RollingBloom.RollingBloomFilter.Contains` | src/bloom.cpp:363-377 | true exactly if all cells of the key are set; always true for every key of the current and the last two generations |
| `RollingBloom.Kept` | src/bloom.cpp:322-377 | a key inserted at most two generations ago has all its cells set |
| `FastFilter.SetKeeps` | src/fastfilter.h:350-366 | setting a bit clears none |
| `FastFilter.RoundEnds` | src/fastfilter.h:318-370 | a round lasts the same number of inserts every time |
| `FastFilter.CoversGrow` | src/fastfilter.h:350-366 | more bits never lose a key |
| `FastFilter.RollingFastFilter.constructor` | src/fastfilter.h:307-316 | empty and valid |
| `FastFilter.RollingFastFilter.Reset` | src/fastfilter.h:408-419 | empty and valid |
| `FastFilter.RollingFastFilter.Rotate` | src/fastfilter.h:322-348 | the full vector is put aside, and the one wiped is the oldest, although wiping depends on a counter that was swapped along |
| `FastFilter.RollingFastFilter.SetBits` | src/fastfilter.h:350-366 | all bits of the key are set and no key is lost |
| `FastFilter.RollingFastFilter.Insert` | src/fastfilter.h:318-370 | the key joins the log and the invariant is kept |
| `FastFilter.RollingFastFilter.Contains` | src/fastfilter.h:372-406 | true exactly if one vector has all bits of the key; always true for keys of the current and the two previous rounds |
| `Iblt.CellIsHit` | src/iblt.cpp:159-201 | row i of the table has its own cells, and each key one of them |
| `Iblt.CellAppend` | src/iblt.cpp:170-201 | a cell of a concatenated log is the join of the cells |
| `Iblt.OrderIrrelevant` | src/iblt.cpp:170-204 | the table depends on the multiset of operations and not on their order |
| `Iblt.CellFlip` | src/iblt.cpp:203-204 | erasing what was inserted negates the cells |
| `Iblt.Sketch.constructor` | src/iblt.cpp:78-157 | an empty table for the empty log |
| `Iblt.Sketch.Copy` | src/iblt.cpp:121-129 | the same table for the same log |
| `Iblt.Sketch.Update` | src/iblt.cpp:170-201 | the table is the tally of the longer log |
| `Iblt.Sketch.Insert` | src/iblt.cpp:203-203 | one more insertion |
| `Iblt.Sketch.Erase` | src/iblt.cpp:204-204 | one more erasure |
| `Iblt.EraseUndoes` | src/iblt.cpp:203-204 | erasing takes an insertion back in every cell |
| `Iblt.Sketch.Subtract` | src/iblt.cpp:324-349 | throws if and only if the sizes differ, otherwise subtracts cell by cell; for tables of one shape the difference is the table of the first log and the negated second one |
| `Iblt.NetOfDifference` | src/iblt.cpp:324-349 | in the difference every key counts what the two tables count apart |
| `Iblt.PureReported` | src/iblt.cpp:51-61 | a cell with one key, once, passes the purity test and shows that key and sign |
| `Iblt.EmptyReported` | src/iblt.cpp:51-61 | a cell whose keys cancel is empty |
| `Iblt.PeelStep` | src/iblt.cpp:286-304 | taking out a really pure key leaves the other counts as they were |
| `Iblt.PeelOnce` | src/iblt.cpp:285-305 | a pass reports what it takes out and keeps the table in step |
| `Iblt.CheckFirstRow` | src/iblt.cpp:308-321 | true exactly if the first row is empty |
| `Iblt.ListEntries` | src/iblt.cpp:276-322 | reports what it peels, and ends with ok if and only if the first row of the rest is empty |
| `Iblt.HonestPeels` | src/iblt.cpp:276-322 | as long as every cell that passed the test was really pure, each key is taken out once |
| `Iblt.ListsExact` | src/iblt.cpp:276-322 | then a complete listing is exactly the keys counted +1 and the keys counted -1, and there are no others |
| `Iblt.InsertionsAmount` | src/iblt.cpp:170-203 | inserting keys without a repetition makes a table of their set |
| `Iblt.Reconcile` | src/iblt.cpp:276-349 | for two sets of keys, an honest and complete listing of the difference is what each has and the other has not |

## Left out

- Coins.CoinsViewCache.FetchCoin: the memory accounting (`cachedCoinsUsage`), the height of the best coin and the locks are not modelled.
- Coins.CoinsViewCache.Trim: which of the clean entries go is left open, because the source decides it by memory use.
- CoinsTx.ConnectCoins: scripts, fees, sequence locks, token rules, transactions checked in other subblocks and the block header are not modelled.
- CoinsTx.AddCoins: requires that only a coinbase recreates an unspent output, the duty that AddCoin leaves to its callers; Coins.CoinsViewCache.AddCoin states exactly what happens otherwise.
- CoinsTx.DisconnectBlock: states what it does after the block was connected with its own undo data; damaged undo files are not modelled.
- CheckQueue.WaitIsExact: shutting the queue down (`Quit`, `Shutdown`) is not modelled, and the locked sections are taken as atomic steps.
- Cuckoo.Cache.constructor: the depth limit, computed by a floating-point logarithm, is a parameter; that the table is the largest power of two within the requested size is therefore not stated.
- Cuckoo.Cache.Insert: the default element, which the source uses for empty slots, is not inserted.
- BlockChain.AsertAnchor.GetASERTAnchorBlock: the atomic load and store of the cached anchor are taken as one sequential call.
- Asert.CalculateASERT: requires that the numerator fits in 64 bits, beyond which the signed multiplication of the source is undefined; Asert.NumeratorExact says when it does.
- Tailstorm.NextBits: the miner data of the summary block is parsed elsewhere and is a parameter here.
- AddressManager.AddrMan.ResolveCollisions: one clock reading stands for the several that the source takes in one call, and the waiting numbers are taken in any order, of which the ascending one is a case.
- AddressManager.AddrMan.Create: the two-dimensional tables are maps from slots, an empty slot being absent.
- AddrStore.Unserialize: is stated on values and for streams that were written from a consistent state; older formats, changed bucket counts and corrupt files are not modelled.
- AddrCheck.Check: requires slots of the grid, which the arrays of the source cannot leave; the entry it may add to the address map while looking is not kept.
- RollingBloom.SetCell: a 64-bit word is the set of its one bits.
- RollingBloom.RollingBloomFilter.constructor: the sizes computed in floating point are parameters, and so the false-positive rate is not modelled.
- Iblt.Sketch.Update: the value bytes, the 32-bit width of the counts and the growing of the table are not modelled.
- Iblt.ListEntries: the bound on the number of passes is a parameter; that a listing succeeds with high probability is not stated.
- Iblt.ListsExact: holds as long as no cell passes the purity test by a collision of key checks, which no deterministic statement can exclude.
- Limbs.MulAssign: conversions to and from text and floating point, and the operators that are one call of these, are left out as easy.
- Address selection by chance (`Select_`, `GetChance`) is left out, because its promise is statistical.
- `CIblt::get`, the plain (not rolling) Bloom and fast filters, the mempool, the network protocol, the wallet, scripts and capd are left out.
