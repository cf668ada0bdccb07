# Verification of the node's algorithmic cores

This project models the algorithms at the core of the node in Dafny and proves what they promise.
Each file follows one component of the source, in the source's own form: objects that change are
classes, loops are loops, buffers are arrays, and every method is proved against a specification
stated on plain mathematical values.

| file | component | what is proved |
|---|---|---|
| `HashToPoint.dfy` | Falcon hash-to-point | the branch-free sampler agrees with the rejection loop |
| `ShortVector.dfy` | Falcon norm test | the 32-bit test is exact |
| `SoftFloat.dfy` | Falcon soft floating point | add, multiply, divide and square root are correctly rounded, or zero below the normal range |
| `Keccak.dfy` | SHAKE256 | incremental and one-shot hashing agree with the sponge construction |
| `Codec.dfy` | Falcon encodings | round trips, and when an input is canonical |
| `Coins.dfy` | UTXO cache stack | every run over any stack shows a flat map |
| `CheckQueue.dfy` | parallel script checks | the verdict of Wait in every interleaving, no lost wake-up, termination in every schedule |
| `AddrMan.dfy` | address manager | every run keeps what Check_ tests |
| `CuckooCache.dfy` | signature cache | placement, eviction of one entry, epoch bounds |
| `RollingBloom.dfy` | rolling Bloom filter | equal to a plain filter over the last generations |
| `MerkleBlock.dfy` | partial Merkle trees | soundness and completeness of proofs, and their size |
| `CompactBlocks.dfy` | compact block relay | the receiver rebuilds the block |
| `Miner.dfy` | block assembly | closure, order and limits of the selected block, best package first |
| `Chain.dfy` | block tree and active chain | skip pointers and how far the search walks, tips, forks and locators |
| `Arith256.dfy` | 256-bit integers and targets | limb arithmetic, compact targets, block work |
| `Base58.dfy` | base 58 | mutual inverses, sufficient buffers |
| `Bits.dfy` | bit operations of C on natural numbers | used throughout |

Integers are unbounded in Dafny: where the source's result depends on a word size, the reduction to
that size is written out. Plain counters are left unbounded.

Where the source's comments and its code differ, the code is followed:

- `src/merkleblock.h:47` says at most 2N - 1 bits for N hashes; this holds exactly when no node on the
  way to a match is an only child (`MerkleTree.BitCount`).
- `src/cuckoocache.h:419-420` says the first displacement uses the first slot; the code takes the second
  (`CuckooCache.Cache.NextLoc`).
- `src/fpr.h:295-335` gives -1 for the floor of negative zero (`SoftFloat.Floor`).
- `src/fips202.cpp:376` or-s the last padding bit in where the incremental interface exclusive-ors it;
  the two differ only for suffixes from 128 on, which are not used (`Keccak.Absorb`).
- `src/blockencodings.h:60` keeps the offset in 16 bits: what is read is increasing exactly while the
  differences sent and their number less one add up to at most 65535 (`CompactBlocks.ReadIsIncreasing`).
- `src/miner.cpp:381` says that everything else has a lower fee rate; this is true of the score by which
  packages are ordered, and of a package's rate exactly if its own transaction pays at least that
  (`Miner.PackageAbove`, `Miner.FloorMisses`).
- `src/merkleblock.h:33` calls its bound on the serialized size a hard guarantee; it fails from 65536 hashes
  on, and before when only children add flag bytes (`MerkleBlock.SizeGuarantee`).
- `src/blockencodings.cpp:81-84` searches with a 16-bit offset, which for 65536 prefilled transactions and a
  short id never ends (`CompactBlocks.SearchEnds`).

## Model

| member | source | states |
|---|---|---|
| `HashToPoint.PointUnique` | src/common.cpp:37-67 | rejection sampling determines the point: it does not depend on how far the stream is read |
| `HashToPoint.FiveSamples` | src/common.cpp:54-63 | every coordinate comes from exactly five samples |
| `HashToPoint.SampleOrder` | src/common.cpp:54-58 | samples are ordered as their two bytes are, the first deciding |
| `HashToPoint.SubtractQ` | src/common.cpp:60-62 | repeated subtraction of 12289 is the remainder |
| `HashToPoint.VarTime` | src/common.cpp:37-67 | the rejection loop ends with the first n acceptable samples, reduced, and leaves the stream right after the last one used |
| `HashToPoint.ReduceSampleIs` | src/common.cpp:136-139 | the branch-free reduction gives the remainder below 61445 and the reject mark from there on |
| `HashToPoint.Draw` | src/common.cpp:130-147 | after drawing, the unmarked values in the three buffers are exactly the samples the rejection loop would accept, in order |
| `HashToPoint.KeptIsAccepted` | src/common.cpp:130-147 | what survives the marking is what rejection sampling accepts |
| `HashToPoint.InitialLayout` | src/common.cpp:149-158 | before the first pass every kept value is as far above its place as there are rejected ones before it, and these gaps ascend |
| `HashToPoint.ClearedIs` | src/common.cpp:158-232 | after k passes a gap has lost exactly its k low bits |
| `HashToPoint.SourceIsNext` | src/common.cpp:186-201 | a value met at slot u is the next in order, and u - v is the rest of its way |
| `HashToPoint.DestinationIsFree` | src/common.cpp:153-156 | the step the source only asserts: whenever a value has to jump by p, the slot it jumps to is in range and holds a rejected value |
| `HashToPoint.SwapMaskIs` | src/common.cpp:200-227 | the mask is all ones exactly for a kept value whose distance has the bit of this pass |
| `HashToPoint.MaskedSwap` | src/common.cpp:211-230 | the masked exclusive-ors swap the two slots under the mask and change nothing otherwise |
| `HashToPoint.PassSlot` | src/common.cpp:175-231 | one slot of a pass, over whichever of the three buffers it lies in |
| `HashToPoint.Pass` | src/common.cpp:158-232 | one pass moves every value whose gap has the bit down by p, keeps the order and overwrites no kept value |
| `HashToPoint.Passes` | src/common.cpp:158-232 | all passes together clear every gap |
| `HashToPoint.FitsBuffers` | src/common.cpp:85-129 | for every degree the oversampled values fit the three buffers |
| `HashToPoint.PassIsSmall` | src/common.cpp:158 | no pass jumps by more than 256 |
| `HashToPoint.Squeeze` | src/common.cpp:149-232 | the kept samples end up in x, in order |
| `HashToPoint.PointIffEnough` | src/common.cpp:71-233 | x shows the point if and only if at least n of the drawn samples were acceptable |
| `HashToPoint.ConstantTime` | src/common.cpp:71-233 | the constant-time sampler agrees with the rejection loop on every stream with enough acceptable samples, and shows a reject mark on every other |
| `ShortVector.IsShort` | src/common.cpp:236-268 | true exactly when the squared norm, as an exact integer, is within the bound of the degree, although the sum is kept in 32 bits |
| `ShortVector.IsShortHalf` | src/common.cpp:271-294 | the same when the first half comes as a saturated partial norm |
| `ShortVector.SaturatedCompare` | src/common.cpp:260-267 | a sum that ever reached the top bit becomes all ones, which no bound admits |
| `CoinEntries.MergeSlotOk` | src/coins.cpp:145-201 | one entry of a flush: no throw, the flags stay true of the layer below, and the view is the child's |
| `CoinEntries.MergePreservesView` | src/coins.cpp:145-201 | from parent and child flags that are true, no entry is misapplied, the merged flags are true, and the merged cache shows the child's view |
| `CoinsView.CoinsDB.BatchWrite` | src/txdb.cpp:84-143 | the database applies the dirty entries: spent ones are erased, others stored |
| `CoinsView.DBWriteIsOverlay` | src/txdb.cpp:84-143 | what the database then holds is the view of the cache that was written |
| `CoinEntries.UsageIs` | src/coins.h:79-81 | the memory of a coin is that of its script, none up to 28 bytes |
| `CoinsView.CoinsViewCache.FetchCoin` | src/coins.cpp:40-55 | the cached entry, pulled in from below when missing; found exactly if the cache or the view has it, and no view of any layer changes |
| `CoinsView.CoinsViewCache.GetCoin` | src/coins.cpp:57-64 | exactly the unspent coin of the flat view |
| `CoinsView.CoinsViewCache.AddCoin` | src/coins.cpp:66-85 | throws exactly for an unspent cached coin that was promised absent, leaving the byte count too low; otherwise the view gains the coin, and the flags stay true if and only if the promise was |
| `CoinsView.BrokenPromise` | src/coins.cpp:66-85 | a concrete broken promise: the hidden coin below comes back into view after the new one is spent |
| `CoinsView.CoinsViewCache.AddCoins` | src/coins.cpp:87-96 | all outputs of a transaction; with the check no promise is needed |
| `CoinsView.CoinsViewCache.SpendCoin` | src/coins.cpp:98-112 | the view loses the coin, and the coin returned is the one it had, or a spent one; true exactly if the view had it or the cache an entry for it |
| `CoinsView.CoinsViewCache.HaveCoin` | src/coins.cpp:125-128 | whether the view has an unspent coin |
| `CoinsView.CoinsViewCache.BatchWrite` | src/coins.cpp:145-201 | throws exactly on a misapplied FRESH flag, which never happens from a child whose flags are true; the layer then shows the child's view |
| `CoinsView.CoinsViewCache.Flush` | src/coins.cpp:203-208 | the view stays, the layer below shows it too, the layers under that are untouched, and the throw is unreachable |
| `CoinsView.CoinsViewCache.Uncache` | src/coins.cpp:210-217 | an unmodified entry is dropped and nothing that is seen changes |
| `CoinsView.FetchKeepsView` | src/coins.cpp:40-55 | filling the cache with the coin of the layer below keeps flags and view |
| `CoinsView.AddEffect` | src/coins.h:103-120 | FRESH is true of the layer below exactly when the caller's promise is |
| `CoinsView.SpendEffect` | src/coins.cpp:98-112 | spending removes the coin from the view whether the entry is erased (FRESH) or kept as a spent dirty one, and the byte count follows |
| `CoinsView.UncacheKeepsView` | src/coins.cpp:210-217 | dropping a clean entry keeps flags and view |
| `CoinsView.CoinsViewCache.Maintain` | src/coins.cpp:40-217 | fetching, uncaching and flushing at any depth of a stack are done there and keep the top view |
| `CoinsView.CoinsViewCache.Run` | src/coins.cpp:40-217 | over a stack of any depth, every run of the operations shows the flat map under the same additions and removals |
| `CheckQueue.BatchCount` | src/checkqueue.h:107 | a batch has at least one check; otherwise it is the most that leaves as many for every other thread, up to the batch size |
| `CheckQueue.Initial` | src/checkqueue.h:131 | a fresh queue with any number of threads satisfies the invariant |
| `CheckQueue.AddInv` | src/checkqueue.h:146-158 | Add keeps it |
| `CheckQueue.EnterInv` | src/checkqueue.h:83-101 | a thread entering Loop keeps it |
| `CheckQueue.WakeInv` | src/checkqueue.h:88-101 | waking, spuriously or not, keeps it |
| `CheckQueue.ExecuteInv` | src/checkqueue.h:118-122 | running one check outside the lock keeps it |
| `CheckQueue.FinishInv` | src/checkqueue.h:76-101 | reporting a batch keeps it, the master being notified when the last check is done |
| `CheckQueue.ProceedInv` | src/checkqueue.h:87-117 | the rest of the critical section, returning, sleeping or taking a batch, keeps it |
| `CheckQueue.StepInv` | src/checkqueue.h:66-158 | every step of every thread keeps the invariant: nTodo is queued plus in hand, nIdle the sleepers, nTotal those inside, fAllOk the verdict so far |
| `CheckQueue.WaitVerdict` | src/checkqueue.h:88-97 | Wait returns true if and only if every check added since the previous Wait passes, with nothing queued or in hand and the result reset |
| `CheckQueue.OnlyReturnsLeave` | src/checkqueue.h:66-124 | nothing else takes the master out of Loop |
| `CheckQueue.EveryWait` | src/checkqueue.h:140-143 | in every interleaving from the start Wait returns whether all checks pass that the run has added since it last returned |
| `CheckQueue.NoWorkAfterFailure` | src/checkqueue.h:115-122 | once a check has failed, what is taken from then on is not run |
| `CheckQueue.AlwaysAttended` | src/checkqueue.h:146-158 | no wake-up of a worker is lost: in every interleaving, while checks are queued, not all threads in Loop are asleep without notice |
| `CheckQueue.NoLostWakeup` | src/checkqueue.h:66-124 | while the master sleeps un-notified, the queue is empty and some worker holds unfinished work |
| `CheckQueue.Progress` | src/checkqueue.h:66-124 | no deadlock: while the master waits, some thread can go on without a spurious wake-up |
| `CheckQueue.WorkDecreases` | src/checkqueue.h:66-124 | every genuine step during a Wait that does not return from it leaves strictly less work |
| `CheckQueue.SpuriousWork` | src/checkqueue.h:88-101 | a spurious wake-up never makes more work |
| `CheckQueue.WaitTerminates` | src/checkqueue.h:140-143 | Wait returns in every schedule, however many spurious wake-ups it has: no more other steps pass than there was work |
| `AddrMan.Manager.constructor` | src/addrman.h:456-478 | an empty manager satisfies everything Check_ tests |
| `AddrMan.Manager.RandomIsAll` | src/addrman.cpp:391-392 | vRandom has as many entries as both tables together |
| `AddrMan.Manager.Find` | src/addrman.cpp:68-79 | the id of a known address, or none |
| `AddrMan.Manager.Create` | src/addrman.cpp:81-91 | a new entry with fresh id, no references and the last place of vRandom |
| `AddrMan.Manager.SwapRandom` | src/addrman.cpp:93-111 | two places of vRandom are exchanged and stay inverse to nRandomPos |
| `AddrMan.Manager.Delete` | src/addrman.cpp:113-125 | the entry leaves every index; all the others keep theirs |
| `AddrMan.Manager.ClearNew` | src/addrman.cpp:127-140 | a new slot is emptied, its entry losing one reference, or disappearing with its last |
| `AddrTables.UnlinkBuckets` | src/addrman.cpp:127-140 | emptying a slot takes one bucket from the address in it and none from any other |
| `AddrTables.LinkBuckets` | src/addrman.cpp:302-305 | filling an empty slot gives one bucket to its address and none to any other |
| `AddrTables.NoRefsNoSlot` | src/addrman.cpp:385-459 | an address without references is in no slot |
| `AddrMan.Manager.LeaveNewBuckets` | src/addrman.cpp:144-154 | an entry that turns tried leaves all its new buckets |
| `AddrMan.Manager.Demote` | src/addrman.cpp:160-183 | the tried entry that is displaced goes back to the new slot of its own source; what was there loses a reference, and disappears exactly if it was the last |
| `AddrMan.Manager.MakeTried` | src/addrman.cpp:142-188 | the entry leaves its new slots for its own tried slot; the one displaced goes back to the new slot of its source, so that no tried entry is lost and only what held that slot alone disappears; no assert fails |
| `AddrMan.Manager.FindNewBucket` | src/addrman.cpp:219-234 | the walk from a random bucket always finds one that holds the entry |
| `AddrMan.AllMissed` | src/addrman.cpp:219-234 | a walk that misses all buckets proves there is no reference |
| `AddrMan.Manager.Good` | src/addrman.cpp:190-240 | exactly a known service with the same port becomes tried, with its statistics set; the others and both tables change only as that move makes them |
| `AddrMan.Manager.Refresh` | src/addrman.cpp:256-283 | a known address is refreshed, and goes on to another slot exactly with news, untried, below eight references and, with n of them, when a draw among 2^n numbers is zero |
| `AddrMan.Manager.AddNew` | src/addrman.cpp:284-289 | an unknown address becomes an entry with its time less the penalty |
| `AddrMan.Manager.Place` | src/addrman.cpp:291-311 | the entry gets its slot exactly when what is there gives way; refused, it disappears exactly when it has no reference |
| `AddrMan.Manager.Add` | src/addrman.cpp:242-313 | the answer is whether the address was unknown, and it is then stored if and only if the slot of its source is empty or its content terrible or with other references; a known one is refreshed, and takes the slot of its source if and only if it may go on to another one and what is there yields; no other slot and no other entry changes, but for a terrible entry that loses its only slot |
| `AddrMan.Manager.AddKnown` | src/addrman.cpp:256-312 | the part for a known address |
| `AddrMan.Manager.AddUnknown` | src/addrman.cpp:284-312 | the part for an unknown one |
| `AddrMan.SelfAnnounced` | src/addrman.cpp:251-254 | no penalty on what a source says of itself; of anything else the time is put back, not below zero |
| `AddrMan.Manager.Attempt` | src/addrman.cpp:315-335 | only the entry of that very service changes, by the attempt |
| `AddrMan.Manager.Connected` | src/addrman.cpp:483-501 | only the entry of that very service changes, in steps of twenty minutes |
| `AddrMan.Manager.SetServices` | src/addrman.cpp:503-519 | only the entry of that very service changes, in its services |
| `AddrMan.Manager.GetAddr` | src/addrman.cpp:462-481 | at most 23 percent and at most 2500 entries, each known, not terrible and taken once; below that limit all such entries |
| `AddrMan.Manager.Run` | src/addrman.cpp:385-459 | every sequence of the public operations goes through states with everything Check_ tests, each from the one before by what its operation does |
| `AddrMan.TriedOverRun` | src/addrman.cpp:142-188 | over any run the tried entries never become fewer, and while nothing is marked good they stay the same, in the same slots |
| `AddrMan.TriedShare` | src/addrman.h:128-130 | in any consistent state at most 512 addresses of one group are tried, in eight buckets |
| `AddrMan.NewShare` | src/addrman.h:120-121 | what one group of sources says lands in at most 64 new buckets |
| `AddrMan.TerribleIff` | src/addrman.cpp:33-51 | when an entry is terrible |
| `AddrMan.GoodIsFine` | src/addrman.cpp:33-51 | an address marked good is not terrible for a minute, nor while it is seen, before ten failures or a week |
| `AddrMan.FailureCountsOnce` | src/addrman.cpp:329-334 | between two addresses marked good only the first failure counts |
| `AddrMan.ConnectSteps` | src/addrman.cpp:497-500 | the time goes up in steps of more than twenty minutes, and is never that far behind |
| `AddrMan.RefreshSteps` | src/addrman.cpp:257-264 | a known time goes up by more than an hour or stays, and is at most a day behind what was heard, an hour for an address that is online; the services are those known or heard |
| `PackedFlags.SetThenTest` | src/cuckoocache.h:92-95 | setting a flag sets it and no other |
| `PackedFlags.UnsetThenTest` | src/cuckoocache.h:103-106 | clearing a flag clears it and no other |
| `PackedFlags.AllSet` | src/cuckoocache.h:61-68 | after setup every flag is set |
| `CuckooCache.Slot` | src/cuckoocache.h:243-253 | the high word of hash times size is a slot of the table |
| `CuckooCache.SlotShare` | src/cuckoocache.h:206-241 | the slots divide the 2^32 hashes evenly, up to one |
| `CuckooCache.SlotsOf` | src/cuckoocache.h:243-253 | the slots of an element are those of its eight hashes |
| `CuckooCache.LiveIsFound` | src/cuckoocache.h:467-477 | an entry not marked for erasure is found by looking at its eight slots |
| `CuckooCache.Cache.Setup` | src/cuckoocache.h:340-353 | a fresh table is valid and has no live entry; its epochs are 45 percent of it, so that two of them fit in it while that number does not wrap, and the first one is waited for in full |
| `CuckooCache.Cache.CountEpoch` | src/cuckoocache.h:295-300 | the scan counts the live entries of the current epoch |
| `CuckooCache.Cache.Age` | src/cuckoocache.h:305-311 | entries of the old epoch become erasable, those of the current one old |
| `CuckooCache.Cache.EpochCheck` | src/cuckoocache.h:289-321 | the older entries become erasable exactly when the counter is out and the epoch full, the counter is set as far as that can be, and the epoch bounds hold again after the next insertion |
| `CuckooCache.Cache.NextLoc` | src/cuckoocache.h:430 | the slot after the last one used; the second slot at first |
| `CuckooCache.NextAround` | src/cuckoocache.h:430 | an element with eight different slots goes round them, and never straight back |
| `CuckooCache.Cache.Keep` | src/cuckoocache.h:398-405 | an element that is still in one of its slots is kept as an entry of the current epoch |
| `CuckooCache.Cache.Displace` | src/cuckoocache.h:431-438 | element and epoch in hand are exchanged with those of a live slot |
| `CuckooCache.Cache.Cuckoo` | src/cuckoocache.h:406-440 | table, epochs and flags are those of a walk that moves the element in hand on until one of its slots may be overwritten; it takes the first such slot, and is lost if and only if there was none in as many moves as the depth limit; the table as a multiset gains the element and loses exactly one entry |
| `CuckooCache.Cache.Insert` | src/cuckoocache.h:392-440 | only when the epoch is full the older entries become erasable; of the entries that then are not, all stay live but at most the one left in hand when the walk, the same as above, reaches the depth limit; the table gains the element and loses one entry, an erasable one unless the walk reaches the limit; an element that is there is kept |
| `CuckooCache.Cache.Contains` | src/cuckoocache.h:467-477 | found exactly when one of the eight slots holds it, always for a live element; erasing marks that one slot |
| `CuckooCache.LiveBound` | src/cuckoocache.h:280-321 | live entries of the current epoch never exceed the epoch size plus the larger of 1 and a sixteenth of it, and all live entries never twice that |
| `FloatSpec.NearestOfAll` | src/fpr.cpp:139-507 | the specification means what IEEE 754-2008 section 4.3.1 says: no normal number is nearer to the exact value |
| `FloatSpec.NearestEvenUnique` | src/fpr.cpp:139-507 | the specification admits one result only |
| `FloatWords.RoundSticky` | src/fpr.h:203-214 | dropping two bits by the 0xC8 table rounds to nearest, ties to even, whatever stands behind the sticky bit |
| `FloatWords.RoundUpIsTable` | src/fpr.h:212-213 | the table is the bit pattern 0xC8 |
| `FloatWords.PackValue` | src/fpr.h:174-215 | from exponent -1076 on packing gives the rounded mantissa, a carry going right into the exponent |
| `FloatWords.PackLow` | src/fpr.h:166-186 | below that a zero of the same sign is packed |
| `FloatWords.PackRounds` | src/fpr.h:174-215 | packing a sticky 55-bit mantissa of a value in range gives the correctly rounded number |
| `FloatWords.PackDelivers` | src/fpr.h:159-215 | packing a sticky mantissa delivers its exact value: rounded if it is in the normal range, a zero of its sign if it lies below |
| `FloatWords.DropSticky` | src/fpr.cpp:193-219 | dropping bits with a sticky bit loses nothing that rounding needs |
| `SoftFloat.DropIsShift` | src/fpr.cpp:196-198 | the source's or-and-add form of a sticky shift |
| `SoftFloat.NormStep` | src/fpr.cpp:46-79 | one step of the normalisation |
| `SoftFloat.Norm64` | src/fpr.cpp:46-79 | a word that is not zero ends with its top bit set, the exponent reduced by the places it moved |
| `SoftFloat.Scale` | src/fpr.cpp:82-135 | the integer times a power of two, correctly rounded; zero of its sign below the normal range |
| `SoftFloat.SwapBitIs` | src/fpr.cpp:157-163 | the operands are swapped exactly when the first is smaller in magnitude, or equal and negative |
| `SoftFloat.NoLossWhenSmall` | src/fpr.cpp:189-211 | massive cancellation only happens when nothing was shifted out |
| `SoftFloat.AddFar` | src/fpr.cpp:184-191 | an operand 60 places below is dropped without a sticky bit, and the result is still the nearest |
| `SoftFloat.Add` | src/fpr.cpp:139-244 | the correctly rounded sum, a zero of its sign below the normal range; an exact zero is positive unless both operands are negative |
| `SoftFloat.MulLimbs` | src/fpr.cpp:258-283 | the 106-bit product from 25-bit limbs |
| `SoftFloat.StickyLimbs` | src/fpr.cpp:285-294 | the carry trick detects exactly the non-zero low limbs |
| `SoftFloat.Mul` | src/fpr.cpp:248-341 | the correctly rounded product, a zero of its sign below the normal range; of a zero, zero with the right sign |
| `SoftFloat.DivideBits` | src/fpr.cpp:359-373 | 55 quotient bits and the remainder |
| `SoftFloat.Div` | src/fpr.cpp:345-429 | the correctly rounded quotient, a zero of its sign below the normal range; zero for a zero dividend |
| `SoftFloat.RootBits` | src/fpr.cpp:467-480 | the bitwise root is the integer root, with twice what is left over |
| `SoftFloat.Sqrt` | src/fpr.cpp:433-507 | the correctly rounded square root; zero for zero |
| `SoftFloat.Rint` | src/fpr.h:247-293 | the nearest integer, ties to even |
| `SoftFloat.Trunc` | src/fpr.h:337-369 | the integer part towards zero |
| `SoftFloat.Floor` | src/fpr.h:295-335 | the integer part towards minus infinity if and only if the operand is not negative zero, which gives -1 |
| `MerkleTree.InTreeIffWidth` | src/merkleblock.h:66-68 | a node exists exactly below the computed width of its level |
| `MerkleTree.WalkSound` | src/merkleblock.cpp:78-114 | from arbitrary bits and hashes, a traversal that ends without error at the true hash of a node reports only transactions of the block at their own places |
| `MerkleTree.WalkOrdered` | src/merkleblock.cpp:78-114 | matches come in block order without repetition |
| `MerkleTree.WalkComplete` | src/merkleblock.cpp:78-114 | on the data built for a node the traversal gives its hash and exactly the selected transactions, using exactly that data |
| `MerkleTree.HashIsInRow` | src/merkleblock.cpp:40-58 | the hash of a node is the one at its place when the tree is built row by row, a last hash without a neighbour being combined with itself |
| `MerkleTree.ProofIsWalked` | src/merkleblock.cpp:78-115 | the traversal of a proof, a tree of the right form without equal siblings, gives the hash it proves and the transactions it shows, and does not look at what follows it |
| `MerkleTree.WalkedIsProof` | src/merkleblock.cpp:78-115 | a traversal without error has read such a proof |
| `MerkleTree.ProofHashesFew` | src/merkleblock.cpp:140-145 | a proof has no more hashes than there are transactions, nor than it has flags, so that these two tests reject no proof |
| `MerkleTree.SiblingsDiffer` | src/merkleblock.cpp:101-107 | with distinct transactions the identical-branch check never fires |
| `MerkleTree.HashesAtMostLeaves` | src/merkleblock.h:36-40 | no more hashes than transactions |
| `MerkleTree.HashesAtMostPaths` | src/merkleblock.h:36-40 | no more hashes than one plus the height for every match |
| `MerkleTree.BitCount` | src/merkleblock.h:47 | the number of bits is 2N - 1 plus the only children on the way, so the documented bound holds if and only if there are none |
| `MerkleTree.OnlyChildrenFew` | src/merkleblock.cpp:60-76 | at most one node per level lacks its sibling, and none below a node with all its transactions |
| `MerkleTree.BitBoundFails` | src/merkleblock.h:47 | three transactions, the last matched: 4 bits for 2 hashes |
| `MerkleBlock.SizeGuarantee` | src/merkleblock.h:30-49 | the promised bound on the serialized size holds if and only if there are less than 253 hashes, or at most 65535 and the only children add no flag byte, or up to two while these are counted in one byte |
| `MerkleBlock.SizeBoundFails` | src/merkleblock.h:30-49 | 65536 matched transactions take two bytes more |
| `MerkleBlock.RootHeight` | src/merkleblock.cpp:121-124 | the least height with a single node |
| `MerkleBlock.PackBits` | src/merkleblock.h:99-103 | bits packed least significant first, zeros after them |
| `MerkleBlock.UnpackBits` | src/merkleblock.h:92-98 | bit p is bit p mod 8 of byte p / 8 |
| `MerkleBlock.PackRoundTrip` | src/merkleblock.h:88-105 | unpacking gives the bits back, padded with zeros |
| `MerkleBlock.ExtractSound` | src/merkleblock.cpp:132-163 | a successful extraction with the block's root reports only its transactions, at their indexes, in order |
| `MerkleBlock.ExtractComplete` | src/merkleblock.cpp:132-163 | from the data built for a block and a mask, with padded bits, the true root and exactly the matched transactions |
| `MerkleBlock.AcceptsProofs` | src/merkleblock.cpp:132-163 | up to the greatest number of transactions exactly the proofs are accepted, with all hashes used and all flags but the padding of the last byte |
| `MerkleBlock.NoPadding` | src/merkleblock.cpp:156-161 | an accepted proof with more hashes, or flags beyond the last byte, is not accepted |
| `MerkleBlock.PartialMerkleTree.constructor` | src/merkleblock.cpp:116-128 | the stored bits and hashes are those of the tree |
| `MerkleBlock.PartialMerkleTree.TraverseAndBuild` | src/merkleblock.cpp:60-76 | appends the bits and hashes of a node, depth first |
| `MerkleBlock.PartialMerkleTree.TraverseAndExtract` | src/merkleblock.cpp:78-114 | the imperative traversal is the functional one, with its counters and error flag |
| `MerkleBlock.PartialMerkleTree.ExtractMatches` | src/merkleblock.cpp:132-163 | the root and matches of the extraction, or the zero hash; an error stays |
| `MerkleBlock.Relay` | src/merkleblock.cpp:116-163 | built, packed, unpacked and extracted, a filtered block yields its root and exactly the selection |
| `Mempool.LeftAdd` | src/miner.cpp:248-273 | one more transaction in the block takes its share from exactly the packages it is part of |
| `Miner.Take` | src/miner.cpp:258-269 | a descendant's totals are its full ones less those of the ancestors that went into the block since it was last erased, the first at its modified fee and the others at their plain fee |
| `Miner.UpdatePackagesForAdded` | src/miner.cpp:248-273 | after a package went in, so it is for every modified entry, exactly the descendants outside were added, and no other entry has such ancestors |
| `Miner.ComesBackExact` | src/miner.cpp:259-264 | an entry that was erased and comes back counts its package exactly if and only if no other ancestor of it is in the block, and its fees if and only if the modified fees of those add up to nothing |
| `Miner.TotalsOff` | src/miner.cpp:258-269 | how far size and fees of a modified entry are from those of what is left of its package; the size is right if and only if no ancestor was in the block when it was last erased |
| `Miner.FeesExact` | src/miner.h:108-120 | the fees of a modified entry that was never erased are those of what is left if and only if the differences between modified and plain fee of its ancestors in the block, but for the first, add up to nothing; so they are without prioritised ancestors |
| `Miner.NotBetterTrans` | src/txmempool.h:273-311 | the comparison by the smaller of own and package fee rate, then by hash, is a consistent order |
| `Miner.BetterIff` | src/txmempool.h:273-311 | better is a higher fee rate per byte, by the smaller of own and package rate, or the same with a smaller hash |
| `Miner.BestModified` | src/miner.cpp:345 | no modified entry is better than the first in that order |
| `Miner.SortForBlock` | src/miner.cpp:290-299 | each entry of the package once, by ancestor count and hash |
| `Miner.AncestorsFirst` | src/miner.h:76-86 | in that order ancestors come first |
| `Miner.BlockAssembler.constructor` | src/miner.cpp:68-105 | the weight limit is the one asked for, or the nearer end of the range from 4000 to the consensus limit less 4000; an empty block |
| `Miner.BlockAssembler.AddToBlock` | src/miner.cpp:229-246 | totals stay exact, the block closed under ancestors, in order and without duplicates |
| `Miner.BlockAssembler.AddPackage` | src/miner.cpp:428-432 | a sorted package goes in whole and leaves the modified entries |
| `Miner.PackageFits` | src/miner.cpp:204-212 | what is added weighs at most four times what was tested |
| `Miner.BlockAssembler.Attempt` | src/miner.cpp:385-437 | a package is added whole, exactly if its totals fit and all of it is final, and the limits hold although totals may count too much |
| `Miner.BlockAssembler.Choose` | src/miner.cpp:341-365 | no modified entry, nor the next of the index, is better than the candidate chosen; its totals cover what is left of its package |
| `Miner.BlockAssembler.TryPackage` | src/miner.cpp:385-437 | one round of the loop does what its record says: taken, or turned down with the block and totals of that moment |
| `Miner.BlockAssembler.Select` | src/miner.cpp:332-438 | the loop ends by a lexicographic measure; the block is what the recorded rounds make of it, each of which chooses the best of all open entries of an index without repetition, with the totals that the rounds before determine, and takes it exactly if it is above the floor, fits and is final |
| `Miner.BlockAssembler.AddPackageTxs` | src/miner.cpp:311-439 | for every index and fee floor the block stays closed under ancestors, in order, without duplicates, within weight and below the sigop cap, and the assert holds; it comes from such a run of rounds, in which, for an index without repetition, an entry that was turned down is a candidate again only after one of its ancestors went in, and which stops when no entry is open, or as soon as the best is below the floor, or as soon as the block is nearly full after more than a thousand failures |
| `Miner.BlockAssembler.Chosen` | src/miner.cpp:341-378 | the candidates of a round are exactly the open entries of an index without repetition, and none is better than the chosen one |
| `Miner.TurnedReason` | src/miner.cpp:385-419 | an entry was turned down only when, with the totals it had, it did not fit or was not final |
| `Miner.FailsAgain` | src/miner.cpp:278-283 | an entry that was turned down fails again with its full totals, however the block has grown |
| `Miner.NothingLeft` | src/miner.cpp:332-438 | when no entry is open any more, none that is left could be taken with its full totals |
| `Miner.RoomForAll` | src/miner.cpp:204-227 | when there is room for the whole mempool, no entry is ever turned down |
| `Miner.BlockAssembler.EverythingGoesIn` | src/miner.cpp:311-439 | and all of the index goes in, unless the fee floor ends the selection |
| `Miner.FloorStop` | src/miner.cpp:380-383 | when the best candidate is below the floor, nothing left scores above its package fee rate |
| `Miner.PackageAbove` | src/miner.cpp:380-383 | that bounds a package rate as well if and only if its own transaction pays at least that rate |
| `Miner.FloorMisses` | src/miner.cpp:380-383 | a run that stops at the floor and leaves a package above it |
| `CompactSlots.PlaceNext` | src/blockencodings.cpp:58-73 | a prefilled transaction lands in an empty slot above the ones before |
| `CompactSlots.PoolMatchIs` | src/blockencodings.cpp:112-125 | in the mempool a slot has nothing if and only if no entry matches, and a transaction if and only if exactly one does, which it is |
| `CompactSlots.ExtraMatchIs` | src/blockencodings.cpp:138-156 | what is known stays while all extra transactions that match have its witness hash; of nothing known comes the first that matches, if all that match have its witness hash; otherwise the slot is empty |
| `CompactBlocks.PartiallyDownloadedBlock.Prefill` | src/blockencodings.cpp:58-73 | fails exactly on a null transaction, an index over 16 bits or one with too few short ids before it; else all are in their slots |
| `CompactBlocks.PartiallyDownloadedBlock.SkipFilled` | src/blockencodings.cpp:83-84 | with less than 65536 slots taken, finds the next empty slot, never out of range |
| `CompactBlocks.PartiallyDownloadedBlock.BuildTable` | src/blockencodings.cpp:80-102 | the i-th short id maps to the 16-bit number of the i-th slot not prefilled; gives up exactly for crowding or equal ids |
| `CompactBlocks.PartiallyDownloadedBlock.MatchPool` | src/blockencodings.cpp:109-125 | a first match fills the slot, a second empties it for good; the count follows |
| `CompactBlocks.PartiallyDownloadedBlock.MatchExtra` | src/blockencodings.cpp:135-157 | the same, except that the same witness hash again does not count |
| `CompactBlocks.PartiallyDownloadedBlock.ScanPool` | src/blockencodings.cpp:104-132 | left as soon as as many slots have a transaction as there are short ids, and only then |
| `CompactBlocks.PartiallyDownloadedBlock.ScanExtra` | src/blockencodings.cpp:134-163 | left as soon as as many slots have a transaction as there are short ids, and only then |
| `CompactBlocks.PartiallyDownloadedBlock.InitData` | src/blockencodings.cpp:48-168 | invalid exactly for a malformed message, failed exactly for equal or crowded short ids; else every slot holds what the short ids with its number were found to stand for, and the counts are those of prefilled slots and of slots with such a transaction; the extra count changes, in 64 bits, like the latter; up to 65536 transactions every slot has its own short id |
| `CompactBlocks.SlotsFit` | src/blockencodings.cpp:80-85 | the 16-bit slot numbers name the empty slots if and only if the message has at most 65536 transactions |
| `CompactBlocks.Describe` | src/blockencodings.cpp:80-163 | then the i-th empty slot holds what short id i stands for, and every prefilled one what was sent |
| `CompactBlocks.SearchEnds` | src/blockencodings.cpp:81-84 | the search for an empty slot ends if and only if less than 65536 slots are prefilled or there is no short id |
| `CompactBlocks.WellFormedIff` | src/blockencodings.cpp:48-78 | the messages that are not invalid are exactly those that describe a block, with the number of places between the transactions that are sent |
| `CompactBlocks.KnownIsFound` | src/blockencodings.cpp:104-163 | a mempool transaction that alone has the short id is found, however early the scan ends, unless an extra one that differs has it too |
| `CompactBlocks.EndlessMessage` | src/blockencodings.cpp:48-84 | a message that passes all tests and for which it does not end |
| `CompactBlocks.PartiallyDownloadedBlock.FillBlock` | src/blockencodings.cpp:176-218 | missing transactions fill the empty slots in order; invalid exactly for too few, the slots before the first one lacking being emptied, or too many, everything being cleared |
| `CompactBlocks.MakeCompact` | src/blockencodings.cpp:18-28 | the first transaction whole, the others as short ids in order |
| `CompactBlocks.SameShortIds` | src/blockencodings.cpp:22-27 | short ids depend on the witness hashes alone, or on the other hashes alone |
| `CompactBlocks.SlotsAgree` | src/blockencodings.cpp:48-168 | without collisions every slot is empty or holds the block's own transaction |
| `CompactBlocks.Rebuilt` | src/blockencodings.cpp:176-190 | filling such slots with the missing transactions gives the block |
| `CompactBlocks.CodeIndexes` | src/blockencodings.h:63-66 | differences less one, in 64 bits |
| `CompactBlocks.ReadIndexes` | src/blockencodings.h:43-61 | refuses exactly the lists with no 16-bit reading |
| `CompactBlocks.CodedIsRead` | src/blockencodings.h:42-67 | increasing 16-bit indexes are read back as sent |
| `CompactBlocks.ReadIsIncreasing` | src/blockencodings.h:55-61 | what is read is increasing, and would be sent as it came, if and only if the differences and their number less one add up to at most 65535 |
| `CompactBlocks.WrappedRead` | src/blockencodings.h:55-61 | the differences 65535, 0 are read as 65535, 0 |
| `CompactBlocks.Relay` | src/blockencodings.cpp:18-190 | construct, InitData, request and FillBlock rebuild the block exactly, unless its short ids collide or crowd |
| `RollingBloom.WriteBitAt` | src/bloom.cpp:273-274 | clear-and-or writes one bit of a word |
| `RollingBloom.WipeBits` | src/bloom.cpp:256-263 | the mask removes exactly the positions of the reused generation |
| `RollingBloom.WipeStamp` | src/bloom.cpp:250-265 | starting a generation wipes exactly what is three generations old |
| `RollingBloom.InsertStep` | src/bloom.cpp:248-276 | at every position an insert stamps, wipes or keeps as the history says |
| `RollingBloom.SeedsDiffer` | src/bloom.cpp:244-246 | the hash functions of a filter have different seeds |
| `RollingBloom.PositionIff` | src/bloom.cpp:269-274 | every position is that of equally many hashes |
| `RollingBloom.WindowHolds` | src/bloom.h:113-114 | the keys remembered are at least the last nElements and at most one and a half times as many, rounded up |
| `RollingBloom.RecentIsContained` | src/bloom.h:113-114 | each of the last nElements keys is contained |
| `RollingBloom.RollingBloomFilter.constructor` | src/bloom.cpp:216-241 | generations of half the elements, all positions empty |
| `RollingBloom.RollingBloomFilter.Reset` | src/bloom.cpp:304-312 | an empty history |
| `RollingBloom.RollingBloomFilter.Wipe` | src/bloom.cpp:259-264 | every position of the generation is emptied, the others kept |
| `RollingBloom.RollingBloomFilter.Mark` | src/bloom.cpp:269-274 | one position is stamped, the others kept |
| `RollingBloom.RollingBloomFilter.Insert` | src/bloom.cpp:248-276 | the words refine the map from positions to generations of the whole history |
| `RollingBloom.RollingBloomFilter.Contains` | src/bloom.cpp:284-296 | the answer is exactly that of a plain Bloom filter of the current generation and the two before it |
| `ArithUint.Assign` | src/arith_uint256.h:94-101 | a 64-bit value in limbs |
| `ArithUint.Add` | src/arith_uint256.h:141-151 | the sum modulo the width, also with itself |
| `ArithUint.Increment` | src/arith_uint256.h:179-186 | plus one modulo the width |
| `ArithUint.Complement` | src/arith_uint256.h:75-81 | all ones less the value |
| `ArithUint.Negate` | src/arith_uint256.h:83-90 | the negative modulo the width |
| `ArithUint.Subtract` | src/arith_uint256.h:153-157 | the difference modulo the width, also with itself |
| `ArithUint.ShiftLeft` | src/arith_uint256.cpp:24-38 | times a power of two, modulo the width, for every shift |
| `ArithUint.ShiftRight` | src/arith_uint256.cpp:41-55 | divided by a power of two, for every shift |
| `ArithUint.MultiplySmall` | src/arith_uint256.cpp:58-67 | times a 32-bit number, modulo the width |
| `ArithUint.ProductBound` | src/arith_uint256.cpp:77-79 | carry, limb and product fit in 64 bits |
| `ArithUint.MultiplyAssign` | src/arith_uint256.cpp:70-83 | the product modulo the width; zero when multiplied by itself in place |
| `ArithUint.Multiply` | src/arith_uint256.h:218 | the product modulo the width |
| `ArithUint.CompareTo` | src/arith_uint256.cpp:112-121 | the order of the values |
| `ArithUint.EqualTo` | src/arith_uint256.cpp:124-135 | whether the value is a given 64-bit number |
| `ArithUint.BitLength` | src/arith_uint256.cpp:174-186 | the position of the highest bit plus one, zero for zero |
| `ArithUint.DivideStep` | src/arith_uint256.cpp:98-105 | quotient times divisor plus rest stays the dividend |
| `ArithUint.Divide` | src/arith_uint256.cpp:86-109 | the integer quotient; refused exactly for zero |
| `CompactTarget.SetCompact` | src/arith_uint256.cpp:206-224 | mantissa times a power of 256; the negative and overflow flags are exact |
| `CompactTarget.OverflowIs` | src/arith_uint256.cpp:219-222 | the three tests are exactly the numbers of more than 256 bits |
| `CompactTarget.GetLow64` | src/arith_uint256.h:251-255 | the value modulo 2^64 |
| `CompactTarget.GetCompact` | src/arith_uint256.cpp:226-247 | the least size whose sign bit stays clear, the three highest bytes, and the sign on a mantissa that is not zero; both asserts hold |
| `CompactTarget.CompactPrecision` | src/arith_uint256.cpp:226-247 | nothing is added and less than one part in 32768 lost |
| `CompactTarget.CompactIdempotent` | src/arith_uint256.cpp:206-247 | a form made from a number, read and made again, is the same |
| `CompactTarget.CompactRoundTrip` | src/arith_uint256.cpp:206-247 | the same over the methods, without negative or overflow |
| `CompactTarget.RoomForOne` | src/chain.cpp:127-133 | a target that fits is never all ones, so the divisor is never zero |
| `CompactTarget.GetBlockProof` | src/chain.cpp:121-134 | 2^256 divided by the target plus one, rounded down; zero for a negative, zero or overflowing target |
| `WordBytes.Load64` | src/fips202.cpp:28-35 | the little-endian value of eight bytes |
| `WordBytes.Store64` | src/fips202.cpp:45-49 | the eight bytes whose little-endian value is the word: the inverse of Load64 |
| `WordBytes.XorByteAt` | src/fips202.cpp:448-450 | exclusive or with a shifted byte changes that one byte |
| `Keccak.StoreWords` | src/fips202.cpp:400-402 | words stored one after the other are the first bytes of the state |
| `Sponge.FinalIsPadded` | src/fips202.cpp:478-484 | suffix and last bit over the state amount to absorbing the padded message of section 4 of NIST FIPS 202, but for the last permutation |
| `Sponge.PartialFill` | src/fips202.cpp:446-457 | a completed block is permuted in |
| `Sponge.PartialMore` | src/fips202.cpp:459-462 | bytes that do not fill the block are put over the state |
| `Keccak.IncContext.constructor` | src/fips202.cpp:418-425 | the zero state |
| `Keccak.IncContext.Absorb` | src/fips202.cpp:441-463 | the state depends only on the concatenated message, and the 26th word stays below the rate |
| `Keccak.IncContext.Finalize` | src/fips202.cpp:478-484 | the padded state, with no byte given out |
| `Keccak.IncContext.Squeeze` | src/fips202.cpp:499-524 | the next bytes of the sponge output, however it is cut |
| `Keccak.Absorb` | src/fips202.cpp:350-381 | one-shot absorbing leads to the same state if and only if the suffix is below 128 or does not fall on the last byte of a block |
| `Keccak.SqueezeBlocks` | src/fips202.cpp:396-406 | whole blocks of the output |
| `Keccak.Shake256` | src/fips202.cpp:736-755 | the sponge output with rate 136 and suffix 0x1F |
| `Keccak.Shake256Incremental` | src/fips202.cpp:560-579 | any cut of message and output into calls gives the same bytes as the one-shot function |
| `BlockTree.LowestOne` | src/chain.cpp:69-70 | the lowest one is taken away and nothing else |
| `BlockTree.SkipGoesDown` | src/chain.cpp:73-81 | a skip always goes down |
| `BlockTree.OddSkip` | src/chain.cpp:73-81 | from an odd height in the upper half of a block of 2^(d+1) heights the skip leaves that half or loses two ones |
| `BlockTree.EvenCross` | src/chain.cpp:91-104 | from an even one the turn loses a one, or the turn after it does |
| `BlockTree.TurnsBound` | src/chain.cpp:83-108 | the search from a height below 2^m takes at most m * m turns to any target |
| `BlockTree.GetAncestor` | src/chain.cpp:83-108 | the same block as the plain walk over parents; none exactly for a height out of range; the assert holds; with all skip pointers built, exactly the turns that the heights determine, at most m * m for heights below 2^m |
| `BlockTree.BuildSkip` | src/chain.cpp:115-119 | the skip pointer is the ancestor at the skip height, and the tree keeps its invariant |
| `BlockTree.AddToIndex` | src/validation.cpp:2849-2862 | a tree grown block by block satisfies the invariant and has every skip pointer built |
| `Chain.CChain.Heights` | src/chain.h:499-515 | the height of the chain is that of its tip, or -1; a block is in the chain exactly if it is found at its height |
| `Chain.CChain.SameChain` | src/chain.h:494-497 | chains are the same if and only if they are as long and have the same tip |
| `Chain.CChain.SetTip` | src/chain.cpp:11-21 | the early stop still leaves exactly the path to the tip |
| `Chain.InPlace` | src/chain.cpp:17-20 | a path that holds an ancestor at its height holds all lower ones |
| `Chain.CChain.GetLocator` | src/chain.cpp:23-49 | the ancestors at doubling offsets, the first block last and once |
| `Chain.LocatorDecreases` | src/chain.cpp:23-49 | heights strictly decrease |
| `Chain.LocatorLength` | src/chain.cpp:23-49 | at most m + 11 entries from height 2^m + 9 |
| `Chain.LocatorReaches` | src/chain.cpp:23-48 | a block at any depth has an entry at or below it, at no more than twice that depth; down to a depth of ten every block is an entry |
| `Chain.CChain.FindFork` | src/chain.cpp:51-60 | the highest block of the chain among a block and its ancestors, none exactly if there is none |
| `Chain.LastCommonAncestor` | src/chain.cpp:155-170 | the highest common block, none if there is none; the assert holds |
| `Radix.Canonical` | src/base58.cpp:62-70 | every digit string is its leading zeros and the digits of its value |
| `Radix.DecodeRoom` | src/base58.cpp:37 | the 733/1000 buffer holds every value, for all lengths |
| `Radix.EncodeRoom` | src/base58.cpp:84 | the 138/100 buffer holds every value, for all lengths |
| `Base58.StrChr` | src/base58.cpp:21-22 | the digit of a character is its place in the alphabet |
| `Base58.AcceptsIff` | src/base58.cpp:24-71 | accepted are exactly the base-58 texts with any spaces before and after them, and that text is decoded |
| `Base58.RecodeInverse` | src/base58.cpp:24-112 | recoding there and back changes nothing |
| `Base58.EncodeDecode` | src/base58.cpp:24-112 | decoding an encoding gives back the bytes, for all byte strings |
| `Base58.DecodeEncode` | src/base58.cpp:24-112 | encoding a decoding gives back the text without the spaces around it, for all accepted texts |
| `Base58.MulAdd` | src/base58.cpp:45-53 | multiply-and-add in place; the carry left is zero |
| `Base58.Strip` | src/base58.cpp:62-65 | the digits of the value |
| `Base58.EncodeBase58` | src/base58.cpp:74-112 | leading zeros as ones, then the value in base 58 |
| `Base58.DecodeBase58` | src/base58.cpp:24-72 | accepts exactly base-58 text with spaces around it, and gives its bytes |
| `Base58.DecodeString` | src/base58.cpp:119-122 | the text ends at the first NUL |
| `BitStrings.Push` | src/codec.cpp:61 | shifting a field in appends its bits, whatever the accumulator holds above them |
| `BitStrings.Pop` | src/codec.cpp:99-100 | the field above the last bits comes off the front |
| `Codec.EncodeFields` | src/codec.cpp:57-71 | the bytes are the fields one after the other and zero bits up to the next byte |
| `Codec.ModqEncode` | src/codec.cpp:36-72 | refuses exactly a value not below q or too little room; else the packed values |
| `Codec.ModqDecode` | src/codec.cpp:76-111 | gives the values exactly for bytes that pack values below q |
| `Codec.ModqRoundTrip` | src/codec.cpp:36-111 | encoding and decoding are inverse both ways, so every accepted input is canonical |
| `Codec.SignExtendedIs` | src/codec.cpp:280-288 | sign extension by or-ing the negated sign bit |
| `Codec.TrimI8Encode` | src/codec.cpp:209-249 | refuses exactly a value out of range or too little room; else the packed two's complements |
| `Codec.TrimI8Decode` | src/codec.cpp:253-298 | gives the values exactly for bytes that pack values in range |
| `Codec.TrimRoundTrip` | src/codec.cpp:209-298 | encoding and decoding are inverse both ways |
| `CompCodec.CompEncode` | src/codec.cpp:302-394 | refuses exactly a value out of range or too little room; else sign, seven bits and unary part of each value, and zero bits |
| `CompCodec.CompDecode` | src/codec.cpp:398-452 | the first n values of the bit string and the bytes they reach into; zero exactly if there are none such |
| `CompCodec.ParseOf` | src/codec.cpp:398-452 | reading an encoding gives back its values, whatever follows it |
| `CompCodec.ParseForm` | src/codec.cpp:398-452 | what is read is the encoding of the values if and only if none was zero with a minus sign |
| `CompCodec.Canonical` | src/codec.cpp:398-452 | the bytes that were read are the encoding of the values if and only if none was zero with a minus sign and the bits left over in the last byte are zero |
| `CompCodec.CompRoundTrip` | src/codec.cpp:302-452 | decoding an encoding returns the values and exactly its length |
| `CompCodec.MinusZeroAccepted` | src/codec.cpp:446-449 | minus zero is accepted |
| `CompCodec.MinusZeroNeverMade` | src/codec.cpp:302-394 | no input with a minus zero starts with an encoding of that many values |
| `CompCodec.PaddingAccepted` | src/codec.cpp:398-452 | the bytes 0x00 0xC0 are read as one zero, whose encoding is 0x00 0x80 |

## Left out

- SHA-256, SipHash, MurmurHash3 and the Keccak permutation are parameters: any function in their place.
- The Merkle results take the hash as a function on pairs that is injective where soundness and
  completeness need it, and a fixed number as the zero hash.
- Randomness, clocks, the network and the order in which hash maps and sets are walked are parameters
  or arbitrary choices; results hold for all of them.
- Memory allocation failures, logging, and locks outside the check queue.
- The LevelDB wrapper, crash recovery of a half-written batch and the write-batch sizes: the base of the
  coins stack is a map.
- `Coin` memory use counts the script's length; the spare capacity of its vector is not modelled.
- The mempool behind the miner: ancestors, descendants and their cached totals are taken as correct, and
  a transaction's weight as at most four times its virtual size.
- Miner.BlockAssembler.Choose: fee rates are compared exactly, by products of integers; the source multiplies
  doubles.
- The choice of one address at random (`Select_`) and the file format of the address manager, and the
  sizing formulas of both Bloom filters, which are floating point and probability.
- CheckQueue.StepInv: the checks themselves are functions with a fixed verdict, and swapping them out of
  the queue cannot fail; that there is one controller at a time is built in, as one master thread.
- CompactBlocks.PartiallyDownloadedBlock.InitData: a message whose search does not end is excluded
  (`CompactBlocks.SearchEnds`). The bucket sizes of its hash table are an arbitrary test.
- CompactBlocks.PartiallyDownloadedBlock.FillBlock: block validation is a parameter.
- CuckooCache.Cache.Setup: the depth limit, a logarithm in single precision, is a parameter.
- RollingBloom.RollingBloomFilter.constructor: any positive number of filter bits; false-positive rates are
  not modelled.
- SoftFloat.Add: results that are too large are not specified, as in the source; nor are infinities and NaN,
  which it does not represent.
- SoftFloat.Rint: for magnitudes below 2^63, as the source requires; so are the floor and truncation.
- Chain.CChain.GetLocator: the step is an unbounded integer.
- The fast Fourier transform, key generation and signing of Falcon, and the constant tables.
- `trim_i16` of the Falcon codecs, hexadecimal and floating-point conversions of the 256-bit integers,
  and base-58 checksums would repeat what is here.
- Script evaluation, transaction and block validation, networking, RPC, the wallet and start-up code.
