# Verified model of rv32emu's core data structures and devices

This project models seven parts of the RISC-V emulator rv32emu in Dafny and proves what they are
for. Everything the source updates in place is updated in place here too (classes, arrays,
fields), and each such method is proved against a specification function whose own properties
are proved beside it.

- **Red-black map** (`RbTree.dfy`, `RbMap.dfy`; src/map.c). Mutable nodes without parent
  pointers; insertion and removal record a root-to-leaf path in an array of fixed size and
  unwind it, rotating and recolouring. A ghost tree says what the nodes look like. Every unwind
  case, the successor swap and the splice are covered; the path array never overflows below
  2^64 - 1 nodes.
- **Macro-operation fusion** (`Fusion.dfy`, `FusionBits.dfy`, `FusionPatterns.dfy`, `FusionBlock.dfy`,
  `FusionHart.dfy`, `LazyFusion.dfy`, `LazyPatterns.dfy`, `LazyFusionBlock.dfy`,
  `LazyFusionEntry.dfy`, `LazyFusionHart.dfy`; src/emulate.c). The pass that rewrites the linked
  instruction list, the fused and plain handlers, what these compute bit by bit, which instructions
  are fused, and the theorem that running the rewritten list is running the original one. For
  systems with device memory: the marking of load and store runs, when the addresses checked as a
  block is entered are the addresses used later, and the fusing of checked runs one by one in a
  block that runs in between.
- **Block map** (`BlockMap.dfy`; src/emulate.c, src/riscv.c). Linear probing under an arbitrary
  hash with a direct-mapped cache in front, as a finite map.
- **AES** (`Aes.dfy`, `AesSbox.dfy`, `AesC3.dfy`, `AesC3Unit.dfy`, `AesC6.dfy`; src/esp32c3.c,
  src/esp32c6.c). The byte-wise and the word-wise engine against one reference cipher (FIPS-197,
  sections 5.1 to 5.3), whose two directions are inverse and whose substitution table is the affine
  map of the inverse in GF(2^8); multi-block CBC (NIST SP 800-38A, section 6.2) with the initial
  vector in registers.
- **Polled timers and PWM** (`Timers.dfy`, `Mcpwm.dfy`, `McpwmDuty.dfy`; src/esp32c3.c,
  src/esp32c6.c). Counters with a kept remainder and an alarm, and the catch-up loop of the PWM
  unit: nothing depends on how polling splits the cycles, and the outputs are the usual wave forms.
- **Block cache** (`Cache.dfy`, `CacheCount.dfy`; src/cache.c). Live and evicted entries in lists and
  hash chains refine a bounded map that evicts the entry put longest ago and counts uses, over
  evictions too; the page index finds what a scan of the list would find.
- **Pool allocator and guest memory** (`Mpool.dfy`, `GuestMemory.dfy`; src/mpool.c, src/io.c). A
  free list threaded through the same bytes as the users' data, growing on exhaustion; accesses
  only through opened chunks, whose pages are supplied and dropped underneath, that look like flat
  zeroed memory.

`Common.dfy` holds the option type and machine words, `Arith.dfy` powers of two and the facts about
division that several modules use.

## Conventions

Machine words are numbers below 2^32 (or 2^64) with the wrap-around written out; bytes and words
on which the AES engines work bit by bit are bit-vectors in a one-field datatype. Calls into code
outside the model are parameters: memory and system-call callbacks (`Fusion.Env`), hash
functions, and whether an allocation, a mapping or a protection change succeeds. Ghost parameters
and ghost fields only carry the picture of the data structure that a proof needs.

Some predicates say `P` of a value as `forall u :: u == x ==> P(u)`. That means `P(x)`; the detour
keeps the definition of `P` out of proofs that only pass the fact on.

## False or conditional properties

- A load into x0 can break fusion: the load handlers, of words and of bytes and halfwords alike,
  write x0, and the fused system call and the fused counter take it to be zero. A `nop`, which
  every computation into x0 is decoded as, clears x0 again (src/rv32_template.c:28).
  `Fusion.FuseExact` says exactly when a rewritten block still does what it did, and
  `Fusion.FusePreserves` gives a condition on the rewritten list that a caller can check.
  `Fusion.ZeroSafeNeeded` shows that for system calls this condition is needed in every block;
  `Fusion.CounterExact` says for which counters it is, as long as the block leaves their register
  alone before; and `Fusion.LoadIntoZeroDiffers` is a concrete block. Nothing is asked of
  instructions that the block does not contain; those of the block that the model does not look
  into do to x0 what `zero` says: they keep it, clear it (as c.li of 0 does) or may write it. The
  halves that conclude from equal runs that x0 was zero assume a system call that can tell its
  states apart (`Fusion.TellsApart`). Constant folding, which comes before the pass and is not
  modelled, takes x0 for a constant until an instruction unmarks it, as a load into x0 does, and
  turns the `addi a7, x0, k` of a system call into a LUI (src/rv32_constopt.c:112-121): in the
  emulator the fused system call only arises after such an instruction.
- The mask of written registers, which the marking of load and store runs relies on, only sees
  destination fields. It misses loads into x0, which the comment on src/emulate.c:1732 takes to be
  impossible, and c.srli, c.srai and c.andi, which keep their destination in `rs1`. So the
  addresses checked for the marked runs of a block are the ones used, in every interpreter that
  writes no more than assumed and from every state with x0 clear, as it is when a block is looked up
  (src/emulate.c:2728), if and only if such an instruction writes no base of a marked run before it,
  except x0 when it is cleared again (`LazyFusion.LazyAddressesExact`). Unseen writes to a0 to a7 do no harm
  (`LazyFusion.ArgumentWritesHarmless`); others do reach marked runs
  (`LazyFusion.MissedWriteMarked`).
- A run is checked in the execution in which it is fused and never again. In any other one its
  accesses are in RAM if and only if its addresses, computed from the registers with which the
  block is entered, are (`LazyFusionEntry.LazyBlock.FusedRunExact`);
  `LazyFusionEntry.FusedThenOutside` fuses a run in one execution whose handler leaves RAM in
  another.
- The load check of the block map (1.25 times the size against the capacity) leaves an empty slot
  after an insertion exactly for capacities of 6 or more: `BlockMap.LoadCheckLeavesRoom`. The
  repository uses 1024.
- A pool has a first chunk exactly if its size is at least the chunk size and adding the header
  size does not wrap: `Mpool.FirstChunk`; `Mpool.WrappedPool` is a pool larger than a chunk and yet
  without one. Creation checks neither (`Mpool.Pool.Create`).
- The comment on src/map.c:36-42 speaks of a conservative depth bound; fewer than 2^64 - 1 nodes
  make the "too deep" exit unreachable for the 128 entries of a 64-bit build.
- A compare event of the PWM unit is only seen if its value lies strictly between zero and the peak.
  Of two equal compare values, only the first is seen while counting up and only the second while
  counting down (`McpwmDuty.EventTimes` says which event is seen when, for every configuration), so a
  centre-aligned output is what it should be if the two values differ
  (`McpwmDuty.CentreAlignedDuty`); if they are equal, generator A goes low and stays low, and
  generator B never goes low (`McpwmDuty.EqualCompares`).

## Model

| member | source | states |
|---|---|---|
| `RbTree.InsertUpWellFormed` | src/map.c:574-628 | Unwinding an insertion from a red leaf restores no red right link, no two reds in a row and equal black heights once the root is blackened, and keeps the in-order sequence with the new element at the hole. |
| `RbTree.RemoveUpWellFormed` | src/map.c:238-453 | Unwinding a removal from a subtree that lost one black level ends in a well-formed tree with the same in-order sequence, through every rebalancing case and every early exit. |
| `RbTree.PrunedWellFormed` | src/map.c:226-240 | Cutting a leaf off a well-formed tree, red or black, and unwinding leaves a well-formed tree with exactly the other elements. |
| `RbTree.RemoveStepSound` | src/map.c:238-449 | One unwind step either restores the black height below the next frame or passes on the same deficiency one level up, never anything else. |
| `RbTree.ReplaceElem` | src/map.c:170-196 | Exchanging the element of one frame on a path changes neither colours nor heights: the successor swap keeps the shape conditions. |
| `RbTree.HeightBound` | src/map.c:33-43 | A well-formed tree of n nodes satisfies 2^height <= (n+1)^2, that is, height at most 2*log2(n+1). |
| `RbTree.HeightBelow` | src/map.c:43 | Fewer than 2^(k+1) - 1 nodes keep the height at or below 2k, so 128 path entries suffice below 2^64 - 1 nodes. |
| `RbMap.RecordPath` | src/map.c:538-567 | The one traversal of an insertion finds the key's node, or records the path to the null link where the key belongs; it gives up only on a tree at least as high as the length of the array minus one. |
| `RbMap.RemoveDoubleLeft` | src/map.c:244-309 | The in-place double rotation on the left side yields exactly the subtree the specification gives, on disjoint node objects. |
| `RbMap.RemoveDoubleRight` | src/map.c:326-375 | The in-place rotation for a red left child with a red grandchild on the right side yields exactly the specified subtree. |
| `RbMap.RemoveFixup` | src/map.c:238-453 | The unwinding loop over the path array with its early exits leaves the nodes in the shape of the specified tree and returns its root. |
| `RbMap.SwapSuccessor` | src/map.c:170-196 | After the swap that passes through a self-loop the successor stands in the node's place, the node in the successor's, and the path array records it. |
| `RbMap.RemoveInPlace` | src/map.c:197-239 | A node without right child is spliced out or pruned: the new tree is well-formed and its in-order sequence lacks just that node. |
| `RbMap.RbRemove` | src/map.c:139-454 | Removing any node of a well-formed sorted tree leaves a well-formed tree whose in-order sequence lacks exactly that node. |
| `RbMap.Map.Insert` | src/map.c:569-637 | A fresh key is bound and the size grows by one; a present key or a failed allocation changes nothing and returns false; below 2^64 - 1 nodes the path array suffices; all tree invariants are kept. |
| `RbMap.Map.Erase` | src/map.c:680-697 | Erasing a node removes exactly its binding, keeps the order of the others and every tree invariant; null is ignored. |
| `RbMap.Map.Find` | src/map.c:640-665 | A lookup agrees with the abstract map, in presence and value. |
| `RbMap.Map.Size` | src/map.c:719-722 | The counter is the cardinality of the abstract map. |
| `RbMap.Map.First` | src/map.c:726-743 | The first node in key order, or none for an empty map. |
| `RbMap.Map.Next` | src/map.c:765-801 | The next node in key order, found by climbing down from the root where there is no right child. |
| `RbMap.Map.Prev` | src/map.c:803-843 | The previous node in key order. |
| `RbMap.Traverse` | src/map.c:726-801 | Following the successor from the first node visits every node once in ascending key order and then ends. |
| `RbMap.NextThenPrev` | src/map.c:765-843 | Stepping forward gives the next node in key order or none, and stepping back from it undoes the step. |
| `Fusion.FusePreserves` | src/emulate.c:1777-2047 | For every decoded block, every choice of available fuse slots and every state with x0 clear whose run does not trap, the rewritten list ends with the same registers, memory, program counter, cycle count and exit as the original, provided that no fused system call or counter comes after a load into x0, byte and halfword loads included, unless x0 is cleared between. |
| `Fusion.FuseExact` | src/emulate.c:1777-2047 | The same for every state: original and rewritten list end alike if, where the run comes to a fused system call or counter, x0 is zero or compares as zero does; and only if so, where the system call tells its states apart. |
| `Fusion.NoLoadIntoZeroSafe` | src/emulate.c:1777-2047 | A block without a load into x0, of whatever width, meets that proviso, whatever is fused. |
| `Fusion.ZeroSafeNeeded` | src/emulate.c:1196-1211 | And it is needed: every block in which a fused system call comes after a write to x0 that no `nop` or other instruction clears ends differently once rewritten, from any state with x0 clear, on a memory that reads anything but 0. |
| `Fusion.CounterExact` | src/emulate.c:1357-1403 | For the fused counter: a block in which it comes after such a write, and before which the counter's register is not written, ends differently on a memory that reads w if and only if the counter comes to 0 or to w. |
| `Fusion.CounterDiffers` | src/emulate.c:1357-1403 | So for every such block there are a memory and a state with x0 clear on which it does. |
| `Fusion.FuseWeights` | src/emulate.c:1600-1604 | The instruction weights of the rewritten list still add up to the original instruction count. |
| `Fusion.RunBatch` | src/emulate.c:1087-1245 | A run of simple instructions executed one by one equals one batched handler: same effects in the same order, program counter and cycles advanced by the count. |
| `Fusion.PatternStandsFor` | src/emulate.c:1102-1403 | Every pair pattern's fused operation does in one turn what its two instructions do; the two that take x0 to be zero do so if it is, or compares as zero does, and only then, for the system call if it tells its states apart. |
| `Fusion.LoopCounterStandsFor` | src/emulate.c:1357-1403 | The fused counter-and-branch leaves the block in the same state through the same chained branch as ADDI then BNE at the block's end, exactly if comparing with x0 is comparing with zero. |
| `Fusion.LoadIntoZeroDiffers` | src/emulate.c:1196-1211 | A concrete block of three instructions whose fused system call comes after a load into x0. |
| `FusionBlock.Block.RemoveNextNthIr` | src/emulate.c:1609-1622 | Unlinking the n nodes after one removes just those instructions and keeps the count and the tail pointer right. |
| `FusionBlock.Block.CountConsecutive` | src/emulate.c:1625-1656 | The walk counts the longest run of the given opcodes from a node on. |
| `FusionBlock.Block.TryFuseSequence` | src/emulate.c:1662-1695 | A run of two or more that fits a slot, if one is available, becomes one batched instruction carrying copies of all; otherwise nothing changes. |
| `FusionBlock.Block.MatchPattern` | src/emulate.c:1777-2047 | The in-place pass turns the list into `Fuse` of what it was; the count stays the list's length, the tail its last node, and the weights add up to the block's cost. |
| `FusionHart.Hart.DoFuse4` | src/emulate.c:1138-1153 | The load loop updates registers and memory like the loads in turn; a misaligned one stops it, with the loads before it done and the others not. |
| `FusionHart.Hart.DoFuse3` | src/emulate.c:1116-1135 | The store loop updates memory like the stores in turn, and stops at a misaligned one in the same way. |
| `FusionHart.Hart.RunBlock` | src/emulate.c:1045-1083 | Walking a block's links and dispatching each handler leaves the hart where the list semantics says. |
| `FusionHart.Hart.FuseAndRun` | src/emulate.c:2222-2225 | Rewriting a translated block in place and then running it leaves the hart where running it as it was before the pass would have, under the proviso of `Fusion.FusePreserves` on that block alone. |
| `FusionBits.ShiftLeft` | src/emulate.c:1162-1163 | Bit j of a left shift by k is bit j - k of the operand, and the low k bits are clear, for every immediate. |
| `FusionBits.ShiftRight` | src/emulate.c:1165-1166 | Bit j of a logical right shift by k is bit j + k of the operand, and zeros come in from above. |
| `FusionBits.ShiftArithmetic` | src/emulate.c:1168-1169 | Bit j of an arithmetic right shift by k is bit j + k of the operand, and copies of its top bit come in from above. |
| `FusionBits.MisalignedBits` | src/emulate.c:244-254 | An access traps exactly if misaligned ones are not allowed and one of the two low address bits is set. |
| `FusionBits.ComputedRegisters` | src/rv32_template.c:35-480 | LUI, ADDI and ADD change no register but the destination, which holds the result modulo 2^32, and go on four bytes and one cycle later. |
| `FusionBits.AccessedMemory` | src/rv32_template.c:360-413 | LW and SW trap exactly if the address, modulo 2^32, is misaligned, and otherwise change the destination alone, or the memory alone, and go on four bytes and one cycle later. |
| `FusionBits.BranchTargets` | src/rv32_template.c:216-303 | BNE goes to its target modulo 2^32 exactly if the registers differ, traps exactly if that is misaligned without compressed instructions, and otherwise goes on, leaving the block only if another is chained. |
| `FusionPatterns.PairsFused` | src/emulate.c:1791-2040 | The pairs of instructions that are fused, and no others: LUI with ADD, ADDI, LW or SW on its register, LW with ADDI on its base, and the counter and the system call behind ADDI. |
| `FusionPatterns.RunsFused` | src/emulate.c:1625-1695 | A longest run of two or more LUI, ADDI, LW or SW each, or of shifts, not broken up by a pair, becomes one instruction for all of it if it fits a slot and there is one, and stays otherwise. |
| `LazyFusion.LazyFusionSafeBaseRegs` | src/emulate.c:1719-1768 | The three mask tests accept a run exactly if no base register was written earlier in the block, none is an argument register and, for loads, none is written within the run. |
| `LazyPatterns.SafeBasesExact` | src/emulate.c:1719-1768 | The mask tests pass exactly if every base is x0, or neither in the mask nor one of registers 10 to 17 nor, for loads, an earlier destination of the run. |
| `LazyPatterns.RunsMarked` | src/emulate.c:1895-1962 | A longest run of loads or of stores is marked exactly if it has two or more instructions, no pair breaks it up, fewer than eight runs have been marked and all its bases are safe. |
| `LazyPatterns.AtMostEight` | src/riscv_private.h:125-142 | No block has more than eight marks, so the array of marks never overflows. |
| `LazyFusion.MarkedRuns` | src/emulate.c:1777-2047 | The marks name disjoint runs of loads or of stores, in order, whose bases, other than x0, are no argument registers and no destination field of any instruction from the start of the block up to the use. |
| `LazyFusion.LazyAddresses` | src/emulate.c:1777-2047 | For every block and entry state with x0 clear, if no base of a marked run is left written unseen by the mask, the address computed from the registers at block entry is the address each load or store of a marked run uses when execution reaches it. |
| `LazyFusion.VerifiedAccesses` | src/emulate.c:2089-2120 | In the list as it is marked, a run that passes the check at block entry, with x0 clear, makes every one of its accesses in RAM during that execution, if no base of a marked run is left written unseen. |
| `LazyFusion.OtherWriteMissed` | src/emulate.c:1719-1768 | And if some base is so written, then in an interpreter whose other instructions of the block write no more than assumed, some checked address is not the one used. |
| `LazyFusion.LazyAddressesExact` | src/emulate.c:1719-1768 | Block by block, the checked addresses are the ones used in every such interpreter and from every state with x0 clear if and only if no base of a marked run is left written unseen: x0 by a load and not cleared again, or a register by an instruction such as c.srli that does not keep its destination in `rd`. |
| `LazyFusion.ArgumentWritesHarmless` | src/emulate.c:1738-1743 | Unseen writes to argument registers alone, such as those of c.srli to a0 to a5, never matter. |
| `LazyFusion.MissedWriteMarked` | src/emulate.c:1719-1768 | The failing family exists: after a load into x0, or after an instruction that writes a register outside `rd` and outside a0 to a7, stores through that register are marked. |
| `LazyFusion.VerifyCandidate` | src/emulate.c:2094-2106 | The address loop along the list succeeds exactly if for every checked access the last of its four bytes lies below the end of RAM, so that all four do. |
| `LazyFusionBlock.MatchPatternMmio` | src/emulate.c:1777-2047 | The pass over the linked list for systems with device memory produces the list of the specification, and marks that point to the first nodes of its marked runs, skipping marked runs and keeping the written-register mask. |
| `LazyFusionEntry.MarkExact` | src/emulate.c:1777-2047 | The list that this pass leaves, with its pairs and batches fused and its runs marked, ends like the decoded block if and, with a system call that tells its states apart, only if x0 is as expected where the run comes to a fused system call or counter. |
| `LazyFusionEntry.ListAlike` | src/emulate.c:2107-2120 | Whichever of the marked runs are fused, the list runs from every state as the marked list does, to the same end, and traps in the same cases. |
| `LazyFusionEntry.FusedAccesses` | src/emulate.c:2089-2120 | If the checked addresses are the ones used, a fused run whose addresses are in RAM at block entry only accesses RAM when the list, with any set of runs fused, comes to its handler; and, unless the handler traps, only such a run does. |
| `LazyFusionEntry.LazyBlock.constructor` | src/emulate.c:1777-2047 | A freshly translated block is marked as specified, with every mark undecided. |
| `LazyFusionEntry.LazyBlock.TryLazyFusion` | src/emulate.c:2064-2125 | Every undecided mark ends failed if an address is outside RAM, verified and fused in place if its run fits a slot, and undecided otherwise; nothing is tried again once all are final or when addresses are virtual; the list still runs as the marked one from every state; each run fused now only accesses RAM, all four bytes of every access below its end, in the execution that begins, and in any other one exactly if its addresses are in RAM then. |
| `LazyFusionEntry.LazyBlock.FusedRunExact` | src/emulate.c:2089-2120 | In every execution, early or late, in which the checked addresses are the ones used and the handler of a fused run is passed without a trap, it only accesses RAM if and only if the run's addresses at block entry are in RAM. |
| `LazyFusionEntry.FusedThenOutside` | src/emulate.c:2089-2092 | Two stores through x5, fused while x5 points into RAM: entered with x5 outside RAM, their handler leaves it. |
| `LazyFusionHart.EnterBlock` | src/emulate.c:2174-2187 | Entering a marked block, fusing runs as they are found to be in RAM, and walking its list leaves the hart where running the decoded block would have, under the proviso of `Fusion.FusePreserves`, and the runs fused now only access RAM. |
| `BlockMap.LoadCheckLeavesRoom` | src/emulate.c:2191-2193 | The load check leaves an empty slot after every insertion it lets through if and only if the capacity is at least 6. |
| `BlockMap.EmptySlot` | src/emulate.c:735-752 | A table that stores fewer blocks than it has slots has an empty one, so both probing loops end under any hash. |
| `BlockMap.Filled` | src/emulate.c:742-747 | Filling the first empty slot met by probing keeps every stored block reachable. |
| `BlockMap.Blocks.Find` | src/emulate.c:755-771 | Probing returns exactly the block stored for an address, or none. |
| `BlockMap.Blocks.LookupOrFind` | src/emulate.c:780-797 | So does the lookup through the first-level cache, which it keeps consistent. |
| `BlockMap.L1Slots` | src/emulate.c:727-732 | Each aligned stretch of 256 instruction slots, of two or four bytes, fills the first-level cache once. |
| `BlockMap.Blocks.Clear` | src/riscv.c:73-103 | Clearing forgets every block in the table and in the first-level cache. |
| `BlockMap.Blocks.FindOrTranslate` | src/emulate.c:2163-2229 | A stored block is returned unchanged; a missing one is stored, after a clean-up if the map is too full; an empty slot always remains. |
| `Aes.XTimeBranches` | src/esp32c3.c:748-759 | The multiplication by x used in the specification, an exclusive or of shifts, is the source's shift and conditional reduction. |
| `Aes.SboxInverse` | src/esp32c3.c:807-823 | The two substitution tables are inverse permutations of the bytes, in both directions. |
| `AesSbox.SboxMeaning` | src/esp32c3.c:731-746 | Every entry of the table is y with its rotations by 1 to 4 and 0x63 added, where y is the inverse of the argument in GF(2^8), or 0 for 0. |
| `Aes.MixInverse` | src/esp32c3.c:825-841 | MixColumns and its inverse undo each other on every column. |
| `Aes.DecryptEncrypt` | src/esp32c3.c:843-885 | For every key schedule and every block, decryption undoes encryption. |
| `Aes.EncryptDecrypt` | src/esp32c3.c:843-885 | And encryption undoes decryption: a key permutes the blocks. |
| `Aes.CbcRoundTrip` | src/esp32c3.c:904-921 | A CBC message of any length, encrypted and decrypted from the same initial vector, comes back. |
| `Aes.CbcEncryptSplit` | src/esp32c3.c:904-929 | Over any block function, encrypting n+m blocks at once equals n, then m from the initial vector left behind, and leaves the same vector. |
| `Aes.CbcDecryptSplit` | src/esp32c3.c:904-929 | The same for decryption. |
| `AesC3.Gmul` | src/esp32c3.c:748-759 | The eight-step loop computes the product of two polynomials over GF(2) modulo the AES polynomial. |
| `AesC3.Products` | src/esp32c3.c:825-841 | Products with the constants 2, 3, 9, 11, 13 and 14 are the sums of repeated doublings that MixColumns needs. |
| `AesC3.KeyExp` | src/esp32c3.c:761-786 | With a round constant doubled on each use, the byte array holds the key schedule of FIPS-197 for 4, 6 and 8 key words. |
| `AesC3.AesBlock` | src/esp32c3.c:843-885 | The in-place byte-wise rounds compute the reference cipher or its inverse, and write nothing but the sixteen output bytes. |
| `AesC3Unit.AesUnit.ProcessBuf` | src/esp32c3.c:891-929 | For any number of blocks in ECB or CBC, either direction, the output buffer and the initial-vector registers are those of the mode's definition; other registers and the rest of the buffer stay. |
| `AesC3Unit.ProcessRoundTrip` | src/esp32c3.c:891-929 | In either mode decrypting an encrypted buffer returns it, and both directions leave the same initial vector. |
| `AesC3Unit.SetThenGet` | src/esp32c3.c:924-928 | Writing one byte of a register changes just that byte. |
| `AesC3Unit.RegisterBytes` | src/esp32c3.c:900-903 | A register is its four bytes, the first of them lowest. |
| `AesC3Unit.KeySizes` | src/esp32c3.c:894-898 | The low two bits of the mode register select keys of 128, 192 and 256 bits, and the value 3 no key of AES. |
| `AesC3Unit.RegisterOffsets` | src/esp32c3.c:894-903 | The mode, the initial vector and the block mode are at byte offsets 0x40, 0x50 and 0x94. |
| `AesC6.MulWide` | src/esp32c6.c:927-930 | The word-valued multiplications by 9, 11, 13 and 14 agree with the byte products. |
| `AesC6.KeyExp` | src/esp32c6.c:867-880 | With the round constant recomputed each time, the word array holds the same key schedule. |
| `AesC6.MixColumns` | src/esp32c6.c:916-926 | The packed-word version mixes the four columns like the reference. |
| `AesC6.InvShiftRows` | src/esp32c6.c:903-915 | The packed-word version moves each row back by its number. |
| `AesC6.AesBlock` | src/esp32c6.c:944-975 | The word-wise engine computes the reference cipher or its inverse. |
| `AesC6.BothEngines` | src/esp32c6.c:944-975 | The byte-wise and the word-wise engine both return the reference cipher's sixteen bytes, for every key size, key, block and direction, and so the same. |
| `Timers.PollSplit` | src/esp32c6.c:3906-3915 | A poll in between changes neither the ticks counted in total nor the remainder. |
| `Timers.TimgCounts` | src/esp32c6.c:3906-3925 | Without auto-reload, after any monotone polling schedule the counter has moved by exactly the elapsed cycles divided by the step, up modulo 2^64 or down to zero, with the remainder below the step. |
| `Timers.AlarmRaised` | src/esp32c6.c:3926-3937 | No polling schedule misses or anticipates the alarm: without auto-reload, and unless the counter wraps, it has been raised exactly if the counter has come to the alarm value by the last poll. |
| `Timers.NextAlarm` | src/esp32c6.c:3931-3944 | With auto-reload the next alarm is seen exactly once as many ticks have passed as the alarm value is above the reload value. |
| `Timers.StepC6Exact` | src/esp32c6.c:3910-3914 | On the C6 a tick takes exactly divider + 1 periods of the selected clock. |
| `Timers.StepC3Floor` | src/esp32c3.c:3631-3639 | On the C3 it does so rounded down to whole cycles of 16 MHz, and to one cycle at least. |
| `Timers.FreeCounts` | src/esp32c6.c:3966-3976 | A counter started at cycle 0 shows the cycles divided by its divisor, rounded down, and keeps the exact remainder, for any schedule. |
| `Timers.TimerGroup.Poll` | src/esp32c3.c:3627-3672 | One poll on either chip, with alarm and auto-reload, is the specified step. |
| `Timers.FreeCounter.PollRtc` | src/esp32c3.c:3112-3122 | The C3's RTC divides by 64 keeping the remainder. |
| `Timers.FreeCounter.PollSystimer` | src/esp32c6.c:3966-3976 | The C6's system timer divides by 5 keeping the remainder. |
| `Mcpwm.TicksFollowWave` | src/esp32c6.c:3842-3873 | A timer started at 0 without stop command stays within its period and follows a rising sawtooth, a falling one or a triangle, whatever direction was left over. |
| `Mcpwm.UnitPollSplit` | src/esp32c6.c:3825-3873 | For all three timers and operators a poll in between is not noticed, by phases, directions, generator levels, forces or stop commands. |
| `Mcpwm.UnitRunIsOnePoll` | src/esp32c6.c:3825-3873 | Any polling schedule leaves what a single poll at its end leaves. |
| `Mcpwm.StartedFollowsWave` | src/esp32c6.c:2339-2355 | After a start and any schedule the phase is the closed form of the cycles since the start divided by the step. |
| `Mcpwm.PausedStays` | src/esp32c6.c:3826-3836 | A timer that does not run, is paused or has the period 0 stands still under a poll, with its clock and its operators. |
| `Mcpwm.StepExact` | src/esp32c6.c:3826-3836 | A tick takes exactly the product of the two prescalers in periods of the 40 MHz source. |
| `McpwmDuty.EventTimes` | src/esp32c6.c:3154-3165 | For every configuration, each of the eight events is seen at its tick of the counting cycle and no other, and never if its direction does not occur, its compare value is not strictly inside the period, or an equal one goes first. |
| `McpwmDuty.PulseDuty` | src/esp32c6.c:3142-3188 | A generator that goes high at one event and low at another is high from the tick of the one to the tick of the other, in every cycle. |
| `McpwmDuty.EdgeAlignedDuty` | src/esp32c6.c:3142-3188 | Either generator, set high at zero and low at its compare value, is high while the counter is below that value, if the timer counts up and was not left counting down. |
| `McpwmDuty.DownDuty` | src/esp32c6.c:3142-3188 | With a timer that counts down, either generator set high at the peak and low at its compare value is high while the counter is above that value. |
| `McpwmDuty.CentreAlignedDuty` | src/esp32c6.c:3142-3188 | With a timer that counts up and down, either generator set low at its compare value going up and high going down is low from that value up to the peak and back. |
| `McpwmDuty.PolledCentreAligned` | src/esp32c6.c:3825-3873 | So it is through the whole unit, under any polling schedule. |
| `McpwmDuty.EqualCompares` | src/esp32c6.c:3154-3165 | With equal compare values that set-up fails: generator A goes low and stays low, and generator B never goes low. |
| `McpwmDuty.ToggleDuty` | src/esp32c6.c:3166-3175 | An output toggled at zero has changed once for every turn of the counter begun. |
| `McpwmDuty.ForceConsumed` | src/esp32c6.c:3177-3187 | A one-shot force is consumed exactly once an event has been seen. |
| `McpwmDuty.StopTimes` | src/esp32c6.c:3842-3849 | A timer told to stop at the peak counts up to it and halts there; one told to stop at zero, where a start puts it, does not count. |
| `Mcpwm.PwmUnit.Fire` | src/esp32c6.c:3142-3188 | The events of one tick change the operators of that timer and no others. |
| `Mcpwm.PwmUnit.Poll` | src/esp32c6.c:3825-3873 | The catch-up loops of the three timers, breaking off at stop commands, are the specified poll. |
| `Mcpwm.PwmUnit.Command` | src/esp32c6.c:2339-2357 | Start commands reset phase, anchor and remainder but not the direction; stop commands stop. |
| `Cache.PutIsBounded` | src/cache.c:284-384 | Putting binds the key, forgets exactly the victim and keeps every other binding in order; there is a victim exactly if the key was bound or the cache full. |
| `Cache.ReplayRecency` | src/cache.c:313-316 | In every run of puts and uses the live entries stand in the order of their last put, so the one evicted from a full cache was put longest ago. |
| `Cache.UseCounts` | src/cache.c:254-255 | A use leaves the count of its live entry one higher modulo 2^32 and every other entry as it was. |
| `CacheCount.FreshCount` | src/cache.c:356-358 | In every run, a key that was not known, or was put while live, then used n times and neither put nor evicted, has the count 1 + n modulo 2^32. |
| `CacheCount.RevivedCount` | src/cache.c:313-364 | In every run, a key evicted with count n and put again while its ghost is kept goes on from n plus one, and one for each use. |
| `CacheCount.UsesCounted` | src/cache.c:219-258 | The count of a live key grows by its uses alone, whatever is done to other keys. |
| `CacheCount.PutOthers` | src/cache.c:313-334 | Putting another key keeps an entry with its count or makes it the latest ghost, and changes no ghost of a key that is out but by dropping it. |
| `Cache.BlockCache.Put` | src/cache.c:284-384 | The lists and chains after an insertion are those of the bounded map, use counts continue from the evicted namesake, the replaced value is returned, and the page index follows. |
| `Cache.BlockCache.Get` | src/cache.c:219-258 | A hit returns the live entry's block and, if `update` is set, is a use of it; a miss, also on an evicted entry, changes nothing. |
| `Cache.BlockCache.Freq` | src/cache.c:419-440 | The use count of the live entry, or 0. |
| `Cache.BlockCache.ContentsBounded` | src/cache.c:286-383 | In every valid state each key has at most one live entry and both lists hold at most `capacity` entries. |
| `Cache.EvictChained` | src/cache.c:318-334 | Evicting an entry keeps each key's live entry ahead of its evicted ones in the hash chain, without touching the chain. |
| `Cache.DropChained` | src/cache.c:264-276 | Dropping an evicted entry from its list and chain keeps that order for every key. |
| `Cache.BlockCache.PageIndexRemove` | src/cache.c:537-551 | Unlinking a block from its bucket keeps every bucket, as a multiset, the live blocks of its pages. |
| `Cache.BlockCache.PageIndexInsert` | src/cache.c:517-534 | So does linking one; a failed link marks the index incomplete for good. |
| `Cache.BlockCache.InvalidateVa` | src/cache.c:591-670 | With blocks that lie in one page each, index lookup and linear scan invalidate the same blocks, those of the page and address space still valid, and return their number. |
| `Mpool.FirstChunk` | src/mpool.c:107-124 | A pool has a first chunk if and only if it is at least as large as a chunk and making room for the header does not wrap. |
| `Mpool.PoolCapacity` | src/mpool.c:107-124 | The pool has exactly as many chunks as fit, with eight header bytes each, into the size asked for, to which eight bytes are added, modulo 2^64, if it is too small for one. |
| `Mpool.SizesChecked` | src/mpool.c:107-115 | The checks of the sizes pass exactly if neither a chunk with its header nor the rounding up to pages passes 2^64. |
| `Mpool.WrappedPool` | src/mpool.c:107-124 | A pool larger than a chunk that passes every check of the sizes and has none. |
| `Mpool.CarvedInside` | src/mpool.c:146-177 | Every carved chunk, header included, lies within one mapped area. |
| `Mpool.CarvedApart` | src/mpool.c:146-177 | No two carved chunks overlap. |
| `Mpool.AreaAdded` | src/mpool.c:146-177 | A new area adds its chunks to those carved before and shares none with them. |
| `Mpool.Pool.Create` | src/mpool.c:98-138 | For all sizes, creation succeeds exactly if the sizes pass the checks, pages can be mapped and there is a first chunk, and then has at least one free chunk and none outstanding; the carving overruns its area exactly if only the first chunk is missing. |
| `Mpool.Pool.Extend` | src/mpool.c:146-177 | Growing adds one area, all of whose chunks become free, although the last link is never written. |
| `Mpool.Pool.Alloc` | src/mpool.c:188-208 | The chunk returned was not outstanding; allocation fails exactly if nothing is free and no area can be mapped; free and outstanding chunks still partition all carved ones, and no byte that was memory changes. |
| `Mpool.Pool.Calloc` | src/mpool.c:210-223 | The same, with the bytes of that chunk cleared and no byte outside it changed, in the memory that also holds the headers. |
| `Mpool.Pool.Store` | src/mpool.c:98-235 | A user's write anywhere in an outstanding chunk leaves the pool valid: it cannot reach the free list's links. |
| `Mpool.Pool.Free` | src/mpool.c:225-235 | Freeing an outstanding chunk makes it free again and nothing else, and writes only its header. |
| `Mpool.Pool.ChunksSafe` | src/mpool.c:98-235 | In every valid state an outstanding chunk lies in one area, overlaps no other chunk, and the free list's length is the chunk count. |
| `GuestMemory.Memory.Fault` | src/io.c:98-140 | The handler opens exactly the faulting chunk, counts it once and keeps the peak the running maximum; faults outside the memory are passed on. |
| `GuestMemory.Memory.Read` | src/io.c:358-387 | A read, whose every byte must come from an open chunk, returns what a flat memory holds; afterwards exactly the chunks it touches have been opened. |
| `GuestMemory.Memory.Write` | src/io.c:389-397 | A write likewise changes just the addressed bytes, as in a flat memory, and opens just the chunks it touches. |
| `GuestMemory.Memory.DropPages` | src/io.c:320-341 | Dropping the pages of a chunk that holds only zeros, so that zero pages are supplied at its next opening, changes nothing that can be read. |
| `GuestMemory.Memory.Gc` | src/io.c:293-351 | One collector call closes its chunk exactly if it is open and all zero and the protection can be changed, changes nothing that can be read whether or not its pages are dropped, and moves on around the end. |
| `GuestMemory.Memory.GcRound` | src/io.c:293-351 | As many calls as there are chunks, from any valid scan index, look at every chunk: none that is all zero stays open. |
| `GuestMemory.Memory.BitmapSet` | src/io.c:67-70 | Setting a bit changes the answer for that chunk and for no other. |
| `GuestMemory.Memory.GetUsage` | src/io.c:275-287 | Peak use never exceeds the chunk count, so the clamp never bites. |
| `GuestMemory.CountUpdate` | src/io.c:117-132 | Opening or closing one chunk moves the number of open chunks by exactly one. |

## Left out

- map.c: `map_clear`, `map_delete` and `map_at_end`, the packing of the colour into the pointer and the copying of keys and values; `RB_MAX_DEPTH` is that of a 64-bit build.
- emulate.c: with block chaining a plain last instruction of a page-terminated block may follow `branch_taken` where a fused one returns (src/emulate.c:1006-1028); a freshly decoded block has no such chain, and the model has none for plain instructions.
- emulate.c: executions that trap in the middle of a fused sequence, signal handling between instructions, jump targets beyond the chained branch, and the instruction decoders; constant folding in rv32_constopt.c, which runs before the pass.
- Fused and unfused blocks run from a state with x0 clear; a plain BNE to a misaligned target traps without compressed instructions while the fused one does not check, so trap-free executions are compared.
- Freeing of instruction nodes, cache entries and blocks: dropping an object from every list stands for it.
- AesC3Unit.AesUnit.ProcessBuf: requires an output buffer other than the input buffer, as its three callers pass (src/esp32c3.c:962, 990 and 3455), and leaves out the fourth encoding of the key size, which is not a key length of AES and overruns the source's key buffer.
- AES: the C6's CBC decryption and the DMA descriptors.
- AesC3Unit.AesUnit: keeps its 64 registers as a sequence that the methods reassign.
- Timers: interrupt routing of the alarms, the watchdogs and the system timer's targets; register fields are taken as already decoded.
- Mcpwm: driving of pads and the continuous forces; the mode field of a one-shot force is cleared with its trigger and so not kept apart from it.
- Cache: the path in which the allocation of the new entry fails, `cache_hot`, profiling, `cache_invalidate_satp` and the code generator's flags; list and chain links are sequences of entry objects, so pointer surgery inside a list is not captured.
- Mpool: locking and `mpool_destroy`; areas are a sequence, not a linked list; what happens once the carving of a pool without a first chunk has left its area.
- GuestMemory: chaining to a previous signal handler and the configuration without mmap.
- Register-bank dispatch, ROM images, UART, GPIO and the other device stubs, SHA-256, ELF loading, the GDB stub and the JavaScript and Python tools: long case tables or I/O with little to prove.
