# Alphix kernel: a verified model

A Dafny 4.11 model of the stateful core of the Alphix kernel, with proofs of what that core promises.
`dafny verify dfyconfig.toml` checks all of it.

## What is modelled

- **Kernel heap** (`mem/heap.c`). `HeapMemory` is memory byte by byte: what it held at first, of which nothing is
  known, and the words written since. Every header field has its own offset, so a header written across an older one
  tears it field by field. `HeapSpec` gives each operation as a function on the list of blocks
  `(address, size, used)`; `HeapInMemory` proves that the writes of each routine carry the list in memory along, and
  the class `KernelHeap`, which performs those writes in the order of the source, refines both. `HeapMeaning` says what
  single calls and pairs of calls mean, in numbers where the source has numbers; `HeapRuns` what holds in every state
  any run can reach, `HeapTraces` and `HeapFrees` what kmfree may read and which frees keep the heap intact, and
  `HeapWitnesses` and `HeapWildFree` have the concrete runs.
- **Keyboard ring and `sys_read`** (`drivers/input/keyboard.c`, `cpu/syscall.c`). `KeyboardRing` is a protocol in
  which every access to `kb_head`, `kb_tail` and the buffer is a step of its own and the two sides interleave
  freely; it refines a bounded queue. `Keyboard` has the two calls as methods on the real variables.
  `SysReadProtocol` puts `sys_read` on the interleaved ring, `KeyboardDriver.SysRead` on the methods.
- **Line editor** (`cpu/kprintf.c`, `libc/string.c`). `LineEditor` edits a 512-byte NUL-terminated buffer in place
  with the string routines of `CString`. It refines an editor that has only the text before and after the cursor.
- **Tokenisers** (`libc/string.c`). `WordSpec` defines words; `split` (count, then fill) and the destructive
  `strtok` are both proved against it.
- **Number text** (`libc/string.c`). `intToString`, `itoa`, `tostr` and `atoi` against positional notation.
- **`kvprintf`** (`cpu/kprintf.c`). The interpreter against pure functions on format and arguments.
- **Page tables** (`mem/paging.c`). The table construction, and a page walk after section 4.5 of the
  Intel SDM Volume 3A.

## Results that go against expectation

The model keeps the code as it is. These facts are theorems here:

- A block too small to split is returned by `kmalloc` without being marked used (`mem/heap.c:63-65`,
  `mem/heap.c:169-175`). `SameSizeTwice`: two successful requests of one size in a row are disjoint if and only
  if the first one takes the splitting branch. `SamePointerTwice` is a concrete run of two calls from the initial heap.
  Hence the safety of all live allocations is stated for runs in which every successful allocation splits;
  `SplitStaysTaken` needs only the one allocation to split, and `FreeAfterMalloc` says that freeing the result undoes
  the counter if and only if it did.
- A live pointer to such an unsplit block can lose its header to a newer one, and kmfree then accepts what is left of
  it. `HeaderCanBeLost` is a run of four calls after which this free clears a listed block's magic number, so that
  the integrity check reports block 1 (`FreeTornHeader`); with one call more the list itself breaks (`ListCanBreak`).
  `FreeKeepsIff` says exactly which frees keep the heap: those of NULL, those of a listed block's pointer, and those
  that one of the two checks in kmfree rejects. Any other leaves no list with which memory and counters agree, unless
  it absorbs a block from outside the heap; then the bytes there decide, and `WildFreeCanBeSound` is a run after
  which they leave a sound heap from which a used block has vanished. In runs whose allocations all split every free
  of a live pointer is one of the safe ones (`LiveFreesLegal`).
- `heap_expand_heap` gets the request without the header, so a request that nothing fits is served from the
  expansion if and only if it is at most 4064 bytes; a larger one grows the heap and still fails (`GrowthExact`,
  `ServedIff`; `GrownInVain` is such a call on the initial heap).
- Expansion does not merge with a free last block: it leaves two free neighbours exactly when the last block was free
  (`ExpandCounts`), which it is in every reachable state. A call raises the number of free neighbours if and only if
  it expands behind a free block and does not split (`MallocCounts`), and two neighbours are both free if and only if
  there have been more expansions than splits of a block behind a free one (`FullyCoalesced`). `GrownInVain` leaves
  the first such pair.
- `sys_read` can sleep with its characters in the ring (`cpu/syscall.c:19-21`): a push that completes between the pop
  that saw the ring empty and the hlt wakes nobody (`LostWakeUp`). Once the characters are there and the keyboard is
  silent, the call returns if and only if it is not in or on its way to hlt (`ReturnsIffAwake`). Nothing else keeps it:
  every interrupt ends the hlt (`InterruptWakes`), and a call for more characters than the ring holds gets them all when
  it has time to take each one (`AnyCountReturns`).
- `strnone` clears only the first byte (`CString.Strnone`); the editor is right all the same (`Kscan`).
- `kvprintf` prints zero padding and precision zeros before the minus sign and counts the sign in the precision.
  What a decimal directive prints reads back as the number if and only if the number is not negative or no zeros
  were put before its sign (`NumberReadsBack`); `%05d` of -3 prints `000-3`, which reads as 0 (`ZerosBeforeSign`).
- `kvprintf` prints lower case hexadecimal for `%X` too (`HexPrints`), and `%p` ignores every flag (`PointerPrints`).
- `itoa` counts the digits of a negative number down from '0' in every base but 10. They can still be read back
  (`NegativeReadsBack`).
- `include/mem/paging.h:23` announces an identity map of the first 1 GiB; the code maps 4 GiB, and so does the model.
- `split` and `splitString` return NULL for a string without words, because the allocator refuses to allocate
  0 bytes, and leave the count alone.

## Reading the heap model

Request sizes must not wrap 64 bits: `n + 39` and `end + HEAP_ALIGN(n)` stay below 2^64. Counters are 32 bits wide;
the block count and the sizes are proved not to wrap. `Kmfree` is modelled on any memory whatever, wild links included.
Its block address wraps at 2^64 as in the source, for pointers 1 to 31; the field addresses behind it do not.
Runs (`Reaches`) are sequences of allocations and of frees that `FreeKeepsIff` admits: a free of any pointer at
all is a step of a run unless it passes both checks at an address where no listed block starts.

## Model

| member | source | states |
|---|---|---|
| HeapLemmas.BlocksInOrder | mem/heap.c:13-36 | in a tiled heap every block ends at or before the start of every later one: no overlap, no cycle |
| HeapLemmas.MallocKeeps | mem/heap.c:150-176 | an allocation, expanding or not, leaves blocks that tile the heap, with aligned sizes of at least 40 |
| HeapLemmas.FreeKeeps | mem/heap.c:179-204 | a free keeps the same invariant and does not move the end of the heap |
| HeapLemmas.BytesCover | mem/heap.c:240-262 | used and free bytes add up to the address range, so the size queries cannot wrap |
| HeapLemmas.BlockCountBounded | mem/heap.c:58-88 | the block count stays below 2^32 |
| HeapInMemory.LinksInverse | include/mem/heap.h:16-22 | prev inverts next, and each link leads to the adjacent block |
| HeapInMemory.HeaderBytes | include/mem/heap.h:13-22 | a listed block's header in memory: the bytes EF BE AD DE, then size, used, next and prev at offsets 4, 8, 16 and 24 |
| HeapInMemory.SplitRepresents | mem/heap.c:71-85 | the header writes of a split leave the split list in memory, links included |
| HeapInMemory.GrowRepresents | mem/heap.c:126-143 | the header writes of an expansion leave the longer list in memory |
| HeapInMemory.JoinRepresents | mem/heap.c:93-109 | either merge leaves the joined list in memory, and the two merges write the same |
| HeapInMemory.MallocHolds | mem/heap.c:150-176 | after an allocation memory and counters agree with the abstract heap |
| HeapInMemory.FreeHolds | mem/heap.c:179-204 | after any safe free memory and counters agree with the abstract heap |
| HeapInMemory.FreeMachineTwice | mem/heap.c:179-204 | a second free right after a safe one changes no byte and no counter, also when the block has been merged away |
| HeapMeaning.LowestFit | mem/heap.c:39-55 | if any free block fits, the lowest-addressed one that fits serves the request and the heap does not grow |
| HeapMeaning.ExpansionExact | mem/heap.c:114-176 | if none fits, the result is the old end plus 32 exactly when the expansion has room and the request is at most 4064 bytes; otherwise the call is NULL on the expanded heap. GrowthExact says by how much it expands |
| HeapMeaning.GrowthExact | mem/heap.c:114-176 | in numbers, when nothing fits: the heap grows by max(4096, request rounded up to 8) if and only if its end then stays at or below 0x11000000; the new block starts at the old end and serves requests of at most 4064 bytes; a larger one returns NULL and leaves it whole and free |
| HeapMeaning.ServedIff | mem/heap.c:150-176 | a request succeeds if and only if some free block holds it and 32 bytes more, or it is at most 4064 bytes and a page can still be added |
| HeapMeaning.MallocExact | mem/heap.c:39-88 | in numbers: the first free block from below that holds the request and 32 bytes serves it; it is cut to the next multiple of 8 and marked used exactly when at least 64 bytes remain, else the list stays as it is |
| HeapMeaning.NothingAskedOrFreed | mem/heap.c:150-182 | a request of 0 bytes returns NULL, and neither it nor the free of NULL changes anything |
| HeapMeaning.InitialBytes | mem/heap.c:18-36 | the heap starts as one free block of 0x100000 bytes at 0x1000000, with no byte used |
| HeapMeaning.MallocBytes | mem/heap.c:245-257 | the used bytes rise by the request and header, rounded up to 8, when a block is split off, and never otherwise |
| HeapMeaning.FreeBytes | mem/heap.c:245-257 | they fall by the size of the used block that is freed, and by nothing when there is none |
| HeapMeaning.MallocServes | mem/heap.c:58-88 | the serving block is 8-byte aligned, holds the request and its header, is at most n + 95 bytes, and is marked used exactly when it was split |
| HeapMeaning.MallocInUse | mem/heap.c:150-176 | a splitting allocation puts exactly its own block into use; any other call changes no address |
| HeapMeaning.ReleaseInUse | mem/heap.c:179-204 | a free takes exactly the block's addresses out of use |
| HeapMeaning.ReleaseStarts | mem/heap.c:91-111 | merging removes exactly the successor's start if the successor is free and the block's own start if the predecessor is free |
| HeapMeaning.FreeTwice | mem/heap.c:179-204 | a second free of the same address right after the first changes nothing in the list |
| HeapMeaning.MallocThenFree | mem/heap.c:58-111 | a splitting allocation and its free restore the used addresses and the counter, and the block list exactly when the predecessor of the chosen block is not free, also after an expansion |
| HeapMeaning.FreeAfterMalloc | mem/heap.c:63-65 | the free of any successful allocation restores the counter exactly when the block was split; otherwise it changes nothing at all |
| HeapMeaning.TakesUnused | mem/heap.c:39-55 | whatever an allocation hands out, split or not, was not in use before |
| HeapMeaning.SplitThenMalloc | mem/heap.c:150-176 | a block handed out by splitting is disjoint from the next block handed out, whatever its size |
| HeapMeaning.SameSizeTwice | mem/heap.c:58-65 | two successful requests of one size in a row are disjoint if and only if the first one split |
| HeapRuns.ReleaseCounts | mem/heap.c:91-111 | a free keeps the number of free neighbours exactly and takes one used block away |
| HeapRuns.ExpandCounts | mem/heap.c:126-143 | an expansion makes one pair of free neighbours exactly when the last block is free |
| HeapRuns.MallocCounts | mem/heap.c:150-176 | the exact change in free neighbours; they rise if and only if the heap grows behind a free block and the request does not split; the used blocks rise exactly by a split |
| HeapRuns.RunKeeps | mem/heap.c:13-204 | every reachable state: blocks tile the heap within the maximum, memory holds their headers, the block counter is their number, the last block is free, free neighbours are the expansions less the splits behind a free block, the used counter is used blocks plus unsplit allocations modulo 2^32 |
| HeapRuns.FullyCoalesced | mem/heap.c:91-143 | in a reachable state two neighbours are both free if and only if there were more expansions than splits behind a free block |
| HeapRuns.SplitStaysTaken | mem/heap.c:150-204 | in any run, however its other allocations are served, no allocation overlaps one that was split off and not freed since |
| HeapRuns.LiveAllocationsSafe | mem/heap.c:150-204 | when every successful allocation splits: live allocations are aligned, inside the heap, disjoint from each other and from every listed header, and large enough |
| HeapRuns.LiveIsUsed | mem/heap.c:150-204 | in such runs a pointer is live if and only if a used block starts 32 bytes before it |
| HeapRuns.LiveFreesLegal | mem/heap.c:179-204 | in such runs every live pointer belongs to a used block of the list, so its free is safe |
| HeapRuns.FragmentationBounded | mem/heap.c:58-204 | in every reachable state there are at most twice as many blocks as used ones, plus one and the expansions, and at most (maximum - initial size) / 4096 expansions |
| HeapRuns.NothingLeaks | mem/heap.c:91-204 | when every successful allocation splits and everything is freed, no block is in use, at most one block per expansion and one more remain, and without expansion the list is the initial one |
| HeapTraces.RunLeaves | mem/heap.c:58-143 | every reachable state: where a block ever started and the magic number still stands, the next link leads upwards or out of the heap, and an unlisted header reads as free or as torn by one 8 bytes further on |
| HeapFrees.TornLinks | mem/heap.c:188-196 | what passes both checks at an unlisted block is a torn header, whose next is NULL, 1 or leads past the heap, and whose prev is one of these or leads upwards |
| HeapFrees.TornFreeBreaks | mem/heap.c:91-111 | freeing it leaves no list at all with which memory and counters agree, whatever its links, unless the first merge absorbs what its next leads to |
| HeapFrees.FreeKeepsIff | mem/heap.c:179-204 | for NULL and every block that ever was: a free absorbs no successor from outside the heap and leaves a sound heap if and only if the pointer is NULL, its block is listed, the magic number does not match, or the used word is 0 |
| HeapFrees.EverHandedOut | mem/heap.c:169-175 | this covers every pointer kmalloc has ever returned, freed meanwhile or not |
| HeapWitnesses.GrownInVain | mem/heap.c:114-164 | concrete: a request of the initial heap's size returns NULL, and the heap has grown by a second free block |
| HeapWitnesses.SamePointerTwice | mem/heap.c:63-65 | concrete: two requests for the whole initial heap succeed with the same result |
| HeapWitnesses.HeaderCanBeLost | mem/heap.c:91-111 | concrete: after four calls kmfree accepts a live pointer whose header is torn, and clears the magic number of a listed block |
| HeapWitnesses.ListCanBreak | mem/heap.c:91-111 | concrete: after five calls that free makes the last block reach past the end of the heap and link to address 1, and memory represents no list |
| HeapWildFree.WildFreeCanBeSound | mem/heap.c:91-111 | concrete: after ten calls, with the right bytes far outside the heap, such a free absorbs them and leaves a sound heap from which a used block is gone, so the proviso in FreeKeepsIff is needed |
| KernelHeapModule.KernelHeap.FindFreeBlock | mem/heap.c:39-55 | the list walk ends and returns the first block that fits, or NULL |
| KernelHeapModule.KernelHeap.SplitBlock | mem/heap.c:58-88 | performs the writes of a split exactly when the rest is worth a block, and then the list is the split one |
| KernelHeapModule.KernelHeap.MergeAdjacentBlocks | mem/heap.c:91-111 | on any memory, the two merges and the counter steps as specified |
| KernelHeapModule.KernelHeap.ExpandHeap | mem/heap.c:114-147 | writes a header at the end, walks to the last block and links the two, or changes nothing past the maximum; the size is that of GrowthExact |
| KernelHeapModule.KernelHeap.Kmalloc | mem/heap.c:150-176 | result, list, memory and counters are those of the abstract allocation |
| KernelHeapModule.KernelHeap.Kmfree | mem/heap.c:179-204 | on any memory, the checks, writes and counter steps as specified; on a valid heap every safe free keeps it valid and is the abstract free |
| KernelHeapModule.KernelHeap.ValidateIntegrity | mem/heap.c:220-237 | reports exactly the first bad magic number or a wrong count on any walkable list, and nothing on a valid heap |
| KernelHeapModule.KernelHeap.GetUsedSize | mem/heap.c:245-257 | the sum of the used block sizes, without wrap |
| KernelHeapModule.KernelHeap.GetFreeSize | mem/heap.c:260-262 | the 32-bit difference is the sum of the free block sizes |
| KernelHeapModule.RunEvents | mem/heap.c:150-237 | on the real structure list, memory and counters follow any run, and the integrity check then has nothing to report |
| KernelHeapModule.FreeTwiceInARow | mem/heap.c:179-204 | the second of two frees in a row leaves list, memory and counters as they were after the first |
| KernelHeapModule.FreeTornHeader | mem/heap.c:179-237 | concrete: freeing the torn header of a live pointer makes the integrity check report block 1 |
| KeyboardRing.StepKeeps | drivers/input/keyboard.c:12-29 | every step of either side keeps the ring invariant and is a step, or no step, of a bounded queue |
| KeyboardRing.RunRefines | drivers/input/keyboard.c:12-29 | every interleaving of push and pop steps is a run of the bounded queue |
| KeyboardRing.SingleProducerSingleConsumer | drivers/input/keyboard.c:7-29 | accepted = popped + stored, in order, at most 127 stored, each in its slot, under every schedule |
| KeyboardRing.UnreadSlotsUntouched | drivers/input/keyboard.c:16 | no step overwrites a slot still to be read |
| KeyboardRing.PushAlone | drivers/input/keyboard.c:7-19 | an uninterrupted push stores its character if and only if fewer than 127 are waiting; otherwise nothing changes |
| KeyboardRing.PopAlone | drivers/input/keyboard.c:21-29 | an uninterrupted pop delivers the oldest character exactly when one is waiting, in either order of its first two reads |
| KeyboardDriver.Keyboard.Push | drivers/input/keyboard.c:12-19 | the method has the effect of the protocol's push steps and appends to the queue unless it is full |
| KeyboardDriver.Keyboard.Pop | drivers/input/keyboard.c:21-29 | the method has the effect of the protocol's pop steps and takes the head of the queue if there is one |
| KeyboardDriver.SysRead | cpu/syscall.c:12-27 | on return the first count bytes are the next characters delivered, none lost; other descriptors return -1 and touch nothing |
| SysReadProtocol.ReadsNextCharacters | cpu/syscall.c:12-27 | under every interleaving, a returning sys_read has filled exactly count bytes with the next count accepted characters |
| SysReadProtocol.ReaderStepKeeps | cpu/syscall.c:12-27 | every step of the call or of an interrupt keeps: bytes written so far are the characters accepted from the start of the call on |
| SysReadProtocol.HaltsOnlyWhenSeenEmpty | cpu/syscall.c:19-21 | the call halts only after a pop that found the ring empty when it read the head, whichever index it read first |
| SysReadProtocol.StepProgress | cpu/syscall.c:14-24 | a call that is awake once its characters have been accepted stays awake, every step of its own brings its return strictly nearer, and no interrupt moves it away |
| SysReadProtocol.ReturnsIffAwake | cpu/syscall.c:19-21 | with its characters accepted and no further interrupt, 8 * count + 1 steps bring the call to its return if and only if it is not in hlt or bound for it |
| SysReadProtocol.InterruptWakes | cpu/syscall.c:19-21 | whatever the ring holds and the call lacks, an interrupt that returns ends the hlt: the call pops again, with everything stored so far unchanged |
| SysReadProtocol.StoresNext | cpu/syscall.c:14-24 | under every interleaving, an awake call with a character waiting for it stores exactly that one within 8 of its own steps |
| SysReadProtocol.AnyCountReturns | cpu/syscall.c:12-27 | a call for any number of characters, also more than the ring holds, returns them all when it gets time to take each key after its interrupt, though it sleeps and wakes for every one |
| SysReadProtocol.LostWakeUp | cpu/syscall.c:19-21 | concrete: a character pushed between the failed pop and the hlt stays in the ring while the call sleeps, and no number of its own steps ends that |
| SysReadProtocol.SysReadReturns | cpu/syscall.c:12-27 | once count characters have been accepted and the call is awake, it returns them within 8 * count + 1 of its own steps, however interrupts interleave |
| CString.Strlen | libc/string.c:14-20 | the distance to the first NUL |
| CString.Memmove | libc/string.c:249-270 | for every overlap the destination ends equal to the old source and nothing else changes |
| CString.Strncpy | libc/string.c:21-35 | the first n characters up to the NUL, padded with NULs, and nothing else changes |
| CString.Strnone | libc/string.c:123-130 | clears exactly the first byte, which makes the string empty |
| CString.Strins | libc/string.c:574-582 | the character is inserted at the position, or at the end, and the terminator moves by one |
| CString.Strchr | libc/string.c:391-402 | the first occurrence, with the terminator found when NUL is asked for |
| CString.Reverse | libc/string.c:93-100 | the string is reversed in place and what lies beyond is untouched |
| LineEditorModule.EditsUndone | cpu/kprintf.c:214-255 | backspace takes back a typed character, arrows take back each other and keep the text |
| LineEditorModule.KeyFlags | cpu/kprintf.c:195-252 | for every byte, by number: 0x2A, 0x36 and their releases set and clear Shift, 0x3A toggles Caps Lock, 0x1D and 0x38 are Ctrl and Alt, 0x1C enters the line, nothing else touches a flag |
| LineEditorModule.TextlessKeys | cpu/kprintf.c:195-212 | modifiers and all releases leave text and cursor alone |
| LineEditorModule.ArrowKeys | cpu/kprintf.c:214-226 | 0x4B takes the last character before the cursor to the other side, 0x4D the first one behind it |
| LineEditorModule.ArrowsKeepText | cpu/kprintf.c:214-226 | so both keep the text and move the cursor by one if they can |
| LineEditorModule.TextKeys | cpu/kprintf.c:228-271 | 0x0E drops the character before the cursor, 0x1C puts the cursor in front of the whole text, any other press types the upper character if Shift or Caps Lock is on and the lower one if not |
| LineEditorModule.ShiftFollows | cpu/kprintf.c:197-200 | over any key sequence, Shift is as the last press or release of its two keys left it |
| LineEditorModule.CapsParity | cpu/kprintf.c:201-205 | over any key sequence, Caps Lock is the parity of its presses |
| LineEditorModule.TypedInBetween | cpu/kprintf.c:214-271 | after typing, n left arrows, typing and Enter, the second text stands n characters before the end of the first |
| LineEditorModule.ArrowAndInsert | cpu/kprintf.c:214-271 | concrete: a, b, left arrow, c and Enter give acb |
| LineEditorModule.FitsBuffer | cpu/kprintf.c:228-271 | any key sequence fits the buffer as long as text and keys together are at most 511 |
| LineEditorModule.EnteredIff | cpu/kprintf.c:246-252 | the line is finished exactly when Enter has been pressed |
| LineEditorModule.PlainTyping | cpu/kprintf.c:253-271 | typing plain keys inserts exactly their characters, in order, at the cursor |
| LineEditorModule.NeverNul | cpu/kprintf.c:265-270 | no key sequence puts a NUL into the text |
| LineEditorModule.LineEditor.KscanHandler | cpu/kprintf.c:187-274 | one key byte changes buffer, position and flags as the abstract editor changes, which KeyFlags, TextlessKeys, ArrowKeys and TextKeys spell out key by key |
| LineEditorModule.LineEditor.Backspace | cpu/kprintf.c:230-234 | the memmove and the store delete the character before the cursor |
| LineEditorModule.LineEditor.Insert | cpu/kprintf.c:265-269 | strins puts the character at the cursor |
| LineEditorModule.LineEditor.Kscan | cpu/kprintf.c:428-447 | the caller's buffer gets exactly the text of the abstract editor started empty, whatever the old buffer held |
| WordSpec.RunsAreWords | libc/string.c:490-547 | the scan lists exactly the maximal delimiter-free runs |
| WordSpec.RunsInOrder | libc/string.c:490-547 | from left to right, non-empty, a delimiter after each but the last |
| WordSpec.WordsAreRuns | libc/string.c:490-547 | the words are the contents of those runs |
| SplitModule.CountWords | libc/string.c:490-506 | the first pass counts the words |
| SplitModule.FillWords | libc/string.c:514-543 | the second pass stores word k at index k, never past the end; a failed word passes every earlier block, then the array, to mfree |
| SplitModule.Split | libc/string.c:490-547 | NULL exactly without words or memory; otherwise the words in order, each terminated, and their number; after a failure every block obtained has been freed once |
| SplitModule.SplitString | libc/string.c:132-189 | result, count and clean-up of a failed call, at blanks |
| StrtokModule.CutMeaning | libc/string.c:348-388 | a call returns the first remaining word, still readable after the cut, and saves a position with exactly the other words remaining |
| StrtokModule.Tokenizer.Strtok | libc/string.c:348-388 | token, saved position and buffer are those of the cut |
| StrtokModule.KeptAfterCut | libc/string.c:378-385 | later calls leave words already returned alone |
| StrtokModule.Tokenize | libc/string.c:348-388 | iterating to NULL yields exactly the words of the original string, readable at the end |
| StrtokModule.SplitLikeTokenize | libc/string.c:348-547 | with one delimiter, strtok and split give the same words in the same order; when split returns NULL there are none or memory ran out |
| Numerals.ValueOfDigits | libc/string.c:455-488 | digits evaluate back to the number in every base from 2 to 36 |
| Numerals.DigitMeans | libc/string.c:455-488 | the digits are 0 to 9 and A to Z |
| Numerals.ValueMeans | libc/string.c:455-488 | a numeral is worth the sum of its digits at their places |
| Numerals.DigitsCanonical | libc/string.c:455-488 | no leading zero except for zero itself |
| Numerals.DigitsOfValue | libc/string.c:455-488 | a canonical numeral is the only one of its value |
| NumberText.IntToString | libc/string.c:102-114 | writes the decimal text of every int but INT_MIN |
| NumberText.TextMeans | libc/string.c:102-114 | the text of a number is a minus sign, if it is negative, and the canonical numeral of its absolute value |
| NumberText.Itoa | libc/string.c:455-488 | writes the text in the base, with a sign in base 10, and with digits counted down from '0' for negative numbers in other bases |
| NumberText.NegativeReadsBack | libc/string.c:471-477 | those digits evaluate back to the number, for every negative int |
| NumberText.ToStr | libc/string.c:286-320 | a block with exactly the decimal text and its terminator, or NULL without memory |
| NumberText.Atoi | libc/string.c:217-240 | computes the value that AtoiMeans gives, with an accumulator that never leaves int |
| NumberText.AtoiCovers | libc/string.c:217-240 | every string consists of blanks, at most one sign, digits if any, and a rest that stops them |
| NumberText.AtoiMeans | libc/string.c:217-240 | such a string reads as the value of its digits, negated exactly behind a minus sign, and as 0 without digits |
| NumberText.OneSign | libc/string.c:228-231 | concrete: "+5" reads as 5 and "-5" as -5 |
| NumberText.TwoSigns | libc/string.c:228-231 | concrete: "+-5" and "--5" read as 0 |
| NumberText.AtoiOfText | libc/string.c:217-240 | reads the text of a number back, also behind blanks and before any non-digit |
| NumberText.TextLength | libc/string.c:102-114 | at most 11 characters in base 10, 31 in any base for non-negative ints |
| NumberText.TextAndBack | libc/string.c:102-320 | the three writers agree and atoi returns the number |
| Kvprintf.NumberWidth | cpu/kprintf.c:65-76 | an integer directive prints max(width, precision, digits and sign) characters |
| Kvprintf.NumberReadsBack | cpu/kprintf.c:55-97 | the output reads back exactly when the number is not negative or no zeros precede its sign |
| Kvprintf.ZerosBeforeSign | cpu/kprintf.c:65-76 | concrete: -3 under %05d prints 000-3 |
| Kvprintf.HexReadsBack | cpu/kprintf.c:98-116 | a hexadecimal field, padded or not, reads back as the word |
| Kvprintf.PointerReadsBack | cpu/kprintf.c:117-127 | sixteen digits that evaluate to the pointer |
| Kvprintf.FieldWidth | cpu/kprintf.c:128-146 | text directives print max(width, length) characters with the text at the flagged end |
| Kvprintf.SpellingParses | cpu/kprintf.c:29-53 | flags, width, precision, length modifier and letter, written out, parse back to the directive, whatever surrounds them |
| Kvprintf.DirectivePrints | cpu/kprintf.c:22-157 | a directive written out is complete, takes its argument and prints its field; the next rows say what that is letter by letter |
| Kvprintf.HexPrints | cpu/kprintf.c:98-116 | %x and %X print blanks, zeros, the shortest lower case hexadecimal numeral of the word, and blanks, as many as width, precision and flags ask for; the field reads back as the word |
| Kvprintf.SignedPrints | cpu/kprintf.c:55-78 | %d and %i print the two's complement value: blanks, zeros, sign, shortest decimal numeral, blanks; the field reads back if and only if the value is not negative or no zero precedes the sign |
| Kvprintf.UnsignedPrints | cpu/kprintf.c:79-97 | %u prints the word: blanks, zeros, shortest decimal numeral, blanks; the field reads back as the word |
| Kvprintf.PointerPrints | cpu/kprintf.c:117-127 | %p prints 0x and sixteen lower case digits that evaluate to the word, whatever the flags |
| Kvprintf.CharacterPrints | cpu/kprintf.c:139-146 | %c prints the lowest byte of the word at the flagged end of its field |
| Kvprintf.StringPrints | cpu/kprintf.c:128-138 | %s prints the first min(precision, length) characters of the string, or of "(null)" for NULL, at the flagged end of its field |
| Kvprintf.OthersPrint | cpu/kprintf.c:147-155 | %% prints one percent sign, any other letter itself behind one; neither takes an argument |
| Kvprintf.PartsOfDirective | cpu/kprintf.c:29-53 | concrete: -012.3lx is left-aligned, zero flag, width 12, precision 3, letter x |
| Kvprintf.HexOf255 | cpu/kprintf.c:98-116 | concrete: %x prints 255 as ff |
| Kvprintf.FormatsCompose | cpu/kprintf.c:22-157 | printing one format after another is printing them joined, the second with the arguments the first leaves over |
| Kvprintf.PlainText | cpu/kprintf.c:24-28 | a format without percent signs is printed as it is |
| Kvprintf.CoreFits | cpu/kprintf.c:61-64 | digits and sign take at most 21 of the 32 buffer bytes |
| Kvprintf.FillSigned | cpu/kprintf.c:56-64 | the buffer, read backwards, is sign and digits, in at most 21 bytes |
| Kvprintf.ReadDirective | cpu/kprintf.c:29-53 | flags, width, precision and letter as specified, never reading past the NUL |
| Kvprintf.Kvprintf | cpu/kprintf.c:22-157 | for complete formats the output is exactly that of the pure interpreter, which PlainText, FormatsCompose and the rows for each letter characterise |
| Paging.Flags | mem/paging.c:29-41 | the or of an aligned address and the flag bits is their sum |
| Paging.WalkIsIdentity | mem/paging.c:28-43 | over such tables a walk is the identity below 4 GiB, writable, supervisor, 2 MiB pages, and finds a non-present entry for every other 48-bit address |
| Paging.PageTables.FillDirectory | mem/paging.c:39-42 | the inner loop maps one gigabyte |
| Paging.PageTables.PagingInit | mem/paging.c:18-43 | after the loops the walk of every 48-bit address is as stated |

## Left out

- FreeKeepsIff: the "only if" is for NULL and blocks that ever were. At any other address kmfree reads bytes that no
  heap routine wrote, and those may imitate a header whose release leaves a sound heap; the "if" is for every pointer.
- FreeKeepsIff: a free that absorbs a successor from outside the heap counts as not keeping it, although the bytes
  found there can happen to leave a sound heap. Memory is readable and writable everywhere; page faults on wild links
  are not modelled.
- Itoa: INT_MIN in base 10 is excluded; the source negates it.
- Atoi: strings whose digits exceed INT_MAX are excluded; the source overflows a signed int there.
- Kvprintf: formats that end inside a directive, numbers in the format above INT_MAX, arguments of the wrong type and
  LONG_MIN are excluded; what the source does then is undefined in C.
- Strchr: the delimiter string is read as an array of characters from its start, as strtok does.
- Kscan: redraw and echo on the screen are not modelled, and key sequences must keep the text at most 511 characters,
  terminator excluded; the source does not check.
- SysRead: pops and pushes are whole calls, keys are pushed only while it halts, and every halt ends; `blocked` says
  that the halts given ran out, in place of waiting for ever. `SysReadProtocol` has no such bounds.
- SysReadReturns: only keyboard interrupts are moves; any other interrupt that ends a hlt is not modelled.
- The two scancode tables are arbitrary functions from scancode to character.
- Writes by the heap's clients into their blocks are not modelled: memory changes only by the allocator's own writes.
- The allocator that split and tostr call is one that grants an arbitrary number of requests, not the kernel heap.
- sys_write, sys_exit and the dispatch on rax: one-line consequences of kvprintf or of the branch taken.
- kgetch and getch_handler, the remaining string routines, heap_print_info: finite tables or simple loops.
- The VGA terminal, GDT, IDT, TSS, PIC, APIC, port input and output, control registers and boot code: hardware effects.
- clearString and contain: the first has an assignment for a loop condition and does nothing, the second never
  advances its index.
